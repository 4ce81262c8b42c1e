/**
 The Basic branch of HeadImpl::set_authorization and HeadImpl::get_authorization: credentials are put into the
 Authorization header by encode_base64, and got back by decode_base64 and split.
 */
module BasicAuth {
  import opened Base64
  import opened Base64Iterators
  import opened Bytes
  import opened Split

  const COLON: byte := 58

  datatype Authorization =
    | NoneAuth
    | DigestAuth
    | BasicAuth(username: seq<byte>, password: seq<byte>)

  const BASIC: string := "Basic"
  const DIGEST: string := "Digest"

  /** The credentials as they are encoded. */
  function Credentials(username: seq<byte>, password: seq<byte>): seq<byte> {
    username + [COLON] + password
  }

  function Header(username: seq<byte>, password: seq<byte>): string {
    "Basic " + Encode(Credentials(username, password))
  }

  method SetAuthorization(username: seq<byte>, password: seq<byte>) returns (header: string)
    ensures header == Header(username, password)
  {
    var info := EncodeBase64(username + [COLON] + password);
    header := "Basic " + info;
  }

  /** The first two of the parts between colons; anything with fewer parts is rejected. */
  function FromParts(parts: seq<seq<byte>>): Authorization {
    if |parts| < 2 then NoneAuth else BasicAuth(parts[0], parts[1])
  }

  /** What get_authorization returns for a header value. */
  function Parse(header: string): Authorization {
    var p := Find(header, " ", 0);
    if p > |header| || p + 1 >= |header| then NoneAuth
    else if header[..p] == DIGEST then DigestAuth
    else if header[..p] == BASIC then FromParts(Parts(Decode(header[p + 1..]), [COLON]))
    else NoneAuth
  }

  method GetAuthorization(header: string) returns (auth: Authorization)
    ensures auth == Parse(header)
  {
    if header == "" {
      return NoneAuth;
    }
    var p := Find(header, " ", 0);
    if p > |header| || p + 1 >= |header| {
      return NoneAuth;
    }
    var authMethod, data := header[..p], header[p + 1..];
    if authMethod == DIGEST {
      auth := DigestAuth;
    } else if authMethod == BASIC {
      var decode, _ := DecodeBase64(data);
      var userPassword := SplitString(decode, [COLON]);
      if |userPassword| < 2 {
        auth := NoneAuth;
      } else {
        auth := BasicAuth(userPassword[0], userPassword[1]);
      }
    } else {
      auth := NoneAuth;
    }
  }

  /** Reading back a header that was set gives the parts of the credentials, cut at the first NUL. */
  lemma ParseOfHeader(username: seq<byte>, password: seq<byte>)
    ensures Parse(Header(username, password)) == FromParts(Parts(UntilNul(Credentials(username, password)), [COLON]))
  {
    var d := Credentials(username, password);
    EncodedLength(d);
    DecodeOfEncode(d);
    HeaderFields(Encode(d));
  }

  lemma HeaderFields(data: string)
    ensures var h := "Basic " + data; Find(h, " ", 0) == 5 && h[..5] == BASIC && h[6..] == data
  {
    FindAfter([], BASIC, " " + data, ' ');
    assert [] + BASIC + (" " + data) == "Basic " + data;
    assert [' '] == " ";
  }

  /**
   The credentials come back as they were set exactly when neither contains a colon or a NUL.  (A password may
   contain colons by section 2 of RFC 7617; the code loses what follows the first one.)
   */
  lemma CredentialsRoundTrip(username: seq<byte>, password: seq<byte>)
    ensures Parse(Header(username, password)) == BasicAuth(username, password)
            <==> COLON !in username && COLON !in password && 0 !in username && 0 !in password
  {
    hide Parse, Credentials, UntilNul, Parts, Join;
    var d := Credentials(username, password);
    ParseOfHeader(username, password);
    UntilNulMeans(d);
    InCredentials(username, password);
    if COLON !in username && COLON !in password && 0 !in username && 0 !in password {
      WholeSplit([username, password], d);
    }
    if Parse(Header(username, password)) == BasicAuth(username, password) {
      SplitThenJoin(UntilNul(d), [COLON]);
      var parts := Parts(UntilNul(d), [COLON]);
      PartIsPlain(parts, 0, UntilNul(d));
      PartIsPlain(parts, 1, UntilNul(d));
    }
  }

  lemma InCredentials(username: seq<byte>, password: seq<byte>)
    ensures 0 in Credentials(username, password) <==> 0 in username || 0 in password
    ensures [] + Join([username, password], [COLON]) == Credentials(username, password)
  {
    assert [username, password][1..] == [password];
  }

  /** Of the password "b:", which ends in a colon, the colon is lost. */
  lemma CredentialsFail()
    ensures Parse(Header([97], [98, COLON])) == BasicAuth([97], [98]) != BasicAuth([97], [98, COLON])
  {
    hide Decode, Encode, Parse, Parts, UntilNul;
    var d: seq<byte> := [97, COLON, 98, COLON];
    var rest, last: seq<seq<byte>> := [[98], []], [[]];
    var parts := [[97]] + rest;
    ParseOfHeader([97], [98, COLON]);
    UntilNulMeans(d);
    assert Credentials([97], [98, COLON]) == d;
    assert parts[1..] == rest && rest[1..] == last;
    assert Join(last, [COLON]) == [];
    assert Join(rest, [COLON]) == [98, COLON];
    assert [] + Join(parts, [COLON]) == d;
    WholeSplit(parts, d);
    assert parts[0] == [97] && parts[1] == [98];
  }

  lemma WholeSplit(parts: seq<seq<byte>>, d: seq<byte>)
    requires |parts| > 0 && [] + Join(parts, [COLON]) == d && forall k :: 0 <= k < |parts| ==> COLON !in parts[k]
    ensures Parts(d, [COLON]) == parts
  {
    JoinThenSplit([], parts, COLON);
  }

  // ---------- What is accepted ----------

  /** `header` is the scheme, a space and then something. */
  predicate HasScheme(header: string, scheme: string) {
    |header| > |scheme| + 1 && header[..|scheme|] == scheme && header[|scheme|] == ' '
  }

  lemma SchemeFound(header: string, scheme: string)
    requires ' ' !in scheme && HasScheme(header, scheme)
    ensures Find(header, " ", 0) == |scheme|
  {
    var rest := header[|scheme| + 1..];
    FindAfter([], scheme, [' '] + rest, ' ');
    assert header == [] + scheme + ([' '] + rest);
    assert [' '] == " ";
  }

  lemma SpaceFound(header: string, p: nat)
    requires p == Find(header, " ", 0) && p <= |header|
    ensures p < |header| && header[p] == ' '
  {
    assert header[p..p + 1] == " ";
  }

  /**
   Of every header: credentials are got exactly from the scheme "Basic" with something after it that decodes to a
   string with a colon in it; the scheme "Digest" with something after it is recognised; all else is rejected.
   */
  lemma WhatIsAccepted(header: string)
    ensures Parse(header).BasicAuth? <==> HasScheme(header, "Basic") && COLON in Decode(header[6..])
    ensures Parse(header).DigestAuth? <==> HasScheme(header, "Digest")
  {
    hide Find, Decode, Parts, FromParts;
    var p := Find(header, " ", 0);
    if HasScheme(header, "Basic") {
      SchemeFound(header, "Basic");
    }
    if HasScheme(header, "Digest") {
      SchemeFound(header, "Digest");
    }
    if p <= |header| {
      SpaceFound(header, p);
    }
    if HasScheme(header, "Basic") {
      ColonMeansParts(Decode(header[6..]));
    }
  }

  lemma ColonMeansParts(d: seq<byte>)
    ensures FromParts(Parts(d, [COLON])).BasicAuth? <==> COLON in d
    ensures !FromParts(Parts(d, [COLON])).DigestAuth?
  {
    hide Parts;
    TwoPartsIfContained(d, [COLON]);
    if COLON in d {
      ElementOccurs(d, COLON);
    }
    if Contains(d, [COLON]) {
      var i: nat :| OccursAt(d, [COLON], i);
      assert d[i..i + 1] == [COLON] && d[i] == COLON;
    }
  }

  /** The name ends at the first colon, and the password at the second, or at the end if there is none. */
  lemma WhatIsGot(header: string, i: nat)
    requires HasScheme(header, "Basic")
    requires var d := Decode(header[6..]); i < |d| && d[i] == COLON && COLON !in d[..i]
    ensures var d, auth := Decode(header[6..]), Parse(header);
            && auth.BasicAuth? && auth.username == d[..i] && COLON !in auth.password
            && (auth.password == d[i + 1..] || auth.password + [COLON] <= d[i + 1..])
  {
    hide Find, Decode, Parts;
    var d := Decode(header[6..]);
    SchemeFound(header, "Basic");
    assert header[..5] == BASIC;
    forall j: nat | j <= i ensures OccursAt(d, [COLON], j) <==> j == i {
      assert d[j..j + 1] == [d[j]];
      assert j < i ==> d[j] in d[..i];
    }
    FirstTwoParts(d, [COLON], i);
    if COLON in Parts(d, [COLON])[1] {
      ElementOccurs(Parts(d, [COLON])[1], COLON);
    }
  }

  /** A part between colons has no colon, and only bytes of the whole. */
  lemma PartIsPlain(parts: seq<seq<byte>>, k: nat, whole: seq<byte>)
    requires k < |parts| && Join(parts, [COLON]) == whole && !Contains(parts[k], [COLON])
    ensures COLON !in parts[k] && forall b :: b in parts[k] ==> b in whole
  {
    hide Join;
    var part := parts[k];
    if COLON in part {
      ElementOccurs(part, COLON);
    }
    PartInJoin(parts, k, [COLON]);
  }

  lemma {:induction false} PartInJoin(parts: seq<seq<byte>>, k: nat, sep: seq<byte>)
    requires k < |parts|
    ensures forall b :: b in parts[k] ==> b in Join(parts, sep)
  {
    if k > 0 {
      PartInJoin(parts[1..], k - 1, sep);
    }
  }
}
