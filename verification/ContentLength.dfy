/**
 Where the declared length comes from: the session adds a Content-Length head to a response that has none
 (pre_send), written by std::to_string; the receiver looks it up and reads it with std::stoll.  With this, a
 response arrives without anything having been declared for it.
 */
module ContentLength {
  import opened Bytes
  import opened ResponseParser
  import opened Split
  import BitStrings

  const TWO_TO_THE_63: int := 0x8000_0000_0000_0000

  // ---------- Decimal numbers ----------

  predicate IsDigit(b: byte) {
    48 <= b <= 57
  }

  /** std::to_string */
  function ToString(n: nat): (s: seq<byte>)
    ensures s != [] && forall i :: 0 <= i < |s| ==> IsDigit(s[i])
  {
    if n < 10 then [(48 + n) as byte] else ToString(n / 10) + [(48 + n % 10) as byte]
  }

  function ValueOf(digits: seq<byte>): nat
    requires forall i :: 0 <= i < |digits| ==> IsDigit(digits[i])
  {
    if digits == [] then 0
    else
      var last := digits[|digits| - 1];
      assert IsDigit(last);
      10 * ValueOf(digits[..|digits| - 1]) + (last as nat - 48)
  }

  function SkipSpace(s: seq<byte>): seq<byte> {
    if s != [] && (s[0] == 32 || 9 <= s[0] <= 13) then SkipSpace(s[1..]) else s
  }

  function LeadingDigits(s: seq<byte>): (d: seq<byte>)
    ensures forall i :: 0 <= i < |d| ==> IsDigit(d[i])
  {
    if s != [] && IsDigit(s[0]) then [s[0]] + LeadingDigits(s[1..]) else []
  }

  datatype Number = NotANumber | Number(value: int)

  function Signed(minus: bool, digits: seq<byte>): Number
    requires forall i :: 0 <= i < |digits| ==> IsDigit(digits[i])
  {
    var size: int := ValueOf(digits);
    var value := if minus then -size else size;
    if digits == [] || value < -TWO_TO_THE_63 || value >= TWO_TO_THE_63 then NotANumber else Number(value)
  }

  /**
   std::stoll with base 10: white space, a sign, digits, and anything after them.  It throws if there are no digits,
   and if the value is not one of 64 bits.
   */
  function Stoll(s: seq<byte>): Number {
    var t := SkipSpace(s);
    var minus := t != [] && t[0] == 45;
    Signed(minus, LeadingDigits(if t != [] && (t[0] == 45 || t[0] == 43) then t[1..] else t))
  }

  lemma {:induction false} ValueOfToString(n: nat)
    ensures ValueOf(ToString(n)) == n
  {
    if n >= 10 {
      ValueOfToString(n / 10);
      assert ToString(n)[..|ToString(n)| - 1] == ToString(n / 10);
    }
  }

  lemma {:induction false} AllDigits(s: seq<byte>)
    requires forall i :: 0 <= i < |s| ==> IsDigit(s[i])
    ensures LeadingDigits(s) == s
  {
    if s != [] {
      AllDigits(s[1..]);
      assert s == [s[0]] + s[1..];
    }
  }

  /** What to_string writes, stoll reads back exactly if it fits into a signed number of 64 bits. */
  lemma DecimalRoundTrip(n: nat)
    ensures Stoll(ToString(n)) == if n < 0x8000_0000_0000_0000 then Number(n) else NotANumber
  {
    hide ToString;
    var s := ToString(n);
    assert IsDigit(s[0]);
    ValueOfToString(n);
    AllDigits(s);
  }

  lemma ToStringAppends(n: nat)
    ensures n < 10 ==> ToString(n) == [(48 + n) as byte]
    ensures n >= 10 ==> ToString(n) == ToString(n / 10) + [(48 + n % 10) as byte]
  {
  }

  lemma DecimalExample()
    ensures ToString(4096) == Text("4096") && ValueOf(ToString(4096)) == 4096
  {
    hide ToString;
    ToStringAppends(4096);
    ToStringAppends(409);
    ToStringAppends(40);
    ToStringAppends(4);
    ValueOfToString(4096);
  }

  /** White space, as std::stoll skips it. */
  predicate AllSpace(text: seq<byte>) {
    forall i :: 0 <= i < |text| ==> text[i] in {32, 9, 10, 11, 12, 13}
  }

  lemma {:induction false} SkipsSpace(space: seq<byte>, rest: seq<byte>)
    requires AllSpace(space) && (rest == [] || rest[0] !in {32, 9, 10, 11, 12, 13})
    ensures SkipSpace(space + rest) == rest
  {
    if space == [] {
      assert space + rest == rest;
    } else {
      SkipsSpace(space[1..], rest);
      assert (space + rest)[1..] == space[1..] + rest;
    }
  }

  lemma {:induction false} DigitsUpTo(digits: seq<byte>, rest: seq<byte>)
    requires (forall i :: 0 <= i < |digits| ==> IsDigit(digits[i])) && (rest == [] || !IsDigit(rest[0]))
    ensures LeadingDigits(digits + rest) == digits
  {
    if digits == [] {
      assert digits + rest == rest;
    } else {
      DigitsUpTo(digits[1..], rest);
      assert (digits + rest)[1..] == digits[1..] + rest;
    }
  }

  lemma Signs()
    ensures Text("+") == [43] && Text("-") == [45]
  {
  }

  lemma AfterSpace(sign: seq<byte>, digits: seq<byte>, rest: seq<byte>)
    requires sign in {[], [43], [45]} && forall i :: 0 <= i < |digits| ==> IsDigit(digits[i])
    requires sign == [] && digits == [] && rest != [] ==> rest[0] !in {32, 9, 10, 11, 12, 13, 43, 45}
    ensures var tail := digits + rest;
            && (sign + tail == [] || (sign + tail)[0] !in {32, 9, 10, 11, 12, 13})
            && (sign == [] && tail != [] ==> tail[0] != 43 && tail[0] != 45)
  {
    var tail := digits + rest;
    if sign != [] {
      assert (sign + tail)[0] == sign[0];
    } else if digits != [] {
      assert (sign + tail)[0] == tail[0] == digits[0];
    } else {
      assert sign + tail == tail == rest;
    }
  }

  lemma WithSign(s: seq<byte>, sign: seq<byte>, tail: seq<byte>)
    requires sign in {[], [43], [45]} && SkipSpace(s) == sign + tail
    requires sign == [] && tail != [] ==> tail[0] != 43 && tail[0] != 45
    ensures Stoll(s) == Signed(sign == [45], LeadingDigits(tail))
  {
    hide SkipSpace, LeadingDigits, Signed;
    if sign == [] {
      assert sign + tail == tail;
    } else {
      assert (sign + tail)[0] == sign[0] && (sign + tail)[1..] == tail;
    }
  }

  lemma SignedMeans(minus: bool, digits: seq<byte>)
    requires forall i :: 0 <= i < |digits| ==> IsDigit(digits[i])
    ensures var n: int := ValueOf(digits);
            var value := if minus then -n else n;
            Signed(minus, digits) == if digits != [] && -0x8000_0000_0000_0000 <= value < 0x8000_0000_0000_0000
                                     then Number(value) else NotANumber
  {
  }

  /**
   White space, at most one sign, digits, and anything that does not begin with a digit: the number that the sign and
   the digits are, if there are digits and the number has 64 bits; and no number otherwise.
   */
  lemma WhatIsRead(space: seq<byte>, sign: seq<byte>, digits: seq<byte>, rest: seq<byte>)
    requires AllSpace(space) && sign in {[], Text("+"), Text("-")}
    requires (forall i :: 0 <= i < |digits| ==> IsDigit(digits[i])) && (rest == [] || !IsDigit(rest[0]))
    requires sign == [] && digits == [] && rest != [] ==> rest[0] !in {32, 9, 10, 11, 12, 13, 43, 45}
    ensures var n: int := ValueOf(digits);
            var value := if sign == Text("-") then -n else n;
            Stoll(space + sign + digits + rest)
            == if digits != [] && -0x8000_0000_0000_0000 <= value < 0x8000_0000_0000_0000 then Number(value)
               else NotANumber
  {
    hide SkipSpace, LeadingDigits, Signed, Stoll, AllSpace;
    var tail := digits + rest;
    Signs();
    AfterSpace(sign, digits, rest);
    SkipsSpace(space, sign + tail);
    DigitsUpTo(digits, rest);
    BitStrings.ConcatIsAssociative(space, sign, tail);
    BitStrings.ConcatIsAssociative(space + sign, digits, rest);
    WithSign(space + (sign + tail), sign, tail);
    SignedMeans(sign == [45], digits);
  }

  // ---------- Looking the length up ----------

  const CONTENT_LENGTH: seq<byte> := Text("Content-Length")
  const CONTENT_TYPE: seq<byte> := Text("Content-Type")
  const TEXT_HTML: seq<byte> := Text("text/html")

  predicate Has(heads: seq<Head>, key: seq<byte>) {
    exists i :: 0 <= i < |heads| && heads[i].key == key
  }

  lemma HasInAppended(heads: seq<Head>, h: Head, key: seq<byte>)
    ensures Has(heads + [h], key) <==> Has(heads, key) || h.key == key
  {
    if Has(heads, key) {
      var i :| 0 <= i < |heads| && heads[i].key == key;
      assert (heads + [h])[i].key == key;
    }
    if h.key == key {
      assert (heads + [h])[|heads|].key == key;
    }
  }

  /** How many heads have this key. */
  function CountOf(heads: seq<Head>, key: seq<byte>): (n: nat)
    ensures n == 0 <==> !Has(heads, key)
  {
    if heads == [] then 0
    else
      HasInAppended(heads[..|heads| - 1], heads[|heads| - 1], key);
      assert heads == heads[..|heads| - 1] + [heads[|heads| - 1]];
      CountOf(heads[..|heads| - 1], key) + (if heads[|heads| - 1].key == key then 1 else 0)
  }

  /** get_head_int64 of a head with this value, with 0 as the default. */
  function LengthIn(value: seq<byte>): int {
    match Stoll(value)
    case Number(n) => n
    case NotANumber => 0
  }

  /**
   The length that the receiver finds among `heads` is that of a Content-Length head, or 0 if there is none.  If there
   are several, it depends on the container which one is found.
   */
  ghost predicate LooksUp(env: Environment, heads: seq<Head>) {
    if Has(heads, CONTENT_LENGTH) then
      exists i :: 0 <= i < |heads| && heads[i].key == CONTENT_LENGTH && env.length(heads) == LengthIn(heads[i].value)
    else env.length(heads) == 0
  }

  /** A value that does not begin like a number counts as 0. */
  lemma JunkLengthIsZero(value: seq<byte>)
    requires value != [] ==> !IsDigit(value[0]) && value[0] !in {32, 9, 10, 11, 12, 13, 43, 45}
    ensures LengthIn(value) == 0
  {
    hide Stoll;
    WhatIsRead([], [], [], value);
    assert [] + [] + [] + value == value;
  }

  // ---------- What the session adds ----------

  function Added(heads: seq<Head>, h: Head): seq<Head> {
    if Has(heads, h.key) then heads else heads + [h]
  }

  /** HeadImpl::merge, without overwriting. */
  function Merged(heads: seq<Head>, others: seq<Head>): seq<Head> {
    if others == [] then heads else Added(Merged(heads, others[..|others| - 1]), others[|others| - 1])
  }

  /** The heads of a response with a body of `size` bytes, prepared for sending. */
  function Prepared(heads: seq<Head>, size: nat, session: seq<Head>): seq<Head> {
    Merged(Added(Added(heads, Head(CONTENT_LENGTH, ToString(size))), Head(CONTENT_TYPE, TEXT_HTML)), session)
  }

  /** The container of heads; `heads` lists it in the order of insertion. */
  class HeadImpl {
    var heads: seq<Head>

    constructor ()
      ensures heads == []
    {
      heads := [];
    }

    method GetHeadCount(key: seq<byte>) returns (count: nat)
      ensures count == CountOf(heads, key)
    {
      count := 0;
      for i := 0 to |heads|
        invariant count == CountOf(heads[..i], key)
      {
        assert heads[..i + 1][..i] == heads[..i];
        if heads[i].key == key {
          count := count + 1;
        }
      }
      assert heads[..|heads|] == heads;
    }

    method AddHead(key: seq<byte>, value: seq<byte>)
      modifies this
      ensures heads == old(heads) + [Head(key, value)]
    {
      heads := heads + [Head(key, value)];
    }

    method Merge(others: seq<Head>)
      modifies this
      ensures heads == Merged(old(heads), others)
    {
      for i := 0 to |others|
        invariant heads == Merged(old(heads), others[..i])
      {
        assert others[..i + 1][..i] == others[..i];
        var count := GetHeadCount(others[i].key);
        if count == 0 {
          AddHead(others[i].key, others[i].value);
        }
      }
      assert others[..|others|] == others;
    }
  }

  /** Session::pre_send, as far as it changes the heads of a response. */
  method PreSend(head: HeadImpl, bodySize: nat, session: seq<Head>)
    modifies head
    ensures head.heads == Prepared(old(head.heads), bodySize, session)
  {
    var count := head.GetHeadCount(CONTENT_LENGTH);
    if count == 0 {
      head.AddHead(CONTENT_LENGTH, ToString(bodySize));
    }
    count := head.GetHeadCount(CONTENT_TYPE);
    if count == 0 {
      head.AddHead(CONTENT_TYPE, TEXT_HTML);
    }
    head.Merge(session);
  }

  // ---------- What is prepared ----------

  lemma AddedCounts(heads: seq<Head>, h: Head, key: seq<byte>)
    ensures heads <= Added(heads, h)
    ensures CountOf(Added(heads, h), key) == if h.key == key && !Has(heads, key) then 1 else CountOf(heads, key)
  {
    assert (heads + [h])[..|heads|] == heads;
  }

  /** Merging keeps what is there, and adds each absent key once, with its first value. */
  lemma {:induction false} MergedCounts(heads: seq<Head>, others: seq<Head>, key: seq<byte>)
    ensures heads <= Merged(heads, others)
    ensures CountOf(Merged(heads, others), key)
            == if Has(heads, key) then CountOf(heads, key) else if Has(others, key) then 1 else 0
  {
    if others != [] {
      var front, last := others[..|others| - 1], others[|others| - 1];
      MergedCounts(heads, front, key);
      AddedCounts(Merged(heads, front), last, key);
      HasInAppended(front, last, key);
      assert others == front + [last];
    }
  }

  /** `value` is the only one that `key` has. */
  ghost predicate OnlyValue(heads: seq<Head>, key: seq<byte>, value: seq<byte>) {
    Has(heads, key) && forall i :: 0 <= i < |heads| && heads[i].key == key ==> heads[i].value == value
  }

  lemma AddedValue(heads: seq<Head>, h: Head, key: seq<byte>, value: seq<byte>)
    requires OnlyValue(heads, key, value) || (!Has(heads, key) && h == Head(key, value))
    ensures OnlyValue(Added(heads, h), key, value)
  {
    HasInAppended(heads, h, key);
  }

  lemma {:induction false} MergedKeepsValue(heads: seq<Head>, others: seq<Head>, key: seq<byte>, value: seq<byte>)
    requires OnlyValue(heads, key, value)
    ensures OnlyValue(Merged(heads, others), key, value)
  {
    if others != [] {
      MergedKeepsValue(heads, others[..|others| - 1], key, value);
      AddedValue(Merged(heads, others[..|others| - 1]), others[|others| - 1], key, value);
    }
  }

  lemma {:induction false} MergedValue(heads: seq<Head>, others: seq<Head>, i: nat)
    requires i < |others| && !Has(heads, others[i].key) && !Has(others[..i], others[i].key)
    ensures OnlyValue(Merged(heads, others), others[i].key, others[i].value)
  {
    var n := |others| - 1;
    if i == n {
      MergedCounts(heads, others[..n], others[i].key);
      AddedValue(Merged(heads, others[..n]), others[n], others[i].key, others[i].value);
    } else {
      assert others[..n][..i] == others[..i];
      MergedValue(heads, others[..n], i);
      AddedValue(Merged(heads, others[..n]), others[n], others[i].key, others[i].value);
    }
  }

  /**
   A prepared response has the heads it had, first; the keys it had, those of the session, Content-Length and
   Content-Type, and no others; and of those that it did not have, exactly one of each.
   */
  lemma PreparedKeys(heads: seq<Head>, size: nat, session: seq<Head>, key: seq<byte>)
    ensures heads <= Prepared(heads, size, session)
    ensures Has(Prepared(heads, size, session), key)
            <==> Has(heads, key) || Has(session, key) || key == Text("Content-Length") || key == Text("Content-Type")
    ensures CountOf(Prepared(heads, size, session), key)
            == if Has(heads, key) then CountOf(heads, key)
               else if Has(session, key) || key == Text("Content-Length") || key == Text("Content-Type") then 1 else 0
  {
    hide ToString, Added, Merged;
    var length, kind := Head(CONTENT_LENGTH, ToString(size)), Head(CONTENT_TYPE, TEXT_HTML);
    AddedCounts(heads, length, key);
    AddedCounts(Added(heads, length), kind, key);
    MergedCounts(Added(Added(heads, length), kind), session, key);
  }

  /**
   The values of the added heads: the size of the body in decimal, "text/html", and for every other key the first
   value that the session has for it.
   */
  lemma PreparedValues(heads: seq<Head>, size: nat, session: seq<Head>)
    ensures var prepared := Prepared(heads, size, session);
            && (!Has(heads, Text("Content-Length")) ==> OnlyValue(prepared, Text("Content-Length"), ToString(size)))
            && (!Has(heads, Text("Content-Type")) ==> OnlyValue(prepared, Text("Content-Type"), Text("text/html")))
            && (forall i :: 0 <= i < |session| && FirstOfSession(heads, session, i) ==>
                  OnlyValue(prepared, session[i].key, session[i].value))
  {
    hide ToString, OnlyValue, Added, Merged;
    var length, kind := Head(CONTENT_LENGTH, ToString(size)), Head(CONTENT_TYPE, TEXT_HTML);
    var two := Added(Added(heads, length), kind);
    KeysDiffer();
    if !Has(heads, CONTENT_LENGTH) {
      AddedValue(heads, length, length.key, length.value);
      AddedValue(Added(heads, length), kind, length.key, length.value);
      MergedKeepsValue(two, session, length.key, length.value);
    }
    if !Has(heads, CONTENT_TYPE) {
      AddedCounts(heads, length, CONTENT_TYPE);
      AddedValue(Added(heads, length), kind, kind.key, kind.value);
      MergedKeepsValue(two, session, kind.key, kind.value);
    }
    forall i | 0 <= i < |session| && FirstOfSession(heads, session, i)
      ensures OnlyValue(Prepared(heads, size, session), session[i].key, session[i].value)
    {
      AddedCounts(heads, length, session[i].key);
      AddedCounts(Added(heads, length), kind, session[i].key);
      MergedValue(two, session, i);
    }
  }

  lemma KeysDiffer()
    ensures CONTENT_LENGTH != CONTENT_TYPE
  {
    assert |CONTENT_LENGTH| == 14 && |CONTENT_TYPE| == 12;
  }

  /** The session's i-th head is its first with that key, and the response has none of its own. */
  ghost predicate FirstOfSession(heads: seq<Head>, session: seq<Head>, i: nat)
    requires i < |session|
  {
    && !Has(heads, session[i].key) && !Has(session[..i], session[i].key)
    && session[i].key != Text("Content-Length") && session[i].key != Text("Content-Type")
  }

  // ---------- The length that arrives ----------

  lemma {:induction false} PreparedLength(heads: seq<Head>, size: nat, session: seq<Head>)
    requires !Has(heads, CONTENT_LENGTH)
    ensures OnlyValue(Prepared(heads, size, session), CONTENT_LENGTH, ToString(size))
  {
    hide ToString, Prepared;
    PreparedValues(heads, size, session);
  }

  lemma LengthInAnyOrder(heads: seq<Head>, wire: seq<Head>, value: seq<byte>)
    requires OnlyValue(heads, CONTENT_LENGTH, value) && multiset(wire) == multiset(heads)
    ensures OnlyValue(wire, CONTENT_LENGTH, value)
  {
    var i :| 0 <= i < |heads| && heads[i].key == CONTENT_LENGTH;
    assert heads[i] in multiset(wire);
    var j :| 0 <= j < |wire| && wire[j] == heads[i];
    forall k | 0 <= k < |wire| && wire[k].key == CONTENT_LENGTH ensures wire[k].value == value {
      assert wire[k] in multiset(heads);
    }
  }

  // ---------- Responses that are sent ----------

  /**
   `r` declares no length, and `w` is `r` as it goes over the wire: with the heads that the session has added, in the
   order in which the container happens to iterate over them.
   */
  ghost predicate SentAs(r: Response, session: seq<Head>, w: Response) {
    && !Has(r.message.heads, CONTENT_LENGTH)
    && w.body == r.body && w.message.(heads := r.message.heads) == r.message
    && multiset(w.message.heads) == multiset(Prepared(r.message.heads, |r.body|, session))
  }

  /** Its declared length is right exactly if it can be written as a signed number of 64 bits, and a body made of it. */
  lemma {:induction false} SentDeclares(r: Response, session: seq<Head>, w: Response, env: Environment)
    requires SentAs(r, session, w) && LooksUp(env, w.message.heads)
    ensures Declares(w.message, |w.body|, env)
            <==> && |w.body| < 0x8000_0000_0000_0000
                 && (|w.body| <= 10 * 1024 * 1024 || env.canCreate(|w.body|))
  {
    hide ToString, Stoll, Prepared;
    var n := |r.body|;
    PreparedLength(r.message.heads, n, session);
    LengthInAnyOrder(Prepared(r.message.heads, n, session), w.message.heads, ToString(n));
    DecimalRoundTrip(n);
    assert env.length(w.message.heads) == LengthIn(ToString(n));
  }

  /**
   The responses `rs`, for which the application declares no length, go over the wire as `ws`, cut into `packets`, to
   a receiver that looks up the lengths.
   */
  ghost predicate AreSent(rs: seq<Response>, session: seq<Head>, ws: seq<Response>, packets: seq<seq<byte>>,
                          env: Environment)
  {
    && |ws| == |rs| && Concat(packets) == Stream(ws)
    && forall i :: 0 <= i < |rs| ==> SentAs(rs[i], session, ws[i]) && LooksUp(env, ws[i].message.heads)
  }

  /**
   Of responses for which the application declares no length, sent over a connection in packets of any kind, what is
   reported is exactly what was sent, if and only if each has start line and heads without LF and clean, and a body
   whose size can be written as a signed number of 64 bits and for which a body can be made.
   */
  lemma {:induction false} PreparedResponsesArrive(rs: seq<Response>, session: seq<Head>, ws: seq<Response>,
                                                   packets: seq<seq<byte>>, env: Environment)
    requires AreSent(rs, session, ws, packets, env)
    ensures FeedAll(RESET, packets, env) == Outcome(RESET, Reports(ws), Ok)
            <==> forall i :: 0 <= i < |ws| ==>
                   && OneLiners(ws[i].message) && Clean(ws[i].message)
                   && |ws[i].body| < 0x8000_0000_0000_0000
                   && (|ws[i].body| <= 10 * 1024 * 1024 || env.canCreate(|ws[i].body|))
  {
    hide FeedAll, Clean, OneLiners, SentAs, LooksUp, Declares;
    ConnectionDelivers(ws, packets, env);
    forall i | 0 <= i < |ws|
      ensures Declares(ws[i].message, |ws[i].body|, env)
              <==> && |ws[i].body| < 0x8000_0000_0000_0000
                   && (|ws[i].body| <= 10 * 1024 * 1024 || env.canCreate(|ws[i].body|))
    {
      SentDeclares(rs[i], session, ws[i], env);
    }
  }

  // ---------- Clean responses ----------

  predicate GoodHead(h: Head) {
    OneLine(HeadText(h)) && CleanHead(h)
  }

  predicate GoodHeads(heads: seq<Head>) {
    forall i :: 0 <= i < |heads| ==> GoodHead(heads[i])
  }

  /** No colon, CR or LF. */
  predicate Plain(text: seq<byte>) {
    forall i :: 0 <= i < |text| ==> text[i] != 58 && text[i] != CR && text[i] != LF
  }

  lemma PlainHead(h: Head)
    requires Plain(h.key) && Plain(h.value)
    ensures GoodHead(h)
  {
    forall i: nat | i < |h.key| ensures !OccursAt(HeadText(h), HEAD_SPLIT, i) {
      assert HeadText(h)[i] == h.key[i] != HEAD_SPLIT[0];
    }
    forall i: nat | i < |h.value| ensures !OccursAt(h.value, HEAD_SPLIT, i) {
      assert h.value[i] != HEAD_SPLIT[0];
    }
  }

  lemma {:induction false} MergedIsGood(heads: seq<Head>, others: seq<Head>)
    requires GoodHeads(heads) && GoodHeads(others)
    ensures GoodHeads(Merged(heads, others))
  {
    hide GoodHead;
    if others != [] {
      MergedIsGood(heads, others[..|others| - 1]);
    }
  }

  lemma PreparedIsGood(heads: seq<Head>, size: nat, session: seq<Head>)
    requires GoodHeads(heads) && GoodHeads(session)
    ensures GoodHeads(Prepared(heads, size, session))
  {
    hide GoodHead, ToString, Merged;
    AddedHeadsAreGood(size);
    MergedIsGood(Added(Added(heads, Head(CONTENT_LENGTH, ToString(size))), Head(CONTENT_TYPE, TEXT_HTML)), session);
  }

  lemma AddedHeadsAreGood(size: nat)
    ensures GoodHead(Head(CONTENT_LENGTH, ToString(size))) && GoodHead(Head(CONTENT_TYPE, TEXT_HTML))
  {
    hide GoodHead, ToString;
    assert forall i :: 0 <= i < |ToString(size)| ==> IsDigit(ToString(size)[i]);
    PlainHead(Head(CONTENT_LENGTH, ToString(size)));
    PlainHead(Head(CONTENT_TYPE, TEXT_HTML));
  }

  lemma GoodInAnyOrder(heads: seq<Head>, wire: seq<Head>)
    requires GoodHeads(heads) && multiset(wire) == multiset(heads)
    ensures GoodHeads(wire)
  {
    hide GoodHead;
    forall k | 0 <= k < |wire| ensures GoodHead(wire[k]) {
      assert wire[k] in multiset(heads);
    }
  }

  /** The application and the session have put nothing into the message that does not survive. */
  predicate Good(m: Message) {
    && OneLine(LineText(m)) && CleanField(m.version) && CleanField(m.statusCode) && CleanField(m.reason)
    && GoodHeads(m.heads)
  }

  /**
   Every connection on which the application sends good responses of at most 10 MB each, without a declared length,
   delivers them all, each exactly as it was sent.
   */
  lemma {:induction false} GoodResponsesArrive(rs: seq<Response>, session: seq<Head>, ws: seq<Response>,
                                               packets: seq<seq<byte>>, env: Environment)
    requires AreSent(rs, session, ws, packets, env) && GoodHeads(session)
    requires forall i :: 0 <= i < |rs| ==> Good(rs[i].message) && |rs[i].body| <= 10 * 1024 * 1024
    ensures FeedAll(RESET, packets, env) == Outcome(RESET, Reports(ws), Ok)
  {
    hide FeedAll, GoodHead, LooksUp, Prepared, OneLine, CleanField, HeadText, LineText, CleanHead;
    forall i | 0 <= i < |ws| ensures OneLiners(ws[i].message) && Clean(ws[i].message) {
      GoodIsClean(rs[i], session, ws[i]);
    }
    PreparedResponsesArrive(rs, session, ws, packets, env);
  }

  lemma {:induction false} GoodIsClean(r: Response, session: seq<Head>, w: Response)
    requires SentAs(r, session, w) && Good(r.message) && GoodHeads(session)
    ensures OneLiners(w.message) && Clean(w.message)
  {
    hide Prepared, OneLine, CleanField, HeadText, CleanHead;
    PreparedIsGood(r.message.heads, |r.body|, session);
    GoodInAnyOrder(Prepared(r.message.heads, |r.body|, session), w.message.heads);
    forall i | 0 <= i < |w.message.heads| ensures GoodHead(w.message.heads[i]) {}
  }

  // ---------- An example, byte for byte ----------

  const EXAMPLE: Message :=
    Message(Text("HTTP/1.1"), Text("200"), Text("OK"), [Head(Text("Content-Length"), Text("2"))])

  lemma ExampleText()
    ensures Serialize(EXAMPLE, Text("hi"))
            == Text("HTTP/1.1 200 OK\r\n") + Text("Content-Length: 2\r\n") + Text("\r\n") + Text("hi")
  {
    var h := EXAMPLE.heads[0];
    assert LineText(EXAMPLE) + CRLF == Text("HTTP/1.1 200 OK\r\n");
    assert HeadText(h) + CRLF == Text("Content-Length: 2\r\n");
    assert EXAMPLE.heads[1..] == [] && HeadsText(EXAMPLE.heads) == HeadText(h) + CRLF + [];
    assert CRLF == Text("\r\n");
  }

  lemma ExampleIsClean()
    ensures OneLiners(EXAMPLE) && Clean(EXAMPLE)
  {
    PlainHead(EXAMPLE.heads[0]);
  }

  lemma ExampleDeclares(env: Environment)
    requires LooksUp(env, EXAMPLE.heads)
    ensures Declares(EXAMPLE, 2, env)
  {
    hide Stoll;
    var two := Text("2");
    assert two == [50] && two[..0] == [];
    assert ValueOf(two) == 2;
    WhatIsRead([], [], two, []);
    assert [] + [] + two + [] == two;
    assert EXAMPLE.heads[0].key == CONTENT_LENGTH;
  }

  /** These bytes, in packets of any kind, are this response. */
  lemma ExampleArrives(packets: seq<seq<byte>>, env: Environment)
    requires Concat(packets)
             == Text("HTTP/1.1 200 OK\r\n") + Text("Content-Length: 2\r\n") + Text("\r\n") + Text("hi")
    requires LooksUp(env, [Head(Text("Content-Length"), Text("2"))])
    ensures var m := Message(Text("HTTP/1.1"), Text("200"), Text("OK"), [Head(Text("Content-Length"), Text("2"))]);
            FeedAll(RESET, packets, env) == Outcome(RESET, [HeadReceived(m), ResponseReceived(m, Text("hi"))], Ok)
  {
    hide FeedAll, Serialize, OneLiners, Clean, Declares, LooksUp;
    var rs := [Response(EXAMPLE, Text("hi"))];
    ExampleText();
    ExampleIsClean();
    ExampleDeclares(env);
    assert rs[1..] == [] && Stream(rs) == Serialize(EXAMPLE, Text("hi")) + [] == Serialize(EXAMPLE, Text("hi"));
    ConnectionDelivers(rs, packets, env);
    assert Reports(rs) == [HeadReceived(EXAMPLE), ResponseReceived(EXAMPLE, Text("hi"))] + [];
  }
}
