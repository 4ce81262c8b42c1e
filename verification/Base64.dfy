/**
 What encode_base64 and decode_base64 compute, as functions: the specification of the iterators of module
 Base64Iterators.  Encoding is the one of RFC 4648, section 4, stated on bits.  Decoding is what the C++ code
 does: '=' counts as six zero bits, so that a padded tail decodes to NUL bytes, and the result is copied
 through c_str(), which ends at the first NUL.
 */
module Base64 {
  import opened BitStrings
  import opened Bytes

  // ---------- The alphabet ----------

  /** The symbol of a 6-bit value. */
  function Symbol(v: nat): (c: char)
    requires v < 64
    ensures c != '='
  {
    if v < 26 then ('A' as int + v) as char
    else if v < 52 then ('a' as int + (v - 26)) as char
    else if v < 62 then ('0' as int + (v - 52)) as char
    else if v == 62 then '+' else '/'
  }

  /** The table of binary_from_base64: -1 stands for the exception it throws; '=' is listed as zero. */
  function Lookup(c: char): (v: int)
    ensures -1 <= v < 64
  {
    if 'A' <= c <= 'Z' then c as int - 'A' as int
    else if 'a' <= c <= 'z' then c as int - 'a' as int + 26
    else if '0' <= c <= '9' then c as int - '0' as int + 52
    else if c == '+' then 62
    else if c == '/' then 63
    else if c == '=' then 0
    else -1
  }

  /** The alphabet of RFC 4648, table 1. */
  const UPPER := "ABCDEFGHIJKLMNOPQRSTUVWXYZ"
  const LOWER := "abcdefghijklmnopqrstuvwxyz"
  const REST := "0123456789+/"
  const ALPHABET := UPPER + LOWER + REST

  lemma SymbolsAreTheAlphabet(v: nat)
    requires v < 64
    ensures |ALPHABET| == 64 && Symbol(v) == ALPHABET[v]
  {
    if v < 26 {
      assert Symbol(v) == UPPER[v];
    } else if v < 52 {
      assert Symbol(v) == LOWER[v - 26];
    } else {
      assert Symbol(v) == REST[v - 52];
    }
  }

  /** The table knows the symbols, each with its place in the alphabet, the padding symbol, and no other character. */
  lemma LookupIsTheAlphabet(c: char)
    ensures Lookup(c) >= 0 && c != '=' <==> c in ALPHABET
    ensures c in ALPHABET ==> ALPHABET[Lookup(c)] == c
    ensures Lookup('=') == 0
  {
    if c in ALPHABET {
      var v: nat :| v < 64 && ALPHABET[v] == c;
      SymbolsAreTheAlphabet(v);
      LookupOfSymbol(v);
    }
    if Lookup(c) >= 0 && c != '=' {
      SymbolOfLookup(c);
      SymbolsAreTheAlphabet(Lookup(c));
      assert ALPHABET[Lookup(c)] == c;
    }
  }

  lemma LookupOfSymbol(v: nat)
    requires v < 64
    ensures Lookup(Symbol(v)) == v
  {
  }

  lemma SymbolOfLookup(c: char)
    requires Lookup(c) >= 0 && c != '='
    ensures Symbol(Lookup(c)) == c
  {
  }

  function Symbols(xs: seq<nat>): (s: string)
    requires forall i :: 0 <= i < |xs| ==> xs[i] < 64
    ensures |s| == |xs|
  {
    seq(|xs|, i requires 0 <= i < |xs| => Symbol(xs[i]))
  }

  predicate Readable(s: string) {
    forall i :: 0 <= i < |s| ==> Lookup(s[i]) >= 0
  }

  function Looked(s: string): (xs: seq<nat>)
    requires Readable(s)
    ensures |xs| == |s| && forall i :: 0 <= i < |xs| ==> xs[i] < Pow2(6)
  {
    assert Pow2(6) == 64;
    seq(|s|, i requires 0 <= i < |s| => Lookup(s[i]))
  }

  function Octets(d: seq<byte>): (xs: seq<nat>)
    ensures |xs| == |d| && forall i :: 0 <= i < |xs| ==> xs[i] < Pow2(8)
  {
    assert Pow2(8) == 256;
    seq(|d|, i requires 0 <= i < |d| => d[i] as nat)
  }

  function FromOctets(xs: seq<nat>): (d: seq<byte>)
    requires forall i :: 0 <= i < |xs| ==> xs[i] < Pow2(8)
    ensures |d| == |xs| && Octets(d) == xs
  {
    assert Pow2(8) == 256;
    seq(|xs|, i requires 0 <= i < |xs| => xs[i] as byte)
  }

  // ---------- Encoding ----------

  /** Zero bits are appended to fill the last six. */
  function ZeroFill(b: seq<bool>): (f: seq<bool>)
    ensures |f| % 6 == 0
  {
    b + Zeros((6 - |b| % 6) % 6)
  }

  function Sextets(d: seq<byte>): (xs: seq<nat>)
    ensures forall i :: 0 <= i < |xs| ==> xs[i] < 64
  {
    assert Pow2(6) == 64;
    Group(ZeroFill(Flatten(Octets(d), 8)), 6)
  }

  function PadCount(n: nat): nat {
    (3 - n % 3) % 3
  }

  function Padding(n: nat): (s: string)
    ensures |s| == n
  {
    seq(n, _ => '=')
  }

  function Encode(d: seq<byte>): string {
    Symbols(Sextets(d)) + Padding(PadCount(|d|))
  }

  // ---------- Decoding ----------

  /** The bytes that the decoding iterator produces; bits left over at the end are dropped. */
  function Raw(s: string): seq<byte>
    requires Readable(s)
  {
    FromOctets(Group(Flatten(Looked(s), 6), 8))
  }

  /** What is left of a string of bytes that goes through c_str(). */
  function UntilNul(d: seq<byte>): seq<byte> {
    if d == [] || d[0] == 0 then [] else [d[0]] + UntilNul(d[1..])
  }

  lemma {:induction false} UntilNulMeans(d: seq<byte>)
    ensures var r := UntilNul(d);
            0 !in r && r <= d && (r == d <==> 0 !in d) && (r != d ==> d[|r|] == 0)
  {
    if d != [] && d[0] != 0 {
      UntilNulMeans(d[1..]);
      assert d == [d[0]] + d[1..];
    }
  }

  /** A symbol outside the table, or one symbol too many at the end, makes the code give up. */
  function Decode(s: string): seq<byte> {
    if !Readable(s) || |s| % 4 == 1 then [] else UntilNul(Raw(s))
  }

  // ---------- Lengths ----------

  /**
   `n` bytes become 4 * ceil(n / 3) symbols, of which the last (3 - n mod 3) mod 3 are the padding symbol and
   none before them is.
   */
  lemma EncodedLength(d: seq<byte>)
    ensures |Encode(d)| == 4 * ((|d| + 2) / 3)
    ensures forall i :: 0 <= i < |Encode(d)| ==> (Encode(d)[i] == '=' <==> i >= |Encode(d)| - PadCount(|d|))
  {
    hide Flatten, Group, Bits, Value, Pow2;
    FlattenLength(Octets(d), 8);
    GroupLength(ZeroFill(Flatten(Octets(d), 8)), 6);
    SextetCount(|d|);
  }

  lemma RemainderOf3(n: nat, q: nat, r: nat)
    requires n == 3 * q + r && r < 3
    ensures n % 3 == r
  {
  }

  lemma RemainderOf6(n: nat, q: nat, r: nat)
    requires n == 6 * q + r && r < 6
    ensures n % 6 == r
  {
  }

  lemma Remainders(octets: nat, groups: nat, over: nat)
    requires octets == 3 * groups + over && over < 3
    ensures octets % 3 == over && 8 * octets % 6 == 2 * over
  {
    RemainderOf3(octets, groups, over);
    RemainderOf6(8 * octets, 4 * groups + over, 2 * over);
  }

  lemma SextetCount(n: nat)
    ensures (8 * n + (6 - 8 * n % 6) % 6) / 6 + PadCount(n) == 4 * ((n + 2) / 3)
  {
    var q, r := n / 3, n % 3;
    Remainders(n, q, r);
    if r > 0 {
      assert 8 * n + (6 - 2 * r) == 6 * (4 * q + r + 1);
      assert n + 2 == 3 * (q + 1) + (r - 1);
    }
  }

  // ---------- What decoding makes of an encoding ----------

  function Repeat<T>(x: T, n: nat): (s: seq<T>)
    ensures |s| == n && forall i :: 0 <= i < n ==> s[i] == x
  {
    seq(n, _ => x)
  }

  lemma {:induction false} FlattenZeros(n: nat, w: nat)
    requires w == 6 || w == 8
    ensures Flatten(Repeat<nat>(0, n), w) == Zeros(if w == 6 then 6 * n else 8 * n)
  {
    if n > 0 {
      FlattenZeros(n - 1, w);
      assert Repeat<nat>(0, n)[..n - 1] == Repeat<nat>(0, n - 1);
      BitsOfZero(w);
    }
  }

  lemma SextetsAreTheBits(d: seq<byte>)
    ensures Flatten(Sextets(d), 6) == ZeroFill(Flatten(Octets(d), 8))
    ensures |Flatten(Octets(d), 8)| == 8 * |d|
  {
    hide Flatten, Group, Bits, Value, Pow2, Octets, ZeroFill;
    var b := ZeroFill(Flatten(Octets(d), 8));
    FlattenOfGroup(b, 6);
    FlattenLength(Octets(d), 8);
    FlattenLength(Group(b, 6), 6);
    NoneLeft(|b|, |Group(b, 6)|);
  }

  lemma NoneLeft(n: nat, k: nat)
    requires 6 * k <= n < 6 * k + 6 && n % 6 == 0
    ensures n == 6 * k
  {
    assert n == 6 * (n / 6);
  }

  lemma LookedOfEncode(d: seq<byte>)
    ensures Readable(Encode(d)) && Looked(Encode(d)) == Sextets(d) + Repeat(0, PadCount(|d|))
  {
    var s, xs := Encode(d), Sextets(d) + Repeat(0, PadCount(|d|));
    forall i | 0 <= i < |s| ensures Lookup(s[i]) == xs[i] {
      if i < |Sextets(d)| {
        LookupOfSymbol(xs[i]);
      }
    }
  }

  /** The decoding iterator returns the bytes encoded, followed by one NUL for each padding symbol. */
  lemma RawOfEncode(d: seq<byte>)
    ensures Readable(Encode(d)) && Raw(Encode(d)) == d + Repeat(0, PadCount(|d|))
  {
    hide Flatten, Group, Bits, Value, Pow2, Encode, Sextets, ZeroFill, PadCount, Looked, Octets;
    var p, bits := PadCount(|d|), Flatten(Octets(d), 8);
    LookedOfEncode(d);
    SextetsAreTheBits(d);
    PadBits(bits, |d|);
    FlattenConcat(Sextets(d), Repeat(0, p), 6);
    FlattenZeros(p, 6);
    ZerosAfter(bits, p);
    FlattenZeros(p, 8);
    FlattenConcat(Octets(d), Repeat(0, p), 8);
    PaddedOctets(d, p);
    GroupOfFlatten(Octets(d + Repeat(0, p)), [], 8);
    OctetsInjective(Raw(Encode(d)), d + Repeat(0, p));
  }

  lemma ZerosAfter(bits: seq<bool>, p: nat)
    ensures bits + Zeros(2 * p) + Zeros(6 * p) == bits + Zeros(8 * p) == bits + Zeros(8 * p) + []
  {
  }

  lemma PaddedOctets(d: seq<byte>, p: nat)
    ensures Octets(d + Repeat(0, p)) == Octets(d) + Repeat(0, p)
  {
  }

  lemma OctetsInjective(a: seq<byte>, b: seq<byte>)
    requires Octets(a) == Octets(b)
    ensures a == b
  {
    forall i | 0 <= i < |a| ensures a[i] == b[i] {
      assert Octets(a)[i] == a[i] as nat && Octets(b)[i] == b[i] as nat;
    }
  }

  lemma {:induction false} UntilNulOfPadded(d: seq<byte>, n: nat)
    ensures UntilNul(d + Repeat(0, n)) == UntilNul(d)
  {
    if d == [] {
      assert d + Repeat(0, n) == Repeat(0, n);
    } else {
      UntilNulOfPadded(d[1..], n);
      assert (d + Repeat(0, n))[1..] == d[1..] + Repeat(0, n);
    }
  }

  /** Decoding an encoding gives the bytes up to the first NUL. */
  lemma DecodeOfEncode(d: seq<byte>)
    ensures Decode(Encode(d)) == UntilNul(d)
  {
    hide UntilNul, Raw, Encode;
    EncodedLength(d);
    RawOfEncode(d);
    UntilNulOfPadded(d, PadCount(|d|));
  }

  /** The round trip holds exactly for the byte strings without a NUL. */
  lemma RoundTrip(d: seq<byte>)
    ensures Decode(Encode(d)) == d <==> 0 !in d
  {
    DecodeOfEncode(d);
    UntilNulMeans(d);
  }

  lemma RoundTripFails()
    ensures Decode(Encode([65, 0, 66])) == [65] != [65, 0, 66]
  {
    DecodeOfEncode([65, 0, 66]);
    assert UntilNul([65, 0, 66]) == [65] + UntilNul([0, 66]);
  }

  // ---------- Canonical strings ----------

  /** The number of padding symbols at the end, at most two. */
  function Pads(s: string): nat {
    if |s| >= 1 && s[|s| - 1] == '=' then (if |s| >= 2 && s[|s| - 2] == '=' then 2 else 1) else 0
  }

  function Body(s: string): string {
    s[..|s| - Pads(s)]
  }

  /** Whole groups of four, padding only at the end, and nothing in the bits that the padding leaves unused. */
  predicate Canonical(s: string) {
    && |s| % 4 == 0
    && Readable(Body(s)) && '=' !in Body(s)
    && (var b := Flatten(Looked(Body(s)), 6); 2 * Pads(s) <= |b| && b[|b| - 2 * Pads(s)..] == Zeros(2 * Pads(s)))
  }

  /** The bytes of a padded string, as a decoder of RFC 4648, section 4, recovers them. */
  function Payload(s: string): seq<byte>
    requires Readable(Body(s))
  {
    Raw(Body(s))
  }

  lemma BodyOfEncode(d: seq<byte>)
    ensures Pads(Encode(d)) == PadCount(|d|) && Body(Encode(d)) == Symbols(Sextets(d))
    ensures Readable(Body(Encode(d))) && '=' !in Body(Encode(d)) && Looked(Body(Encode(d))) == Sextets(d)
  {
    hide Sextets, Pow2;
    EncodedLength(d);
    LookedOfEncode(d);
    assert Body(Encode(d)) == Symbols(Sextets(d));
    assert forall i :: 0 <= i < |Sextets(d)| ==> Looked(Encode(d))[i] == Lookup(Body(Encode(d))[i]);
  }

  /** Every encoding is canonical, and recovers the bytes, whatever they are and however many. */
  lemma EncodeIsCanonical(d: seq<byte>)
    ensures Canonical(Encode(d)) && Payload(Encode(d)) == d
  {
    hide Flatten, Group, Bits, Value, Pow2, Encode, Pads, Body, Symbols, Looked, Sextets, Octets, PadCount, ZeroFill;
    var bits := Flatten(Octets(d), 8);
    EncodedLength(d);
    BodyOfEncode(d);
    SextetsAreTheBits(d);
    PadBits(bits, |d|);
    GroupOfFlatten(Octets(d), Zeros(2 * PadCount(|d|)), 8);
    OctetsInjective(Raw(Body(Encode(d))), d);
  }

  /** Each padding symbol goes with two bits of zero filling. */
  lemma PadBits(bits: seq<bool>, n: nat)
    requires |bits| == 8 * n
    ensures PadCount(n) <= 2 && ZeroFill(bits) == bits + Zeros(2 * PadCount(n))
  {
    Remainders(n, n / 3, n % 3);
  }

  lemma PadArithmetic(n: nat, p: nat, bits: nat, octets: nat)
    requires n % 4 == 0 && p <= 2 && p <= n && bits == 6 * (n - p) && 8 * octets <= bits < 8 * octets + 8
    ensures bits == 8 * octets + 2 * p && (6 - 8 * octets % 6) % 6 == 2 * p && PadCount(octets) == p
  {
    var groups := n / 4;
    assert n == 4 * groups && octets == 3 * groups - p;
    if p == 0 {
      Remainders(octets, groups, 0);
    } else {
      Remainders(octets, groups - 1, 3 - p);
    }
  }

  lemma SextetsOfCanonical(s: string)
    requires Canonical(s)
    ensures Sextets(Raw(Body(s))) == Looked(Body(s)) && PadCount(|Raw(Body(s))|) == Pads(s)
  {
    hide Flatten, Group, Bits, Value, Pow2, Octets, Looked, PadCount;
    var xs, d := Looked(Body(s)), Raw(Body(s));
    var bits, kept := Flatten(xs, 6), Flatten(Octets(d), 8);
    FlattenLength(xs, 6);
    FlattenLength(Octets(d), 8);
    FlattenOfGroup(bits, 8);
    PadArithmetic(|s|, Pads(s), |bits|, |d|);
    assert bits == kept + Zeros(2 * Pads(s));
    assert bits + [] == bits;
    GroupOfFlatten(xs, [], 6);
  }

  /** Every canonical string is the encoding of its bytes. */
  lemma CanonicalIsEncoded(s: string)
    requires Canonical(s)
    ensures Encode(Payload(s)) == s
  {
    hide Sextets, Raw, Symbols, Looked, Body, Pads, Padding, PadCount;
    SextetsOfCanonical(s);
    SymbolsOfLooked(Body(s));
    BodyAndPadding(s);
  }

  lemma SymbolsOfLooked(s: string)
    requires Readable(s) && '=' !in s
    ensures (forall i :: 0 <= i < |s| ==> Looked(s)[i] < 64) && Symbols(Looked(s)) == s
  {
    assert Pow2(6) == 64;
    hide Symbol, Lookup;
    forall i | 0 <= i < |s| ensures Symbol(Looked(s)[i]) == s[i] {
      SymbolOfLookup(s[i]);
    }
  }

  lemma BodyAndPadding(s: string)
    ensures s == Body(s) + Padding(Pads(s))
  {
  }

  /** An encoding whose padding has been left out is decoded like the whole one. */
  lemma DecodeOfUnpadded(d: seq<byte>)
    ensures Decode(Body(Encode(d))) == UntilNul(d)
    ensures |Body(Encode(d))| % 4 == if |d| % 3 == 0 then 0 else |d| % 3 + 1
  {
    hide Encode, Body, Raw, UntilNul;
    EncodeIsCanonical(d);
    BodyOfEncode(d);
    EncodedLength(d);
    UnpaddedLength(d);
  }

  lemma UnpaddedLength(d: seq<byte>)
    ensures |Body(Encode(d))| == |Encode(d)| - PadCount(|d|)
    ensures |Body(Encode(d))| % 4 == if |d| % 3 == 0 then 0 else |d| % 3 + 1
  {
    hide Encode;
    BodyOfEncode(d);
    EncodedLength(d);
    ThirdsRoundedUp(|d|);
  }

  lemma ThirdsRoundedUp(n: nat)
    ensures (4 * ((n + 2) / 3) - PadCount(n)) % 4 == if n % 3 == 0 then 0 else n % 3 + 1
  {
    var q, r := n / 3, n % 3;
    RemainderOf3(n, q, r);
    if r == 0 {
      assert (n + 2) / 3 == q;
    } else {
      assert n + 2 == 3 * (q + 1) + (r - 1);
      assert (n + 2) / 3 == q + 1 && PadCount(n) == 3 - r;
      assert 4 * (q + 1) - (3 - r) == 4 * q + (r + 1);
    }
  }

  /** What the decoder reads: of the bits of the symbols, padding counting as zero, as many whole bytes as there are. */
  lemma RawIsTheBits(s: string)
    requires Readable(s)
    ensures |Raw(s)| == 6 * |s| / 8
    ensures Flatten(Octets(Raw(s)), 8) <= Flatten(Looked(s), 6)
  {
    hide Flatten, Group, Bits, Value, Pow2;
    FlattenLength(Looked(s), 6);
    FlattenOfGroup(Flatten(Looked(s), 6), 8);
    GroupLength(Flatten(Looked(s), 6), 8);
  }

  /** On canonical strings, decode_base64 recovers the bytes up to the first NUL. */
  lemma DecodeOfCanonical(s: string)
    requires Canonical(s)
    ensures Decode(s) == UntilNul(Payload(s))
  {
    CanonicalIsEncoded(s);
    DecodeOfEncode(Payload(s));
  }

  /** Encoding undoes decoding exactly on the canonical strings whose bytes contain no NUL. */
  lemma EncodeOfDecode(s: string)
    ensures Encode(Decode(s)) == s <==> Canonical(s) && 0 !in Payload(s)
  {
    if Canonical(s) {
      CanonicalIsEncoded(s);
      DecodeOfEncode(Payload(s));
      UntilNulMeans(Payload(s));
    }
    if Encode(Decode(s)) == s {
      EncodeIsCanonical(Decode(s));
      if Readable(s) {
        UntilNulMeans(Raw(s));
      }
    }
  }

  /** Encoding is a bijection from the byte strings onto the canonical strings. */
  lemma Bijection(d: seq<byte>, e: seq<byte>, s: string)
    ensures Encode(d) == Encode(e) ==> d == e
    ensures Canonical(s) <==> exists x :: Encode(x) == s
  {
    EncodeIsCanonical(d);
    EncodeIsCanonical(e);
    if Canonical(s) {
      CanonicalIsEncoded(s);
    }
    forall x | Encode(x) == s ensures Canonical(s) {
      EncodeIsCanonical(x);
    }
  }

  // ---------- Concatenation ----------

  lemma ZeroFillOfConcat(a: seq<bool>, b: seq<bool>)
    requires |a| % 6 == 0
    ensures ZeroFill(a + b) == a + ZeroFill(b) && ZeroFill(a) == a
  {
    assert |a + b| % 6 == |b| % 6;
  }

  lemma OctetsConcat(a: seq<byte>, b: seq<byte>)
    ensures Octets(a + b) == Octets(a) + Octets(b)
  {
  }

  lemma WholeGroups(n: nat)
    requires n % 3 == 0
    ensures 8 * n % 6 == 0
  {
    RemainderOf6(8 * n, 4 * (n / 3), 0);
  }

  lemma SextetsConcat(a: seq<byte>, b: seq<byte>)
    requires |a| % 3 == 0
    ensures Sextets(a + b) == Sextets(a) + Sextets(b)
  {
    hide Flatten, Group, Bits, Value, Pow2, ZeroFill, Octets;
    var fa, fb := Flatten(Octets(a), 8), Flatten(Octets(b), 8);
    FlattenConcat(Octets(a), Octets(b), 8);
    OctetsConcat(a, b);
    SextetsAreTheBits(a);
    WholeGroups(|a|);
    ZeroFillOfConcat(fa, fb);
    GroupConcat(Sextets(a), ZeroFill(fb), 6);
  }

  /** Whole groups of three bytes encode independently of what follows. */
  lemma EncodeConcat(a: seq<byte>, b: seq<byte>)
    requires |a| % 3 == 0
    ensures Encode(a + b) == Encode(a) + Encode(b)
  {
    hide Sextets;
    SextetsConcat(a, b);
    assert PadCount(|a + b|) == PadCount(|b|) && Padding(PadCount(|a|)) == [];
  }

  /** Canonical strings can be put together after one without padding, and the bytes with them. */
  lemma CanonicalConcat(s: string, t: string)
    requires Canonical(s) && Pads(s) == 0 && Canonical(t)
    ensures Canonical(s + t) && Payload(s + t) == Payload(s) + Payload(t)
  {
    hide Encode, Raw, Body, Pads, Flatten, Looked, Readable;
    var a, b := Payload(s), Payload(t);
    CanonicalIsEncoded(s);
    CanonicalIsEncoded(t);
    SextetsOfCanonical(s);
    EncodeConcat(a, b);
    EncodeIsCanonical(a + b);
  }

  /**
   Whole groups of four symbols decode independently of what follows, unless they contain a NUL, or what follows
   makes the decoder give up on everything.
   */
  lemma DecodeConcat(s: string, t: string)
    requires |s| % 4 == 0
    ensures Decode(s + t) == if !Readable(s) || !Readable(t) || |t| % 4 == 1 then []
                             else if 0 in Raw(s) then Decode(s)
                             else Decode(s) + Decode(t)
  {
    hide Raw, UntilNul;
    assert Readable(s + t) <==> Readable(s) && Readable(t) by {
      assert (s + t)[..|s|] == s && (s + t)[|s|..] == t;
    }
    assert |s + t| == 4 * (|s| / 4) + |t|;
    if Readable(s) && Readable(t) && |t| % 4 != 1 {
      RawConcat(s, t);
      UntilNulOfConcat(Raw(s), Raw(t));
      UntilNulMeans(Raw(s));
    }
  }

  lemma RawConcat(s: string, t: string)
    requires |s| % 4 == 0 && Readable(s) && Readable(t) && Readable(s + t)
    ensures Raw(s + t) == Raw(s) + Raw(t)
  {
    hide Flatten, Group, Bits, Value, Pow2;
    var fs, ft := Flatten(Looked(s), 6), Flatten(Looked(t), 6);
    FlattenConcat(Looked(s), Looked(t), 6);
    assert Looked(s + t) == Looked(s) + Looked(t);
    FlattenLength(Looked(s), 6);
    FlattenOfGroup(fs, 8);
    FlattenLength(Group(fs, 8), 8);
    GroupConcat(Group(fs, 8), ft, 8);
    assert Octets(Raw(s) + Raw(t)) == Octets(Raw(s)) + Octets(Raw(t));
    assert fs + ft == Flatten(Looked(s + t), 6) && Flatten(Group(fs, 8), 8) == fs;
    OctetsInjective(Raw(s + t), Raw(s) + Raw(t));
  }

  lemma {:induction false} UntilNulOfConcat(d: seq<byte>, e: seq<byte>)
    ensures UntilNul(d + e) == if 0 in d then UntilNul(d) else d + UntilNul(e)
  {
    if d == [] {
      assert d + e == e && [] + UntilNul(e) == UntilNul(e);
    } else {
      var d1 := d[1..];
      UntilNulOfConcat(d1, e);
      assert (d + e)[1..] == d1 + e;
      assert 0 in d <==> d[0] == 0 || 0 in d1 by { assert d == [d[0]] + d1; }
      assert [d[0]] + (d1 + UntilNul(e)) == d + UntilNul(e);
    }
  }
}
