/**
 Base64 by blocks, with the arithmetic on bytes: three bytes become four symbols, and a last block of one or two
 bytes is padded.  This is the form in which RFC 4648, section 4, describes the encoding; it is proved equal to
 the one on bits.
 */
module Base64Blocks {
  import opened Base64
  import opened BitStrings
  import opened Bytes

  /** The values of the symbols for a block of one, two or three bytes. */
  function Block(d: seq<byte>): (xs: seq<nat>)
    requires 1 <= |d| <= 3
    ensures forall i :: 0 <= i < |xs| ==> xs[i] < 64
  {
    var a := d[0] as nat;
    if |d| == 1 then [a / 4, a % 4 * 16] else
    var b := d[1] as nat;
    if |d| == 2 then [a / 4, a % 4 * 16 + b / 16, b % 16 * 4] else
    var c := d[2] as nat;
    [a / 4, a % 4 * 16 + b / 16, b % 16 * 4 + c / 64, c % 64]
  }

  function EncodeByBlocks(d: seq<byte>): string {
    if d == [] then ""
    else if |d| < 3 then Symbols(Block(d)) + Padding(3 - |d|)
    else Symbols(Block(d[..3])) + EncodeByBlocks(d[3..])
  }

  lemma ShlTwice(q: nat, k: nat)
    requires k >= 2
    ensures Shl(q, k) == 4 * Shl(q, k - 2)
  {
    assert Shl(q, k) == 2 * Shl(q, k - 1);
  }

  lemma TwoParts(q: nat, w: nat, r: nat, k: nat)
    requires k == 2 || k == 4 || k == 6
    requires r < if k == 2 then 4 else if k == 4 then 16 else 64
    ensures Bits((if k == 2 then 4 else if k == 4 then 16 else 64) * q + r, w + k) == Bits(q, w) + Bits(r, k)
  {
    assert Pow2(2) == 4 && Pow2(4) == 16 && Pow2(6) == 64;
    ShlTwice(q, 2);
    ShlTwice(q, 4);
    ShlTwice(q, 6);
    assert Shl(q, 0) == q;
    ShlAppends(q, w, r, k);
  }

  /** The three ways in which a byte is divided between two symbols. */
  lemma ByteParts(b: nat)
    ensures Bits(b, 8) == Bits(b / 4, 6) + Bits(b % 4, 2)
    ensures Bits(b, 8) == Bits(b / 16, 4) + Bits(b % 16, 4)
    ensures Bits(b, 8) == Bits(b / 64, 2) + Bits(b % 64, 6)
  {
    hide Bits;
    TwoParts(b / 4, 6, b % 4, 2);
    TwoParts(b / 16, 4, b % 16, 4);
    TwoParts(b / 64, 2, b % 64, 6);
  }

  /** The two ways in which a symbol is made of parts of two bytes. */
  lemma SymbolParts(q: nat, r: nat)
    ensures r < 16 ==> Bits(q * 16 + r, 6) == Bits(q, 2) + Bits(r, 4)
    ensures r < 4 ==> Bits(q * 4 + r, 6) == Bits(q, 4) + Bits(r, 2)
  {
    hide Bits;
    if r < 16 {
      TwoParts(q, 2, r, 4);
    }
    if r < 4 {
      TwoParts(q, 4, r, 2);
    }
  }

  lemma OneByte(d: seq<byte>)
    requires |d| == 1
    ensures Flatten(Block(d), 6) == Flatten(Octets(d), 8) + Zeros(4)
  {
    hide Bits, Flatten, Zeros;
    var a := d[0] as nat;
    var p, q := a / 4, a % 4;
    assert Octets(d) == [a] && Block(d) == [p] + [q * 16];
    ByteParts(a);
    SymbolParts(q, 0);
    FlattenOne(a, 8);
    FlattenOne(p, 6);
    FlattenSnoc([p], q * 16, 6);
    BitsOfZero(4);
  }

  lemma TwoBytes(d: seq<byte>)
    requires |d| == 2
    ensures Flatten(Block(d), 6) == Flatten(Octets(d), 8) + Zeros(2)
  {
    hide Bits, Flatten, Zeros;
    var a, b := d[0] as nat, d[1] as nat;
    var p, q, r, s := a / 4, a % 4, b / 16, b % 16;
    assert Octets(d) == [a] + [b] && Block(d) == [p] + [q * 16 + r] + [s * 4];
    ByteParts(a);
    ByteParts(b);
    SymbolParts(q, r);
    SymbolParts(s, 0);
    FlattenOne(a, 8);
    FlattenSnoc([a], b, 8);
    FlattenOne(p, 6);
    FlattenSnoc([p], q * 16 + r, 6);
    FlattenSnoc([p] + [q * 16 + r], s * 4, 6);
    BitsOfZero(2);
    Regroup(Bits(p, 6), Bits(q, 2), Bits(r, 4), Bits(s, 4), Zeros(2), []);
  }

  lemma ThreeBytes(d: seq<byte>)
    requires |d| == 3
    ensures Flatten(Block(d), 6) == Flatten(Octets(d), 8) + Zeros(0)
  {
    hide Bits, Flatten, Zeros;
    var a, b, c := d[0] as nat, d[1] as nat, d[2] as nat;
    var p, q, r, s, t, u := a / 4, a % 4, b / 16, b % 16, c / 64, c % 64;
    assert t < 4;
    assert Octets(d) == [a] + [b] + [c] && Block(d) == [p] + [q * 16 + r] + [s * 4 + t] + [u];
    ByteParts(a);
    ByteParts(b);
    ByteParts(c);
    SymbolParts(q, r);
    SymbolParts(s, t);
    FlattenOne(a, 8);
    FlattenSnoc([a], b, 8);
    FlattenSnoc([a] + [b], c, 8);
    FlattenOne(p, 6);
    FlattenSnoc([p], q * 16 + r, 6);
    FlattenSnoc([p] + [q * 16 + r], s * 4 + t, 6);
    FlattenSnoc([p] + [q * 16 + r] + [s * 4 + t], u, 6);
    Regroup(Bits(p, 6), Bits(q, 2), Bits(r, 4), Bits(s, 4), Bits(t, 2), Bits(u, 6));
  }

  lemma Regroup(p: seq<bool>, q: seq<bool>, r: seq<bool>, s: seq<bool>, t: seq<bool>, u: seq<bool>)
    ensures p + (q + r) + (s + t) + u == (p + q) + (r + s) + (t + u) + Zeros(0)
  {
  }

  /** The bits of the block's symbols are those of its bytes, zero-filled. */
  lemma BlockBits(d: seq<byte>)
    requires 1 <= |d| <= 3
    ensures Flatten(Block(d), 6) == Flatten(Octets(d), 8) + Zeros(2 * (3 - |d|))
  {
    if |d| == 1 {
      OneByte(d);
    } else if |d| == 2 {
      TwoBytes(d);
    } else {
      ThreeBytes(d);
    }
  }

  lemma BlockSextets(d: seq<byte>)
    requires 1 <= |d| <= 3
    ensures Sextets(d) == Block(d)
  {
    hide Flatten, Group, Bits, Block;
    assert Pow2(6) == 64;
    BlockBits(d);
    FlattenLength(Octets(d), 8);
    GroupOfFlatten(Block(d), [], 6);
    assert ZeroFill(Flatten(Octets(d), 8)) == Flatten(Block(d), 6) + [];
  }

  /** Encoding by blocks is encoding. */
  lemma {:induction false} BlocksAreBits(d: seq<byte>)
    ensures EncodeByBlocks(d) == Encode(d)
  {
    hide Encode, Block, Symbols;
    if d == [] {
      EncodedLength(d);
    } else if |d| < 3 {
      EncodeBlock(d);
    } else {
      BlocksAreBits(d[3..]);
      assert d == d[..3] + d[3..];
      EncodeConcat(d[..3], d[3..]);
      EncodeBlock(d[..3]);
    }
  }

  lemma EncodeBlock(d: seq<byte>)
    requires 1 <= |d| <= 3
    ensures Encode(d) == Symbols(Block(d)) + Padding(3 - |d|)
  {
    hide Sextets, Block;
    BlockSextets(d);
  }

  // ---------- The values that the unit tests expect ----------

  lemma EncodeNext(a: byte, b: byte, c: byte, rest: seq<byte>)
    ensures Encode([a, b, c] + rest)
            == [Symbol(a as nat / 4), Symbol(a as nat % 4 * 16 + b as nat / 16),
                Symbol(b as nat % 16 * 4 + c as nat / 64), Symbol(c as nat % 64)] + Encode(rest)
  {
    hide Encode;
    var d := [a, b, c] + rest;
    BlocksAreBits(d);
    BlocksAreBits(rest);
    assert d[..3] == [a, b, c] && d[3..] == rest;
  }

  lemma EncodeLast(a: byte, b: byte)
    ensures Encode([a]) == [Symbol(a as nat / 4), Symbol(a as nat % 4 * 16), '=', '=']
    ensures Encode([a, b])
            == [Symbol(a as nat / 4), Symbol(a as nat % 4 * 16 + b as nat / 16), Symbol(b as nat % 16 * 4), '=']
  {
    hide Encode;
    BlocksAreBits([a]);
    BlocksAreBits([a, b]);
  }

  /** The arguments of the tests, as bytes. */
  const THREE_EQUALS: seq<byte> := [61, 61, 61]
  const FOUR_ZEROS: seq<byte> := [48, 48, 48, 48]
  const TEST_BASE64: seq<byte> := [116, 101, 115, 116, 32, 98, 97, 115, 101, 54, 52]

  function Ones(n: nat): (d: seq<byte>)
    ensures |d| == 3 * n
  {
    if n == 0 then [] else [49, 49, 49] + Ones(n - 1)
  }

  function OnesEncoded(n: nat): string {
    if n == 0 then "" else "MTEx" + OnesEncoded(n - 1)
  }

  lemma EncodeTests()
    ensures Encode([]) == ""
    ensures Encode(THREE_EQUALS) == "PT09"
    ensures Encode(FOUR_ZEROS) == "MDAwMA=="
    ensures Encode(TEST_BASE64) == "dGVzdCBiYXNlNjQ="
  {
    hide Encode;
    EncodedLength([]);
    EncodeNext(61, 61, 61, []);
    assert [61, 61, 61] + [] == THREE_EQUALS;
    EncodeNext(48, 48, 48, [48]);
    EncodeLast(48, 0);
    assert [48, 48, 48] + [48] == FOUR_ZEROS;
    EncodeNext(116, 101, 115, [116, 32, 98, 97, 115, 101, 54, 52]);
    EncodeNext(116, 32, 98, [97, 115, 101, 54, 52]);
    EncodeNext(97, 115, 101, [54, 52]);
    EncodeLast(54, 52);
    assert [116, 101, 115] + [116, 32, 98, 97, 115, 101, 54, 52] == TEST_BASE64;
    assert [116, 32, 98] + [97, 115, 101, 54, 52] == [116, 32, 98, 97, 115, 101, 54, 52];
    assert [97, 115, 101] + [54, 52] == [97, 115, 101, 54, 52];
  }

  /** For n == 11, the last of the tests. */
  lemma {:induction false} OnesTest(n: nat)
    ensures Encode(Ones(n)) == OnesEncoded(n) && 0 !in Ones(n) && Decode(OnesEncoded(n)) == Ones(n)
  {
    hide Encode, Decode;
    if n == 0 {
      EncodedLength([]);
    } else {
      OnesTest(n - 1);
      EncodeNext(49, 49, 49, Ones(n - 1));
      assert Encode(Ones(n)) == OnesEncoded(n);
    }
    RoundTrip(Ones(n));
  }

  lemma DecodeTests()
    ensures Decode("") == [] && Decode("\t\n") == []
    ensures Decode("PT09") == THREE_EQUALS
    ensures Decode("dGVzdCBiYXNlNjQ=") == TEST_BASE64
  {
    hide Encode, Decode;
    EncodeTests();
    RoundTrip([]);
    RoundTrip(THREE_EQUALS);
    RoundTrip(TEST_BASE64);
    Whitespace();
  }

  lemma Whitespace()
    ensures Decode("\t\n") == []
  {
    assert Lookup("\t\n"[0]) == -1;
  }
}
