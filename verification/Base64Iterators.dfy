/**
 encode_base64 and decode_base64 as the C++ code computes them: by copying through Boost's iterator adaptors
 transform_width, base64_from_binary and binary_from_base64.  The adaptors are not part of the repository; the
 class below has the fields and the branches of transform_width.
 */
module Base64Iterators {
  import opened Base64
  import opened BitStrings
  import opened Bytes

  /** Dereferencing may throw, or may run over the end of the sequence. */
  datatype Fault = Fine | InvalidSymbol | PastEnd

  function Nats(xs: seq<int>): (ns: seq<nat>)
    requires forall i :: 0 <= i < |xs| ==> xs[i] >= 0
    ensures |ns| == |xs| && forall i :: 0 <= i < |xs| ==> ns[i] == xs[i]
  {
    xs
  }

  /** transform_width<Base, BitsOut, BitsIn>, from `base` to the end of `base`. */
  class TransformWidth {
    const bitsOut: nat
    const bitsIn: nat
    /** The values that dereferencing the base iterator gives; a negative one stands for an exception. */
    const base: seq<int>
    var position: nat
    var bufferIn: nat
    var remainingBits: nat
    var bufferOut: nat
    var bufferOutFull: bool
    var endOfSequence: bool

    ghost predicate Valid()
      reads this
    {
      && 0 < bitsOut && 0 < bitsIn && position <= |base| && remainingBits < bitsIn
      && (endOfSequence ==> position == |base|)
    }

    constructor (bitsOut: nat, bitsIn: nat, base: seq<int>)
      requires bitsOut > 0 && bitsIn > 0
      ensures Valid() && this.bitsOut == bitsOut && this.bitsIn == bitsIn && this.base == base
      ensures position == 0 && remainingBits == 0 && !endOfSequence && !bufferOutFull
    {
      this.bitsOut, this.bitsIn, this.base := bitsOut, bitsIn, base;
      position, bufferIn, remainingBits, bufferOut := 0, 0, 0, 0;
      bufferOutFull, endOfSequence := false, false;
    }

    /** Comparison with the end iterator: bits left over are discarded when widening, zero-filled when narrowing. */
    method AtEnd() returns (end: bool)
      requires Valid()
      modifies this`endOfSequence
      ensures Valid()
      ensures bitsIn < bitsOut ==> endOfSequence == old(endOfSequence) && (end <==> position == |base|)
      ensures bitsIn >= bitsOut ==> (end <==> position == |base| && remainingBits == 0)
      ensures bitsIn >= bitsOut ==> endOfSequence == (old(endOfSequence) || position == |base|)
    {
      if bitsIn < bitsOut {
        end := position == |base|;
      } else if position == |base| {
        endOfSequence := true;
        end := remainingBits == 0;
      } else {
        end := false;
      }
    }

    /** The bits read from the base and not yet delivered. */
    ghost function Undelivered(): seq<bool>
      reads this`bufferIn, this`remainingBits
    {
      Bits(bufferIn, remainingBits)
    }

    /** The bits of the elements from `from` on that have been read. */
    ghost function ReadSince(from: nat): seq<bool>
      reads this
      requires from <= position <= |base| && forall i :: from <= i < position ==> base[i] >= 0
    {
      Flatten(Nats(base[from..position]), bitsIn)
    }

    ghost predicate AllGood(from: nat, to: nat)
      requires from <= to <= |base|
    {
      forall i :: from <= i < to ==> base[i] >= 0
    }

    /**
     The next output value has been assembled, from the position `from` of the base on.  The output and what stays
     undelivered are the bits that were undelivered, those of the elements read now, and `zeroed` zero bits if the
     end of the sequence has been filled up.
     */
    twostate predicate Assembled(f: Fault, zeroed: nat)
      reads this
    {
      && Valid() && old(position) <= position && AllGood(old(position), position)
      && (f.Fine? ==>
            && bufferOutFull && bufferOut < Pow2(bitsOut)
            && Bits(bufferOut, bitsOut) + Undelivered()
               == old(Undelivered()) + ReadSince(old(position)) + Zeros(zeroed)
            && (zeroed > 0 ==> endOfSequence && remainingBits == 0))
      && (f.InvalidSymbol? ==> position < |base| && base[position] < 0)
      && (f.PastEnd? ==>
            && position == |base| && !endOfSequence
            && old(remainingBits) + |ReadSince(old(position))| < bitsOut)
    }

    /** Part of an output value has been assembled: its first `filled` bits. */
    ghost predicate Partial(from: nat, before: seq<bool>, filled: nat, zeroed: nat)
      reads this
    {
      && from <= position <= |base| && AllGood(from, position)
      && bufferOut < Pow2(filled)
      && Bits(bufferOut, filled) + Undelivered() == before + ReadSince(from) + Zeros(zeroed)
    }

    method Fill() returns (f: Fault, ghost zeroed: nat)
      requires Valid()
      modifies this`position, this`bufferIn, this`remainingBits, this`bufferOut, this`bufferOutFull
      ensures Assembled(f, zeroed)
    {
      var missingBits: nat := bitsOut;
      zeroed := 0;
      bufferOut := 0;
      assert Nats(base[position..position]) == [];
      while missingBits > 0
        invariant missingBits <= bitsOut && Valid()
        invariant Partial(old(position), old(Undelivered()), bitsOut - missingBits, zeroed)
        invariant 0 < missingBits < bitsOut ==> remainingBits == 0
        invariant zeroed > 0 ==> endOfSequence && missingBits == 0 && remainingBits == 0
      {
        if remainingBits == 0 {
          f, zeroed := Refill(missingBits, old(position), old(Undelivered()));
          if !f.Fine? {
            return;
          }
        }
        missingBits := Move(missingBits, old(position), old(Undelivered()), zeroed);
      }
      assert bitsOut - missingBits == bitsOut;
      bufferOutFull := true;
      f := Fine;
    }

    /** First half of the body of fill(): the input buffer is empty. */
    method Refill(missingBits: nat, ghost from: nat, ghost before: seq<bool>) returns (f: Fault, ghost zeroed: nat)
      requires Valid() && remainingBits == 0 && 0 < missingBits <= bitsOut
      requires Partial(from, before, bitsOut - missingBits, 0)
      modifies this`position, this`bufferIn, this`remainingBits
      ensures from <= position <= |base| && AllGood(from, position) && (endOfSequence ==> position == |base|)
      ensures match f
              case Fine =>
                && Partial(from, before, bitsOut - missingBits, zeroed)
                && zeroed == (if endOfSequence then missingBits else 0)
                && remainingBits == (if endOfSequence then missingBits else bitsIn)
              case InvalidSymbol => Valid() && position < |base| && base[position] < 0
              case PastEnd =>
                Valid() && position == |base| && !endOfSequence && |before| + |ReadSince(from)| < bitsOut
    {
      hide Pow2, Bits, Flatten;
      ghost var got, read := Bits(bufferOut, bitsOut - missingBits), ReadSince(from);
      NothingHeld(got, before, read, []);
      f, zeroed := Fine, 0;
      if endOfSequence {
        bufferIn, remainingBits, zeroed := 0, missingBits, missingBits;
        BitsOfZero(missingBits);
      } else if position == |base| {
        f := PastEnd;
      } else if base[position] < 0 {
        f := InvalidSymbol;
      } else {
        bufferIn, position, remainingBits := base[position], position + 1, bitsIn;
        ReadOneMore(from);
        assert ReadSince(from) == read + Undelivered();
        NothingHeld(got, before, read, Undelivered());
      }
    }

    /** Second half of the body of fill(): bits go from the input buffer to the output buffer. */
    method Move(missingBits: nat, ghost from: nat, ghost before: seq<bool>, ghost zeroed: nat)
        returns (stillMissing: nat)
      requires 0 < remainingBits && 0 < missingBits <= bitsOut && Partial(from, before, bitsOut - missingBits, zeroed)
      modifies this`remainingBits, this`bufferOut
      ensures stillMissing < missingBits && missingBits - stillMissing + remainingBits == old(remainingBits)
      ensures stillMissing == 0 || remainingBits == 0
      ensures Partial(from, before, bitsOut - stillMissing, zeroed)
    {
      ghost var u, filled := Undelivered(), bitsOut - missingBits;
      ghost var got := Bits(bufferOut, filled);
      var i := if missingBits < remainingBits then missingBits else remainingBits;
      var j := Mask(Shr(bufferIn, remainingBits - i), i);
      TakeBits(bufferOut, filled, bufferIn, remainingBits, i);
      bufferOut := Shl(bufferOut, i) + j;
      stillMissing, remainingBits := missingBits - i, remainingBits - i;
      assert bitsOut - stillMissing == filled + i;
      assert got + u == (got + u[..i]) + u[i..];
    }

    lemma ReadOneMore(from: nat)
      requires from < position <= |base| && AllGood(from, position)
      ensures Flatten(Nats(base[from..position]), bitsIn)
              == Flatten(Nats(base[from..position - 1]), bitsIn) + Bits(base[position - 1], bitsIn)
    {
      var xs := Nats(base[from..position]);
      assert xs[..|xs| - 1] == Nats(base[from..position - 1]);
    }

    method Dereference() returns (f: Fault, ghost zeroed: nat)
      requires Valid()
      modifies this`position, this`bufferIn, this`remainingBits, this`bufferOut, this`bufferOutFull
      ensures if old(bufferOutFull) then f.Fine? && unchanged(this) else Assembled(f, zeroed)
    {
      f, zeroed := Fine, 0;
      if !bufferOutFull {
        f, zeroed := Fill();
      }
    }

    method Increment()
      modifies this`bufferOutFull
      ensures !bufferOutFull
    {
      bufferOutFull := false;
    }
  }

  lemma NothingHeld(got: seq<bool>, before: seq<bool>, read: seq<bool>, more: seq<bool>)
    requires got + [] == before + read + Zeros(0)
    ensures got == before + read && got + more == before + (read + more) + Zeros(0)
  {
    assert got + [] == got && before + read + Zeros(0) == before + read;
  }

  /** Moving `i` bits from the top of the input buffer to the bottom of the output buffer. */
  lemma TakeBits(out: nat, filled: nat, input: nat, remaining: nat, i: nat)
    requires i <= remaining && out < Pow2(filled)
    ensures var j := Mask(Shr(input, remaining - i), i);
            && Shl(out, i) + j < Pow2(filled + i)
            && Bits(Shl(out, i) + j, filled + i) == Bits(out, filled) + Bits(input, remaining)[..i]
    ensures Bits(input, remaining - i) == Bits(input, remaining)[i..]
  {
    var j := Mask(Shr(input, remaining - i), i);
    ShrDropsLow(input, remaining, remaining - i);
    MaskKeepsLow(Shr(input, remaining - i), i, i);
    MaskKeepsLow(input, remaining, remaining - i);
    ShlAppends(out, filled, j, i);
    ShlFits(out, filled, j, i);
  }

  lemma {:induction false} ShlFits(x: nat, w: nat, y: nat, k: nat)
    requires x < Pow2(w) && y < Pow2(k)
    ensures Shl(x, k) + y < Pow2(w + k)
  {
    if k > 0 {
      ShlFits(x, w, y / 2, k - 1);
    }
  }

  lemma Widths()
    ensures Pow2(6) == 64 && Pow2(8) == 256
  {
  }

  // ---------- encode_base64 ----------

  /** Narrowing: the values delivered so far and the bits held back are the bytes read so far, zero-filled. */
  ghost predicate NarrowStream(src: seq<byte>, position: nat, held: seq<bool>, out: seq<nat>, zeroed: nat) {
    && position <= |src|
    && (forall i :: 0 <= i < |out| ==> out[i] < Pow2(6))
    && Flatten(out, 6) + held == Flatten(Octets(src[..position]), 8) + Zeros(zeroed)
  }

  ghost predicate Narrowed(it: TransformWidth, src: seq<byte>, out: seq<nat>, zeroed: nat)
    reads it
  {
    && it.Valid() && it.bitsOut == 6 && it.bitsIn == 8 && it.base == Ints(src) && !it.bufferOutFull
    && NarrowStream(src, it.position, it.Undelivered(), out, zeroed)
    && (zeroed > 0 ==> it.position == |src| && it.remainingBits == 0)
  }

  function Ints(d: seq<byte>): (xs: seq<int>)
    ensures |xs| == |d| && forall i :: 0 <= i < |d| ==> xs[i] == d[i] as int
  {
    seq(|d|, i requires 0 <= i < |d| => d[i] as int)
  }

  lemma ReadBytes(it: TransformWidth, src: seq<byte>, from: nat)
    requires it.base == Ints(src) && it.bitsIn == 8 && from <= it.position <= |src|
    ensures it.ReadSince(from) == Flatten(Octets(src[from..it.position]), 8)
    ensures |it.ReadSince(from)| == 8 * (it.position - from)
  {
    assert Nats(it.base[from..it.position]) == Octets(src[from..it.position]);
    FlattenLength(Octets(src[from..it.position]), 8);
  }

  lemma NarrowNext(src: seq<byte>, from: nat, held: seq<bool>, out: seq<nat>,
                   position: nat, rest: seq<bool>, v: nat, zeroed: nat)
    requires from <= position <= |src| && NarrowStream(src, from, held, out, 0) && v < Pow2(6)
    requires Bits(v, 6) + rest == held + Flatten(Octets(src[from..position]), 8) + Zeros(zeroed)
    ensures NarrowStream(src, position, rest, out + [v], zeroed)
  {
    hide Bits, Flatten, Pow2, Zeros, Octets;
    var a, b := Octets(src[..from]), Octets(src[from..position]);
    OctetsConcat(src[..from], src[from..position]);
    assert src[..position] == src[..from] + src[from..position];
    FlattenConcat(a, b, 8);
    FlattenSnoc(out, v, 6);
    NextInStream(Flatten(out, 6), held, Flatten(a, 8), Bits(v, 6), rest, Flatten(b, 8), Zeros(zeroed));
  }

  /** At the end, the values delivered are the sextets of the specification. */
  lemma NarrowedAll(it: TransformWidth, src: seq<byte>, out: seq<nat>, zeroed: nat)
    requires Narrowed(it, src, out, zeroed) && zeroed < 6 && it.position == |src| && it.remainingBits == 0
    ensures out == Sextets(src)
  {
    assert src[..it.position] == src && Flatten(out, 6) + it.Undelivered() == Flatten(out, 6);
    AllDelivered(src, out, zeroed);
  }

  lemma NothingRead(it: TransformWidth, src: seq<byte>)
    requires it.Valid() && it.bitsOut == 6 && it.bitsIn == 8 && it.base == Ints(src) && !it.bufferOutFull
    requires it.position == 0 && it.remainingBits == 0
    ensures Narrowed(it, src, [], 0)
  {
  }

  lemma AllDelivered(src: seq<byte>, out: seq<nat>, zeroed: nat)
    requires forall i :: 0 <= i < |out| ==> out[i] < Pow2(6)
    requires zeroed < 6 && Flatten(out, 6) == Flatten(Octets(src), 8) + Zeros(zeroed)
    ensures out == Sextets(src)
  {
    hide Flatten, Group, Bits, Pow2, Octets, ZeroFill;
    FlattenLength(out, 6);
    FlattenLength(Octets(src), 8);
    FillCount(Flatten(Octets(src), 8), |out|, zeroed);
    GroupOfFlatten(out, [], 6);
    assert Flatten(out, 6) + [] == Flatten(out, 6);
  }

  lemma FillCount(bits: seq<bool>, n: nat, zeroed: nat)
    requires zeroed < 6 && 6 * n == |bits| + zeroed
    ensures ZeroFill(bits) == bits + Zeros(zeroed)
  {
    if zeroed > 0 {
      assert |bits| == 6 * (n - 1) + (6 - zeroed);
    }
  }

  lemma SymbolsSnoc(xs: seq<nat>, v: nat)
    requires v < 64 && forall i :: 0 <= i < |xs| ==> xs[i] < 64
    ensures Symbols(xs + [v]) == Symbols(xs) + [Symbol(v)]
  {
  }

  lemma PaddingSnoc(n: nat)
    ensures Padding(n + 1) == Padding(n) + ['=']
  {
  }

  /** std::copy from the encoding iterator at the beginning of `src` to the one at its end. */
  method CopyEncoded(src: seq<byte>) returns (result: string)
    ensures result == Symbols(Sextets(src))
  {
    hide Sextets, NarrowStream, Symbols, Symbol, TransformWidth.Undelivered;
    var it := new TransformWidth(6, 8, Ints(src));
    NothingRead(it, src);
    result := "";
    ghost var out: seq<nat>, zeroed: nat := [], 0;
    var end := it.AtEnd();
    while !end
      invariant fresh(it) && Narrowed(it, src, out, zeroed) && zeroed < 6
      invariant end <==> it.position == |src| && it.remainingBits == 0
      invariant it.position == |src| ==> it.endOfSequence
      invariant (forall i :: 0 <= i < |out| ==> out[i] < 64) && result == Symbols(out)
      decreases 8 * (|src| - it.position) + it.remainingBits
    {
      var v, z := NextSextet(it, src, out);
      SymbolsSnoc(out, v);
      result, out, zeroed := result + [Symbol(v)], out + [v], z;
      end := it.AtEnd();
    }
    NarrowedAll(it, src, out, zeroed);
  }

  method EncodeBase64(src: seq<byte>) returns (result: string)
    ensures result == Encode(src)
  {
    result := CopyEncoded(src);
    assert result + Padding(0) == result;
    var equalCount := (3 - |src| % 3) % 3;
    for i := 0 to equalCount
      invariant result == Symbols(Sextets(src)) + Padding(i)
    {
      PaddingSnoc(i);
      result := result + ['='];
    }
  }

  /**
   Of a stream `stream` of bits, `done` have been delivered and `held` are held back.  If then `next` is delivered
   and `rest` held back, having read `read` and made up `fill`, that accounts for the longer stream.
   */
  lemma NextInStream(done: seq<bool>, held: seq<bool>, stream: seq<bool>,
                     next: seq<bool>, rest: seq<bool>, read: seq<bool>, fill: seq<bool>)
    requires done + held == stream + Zeros(0) && next + rest == held + read + fill
    ensures done + next + rest == stream + read + fill
  {
    assert done + next + rest == done + (next + rest);
    assert done + (held + read + fill) == (done + held) + read + fill;
    assert stream + Zeros(0) == stream;
  }

  /** Dereference and increment the narrowing iterator. */
  method NextSextet(it: TransformWidth, src: seq<byte>, ghost out: seq<nat>) returns (v: nat, ghost zeroed: nat)
    requires Narrowed(it, src, out, 0) && !(it.position == |src| && it.remainingBits == 0)
    requires it.position == |src| ==> it.endOfSequence
    modifies it
    ensures v < 64 && zeroed < 6 && Narrowed(it, src, out + [v], zeroed)
    ensures it.endOfSequence == old(it.endOfSequence)
    ensures 8 * (|src| - it.position) + it.remainingBits < old(8 * (|src| - it.position) + it.remainingBits)
  {
    hide NarrowStream, Bits, Flatten, Octets, Pow2, Zeros;
    Widths();
    ghost var from, held := it.position, it.Undelivered();
    var f;
    f, zeroed := it.Dereference();
    ReadBytes(it, src, from);
    assert f.Fine?;
    v := it.bufferOut;
    NarrowNext(src, from, held, out, it.position, it.Undelivered(), v, zeroed);
    assert |Bits(v, 6) + it.Undelivered()| == |held + it.ReadSince(from) + Zeros(zeroed)|;
    it.Increment();
  }

  // ---------- decode_base64 ----------

  function Table(s: string): (xs: seq<int>)
    ensures |xs| == |s| && forall i :: 0 <= i < |s| ==> xs[i] == Lookup(s[i])
  {
    seq(|s|, i requires 0 <= i < |s| => Lookup(s[i]))
  }

  /** Widening: the values delivered so far and the bits held back are the symbols read so far. */
  ghost predicate WideStream(src: string, position: nat, held: seq<bool>, out: seq<nat>) {
    && position <= |src| && Readable(src[..position])
    && (forall i :: 0 <= i < |out| ==> out[i] < Pow2(8))
    && Flatten(out, 8) + held == Flatten(Looked(src[..position]), 6) + Zeros(0)
  }

  ghost predicate Widened(it: TransformWidth, src: string, out: seq<nat>)
    reads it
  {
    && it.Valid() && it.bitsOut == 8 && it.bitsIn == 6 && it.base == Table(src) && !it.bufferOutFull
    && !it.endOfSequence && WideStream(src, it.position, it.Undelivered(), out)
  }

  lemma ReadSymbols(it: TransformWidth, src: string, from: nat)
    requires it.base == Table(src) && it.bitsIn == 6 && from <= it.position <= |src| && it.AllGood(from, it.position)
    ensures Readable(src[from..it.position])
    ensures it.ReadSince(from) == Flatten(Looked(src[from..it.position]), 6)
    ensures |it.ReadSince(from)| == 6 * (it.position - from)
  {
    var part := src[from..it.position];
    forall i | 0 <= i < |part| ensures Lookup(part[i]) >= 0 {
      assert it.base[from + i] >= 0;
    }
    assert Nats(it.base[from..it.position]) == Looked(part);
    FlattenLength(Looked(part), 6);
  }

  lemma LookedConcat(s: string, t: string)
    requires Readable(s) && Readable(t)
    ensures Readable(s + t) && Looked(s + t) == Looked(s) + Looked(t)
  {
  }

  lemma WideNext(src: string, from: nat, held: seq<bool>, out: seq<nat>, position: nat, rest: seq<bool>, v: nat)
    requires from <= position <= |src| && WideStream(src, from, held, out)
    requires v < Pow2(8) && Readable(src[from..position])
    requires Bits(v, 8) + rest == held + Flatten(Looked(src[from..position]), 6) + Zeros(0)
    ensures WideStream(src, position, rest, out + [v])
  {
    hide Bits, Flatten, Pow2, Zeros, Looked, Readable;
    var a, b := src[..from], src[from..position];
    LookedConcat(a, b);
    assert src[..position] == a + b;
    FlattenConcat(Looked(a), Looked(b), 6);
    FlattenSnoc(out, v, 8);
    NextInStream(Flatten(out, 8), held, Flatten(Looked(a), 6), Bits(v, 8), rest, Flatten(Looked(b), 6), Zeros(0));
  }

  /** When the iterator needs an element past the end, there is one symbol too many. */
  lemma WidePastEnd(src: string, from: nat, held: seq<bool>, out: seq<nat>)
    requires from < |src| && WideStream(src, from, held, out) && Readable(src[from..])
    requires |held| + 6 * (|src| - from) < 8
    ensures Readable(src) && |src| % 4 == 1
  {
    LookedConcat(src[..from], src[from..]);
    assert src == src[..from] + src[from..];
    OneTooMany(out, Looked(src[..from]), held, |src|);
  }

  /** Dereference and increment the widening iterator. */
  method NextOctet(it: TransformWidth, src: string, ghost out: seq<nat>) returns (f: Fault, v: nat)
    requires Widened(it, src, out) && it.position < |src|
    modifies it
    ensures f.Fine? ==> v < 256 && Widened(it, src, out + [v]) && it.position > old(it.position)
    ensures f.InvalidSymbol? ==> !Readable(src)
    ensures f.PastEnd? ==> Readable(src) && |src| % 4 == 1
  {
    hide WideStream, Bits, Flatten, Pow2, Zeros, Looked, Table, Readable, Nats;
    Widths();
    ghost var from, held := it.position, it.Undelivered();
    ghost var zeroed;
    f, zeroed := it.Dereference();
    ReadSymbols(it, src, from);
    v := it.bufferOut;
    match f {
      case InvalidSymbol =>
        UnreadableSymbol(src, it.position);
      case PastEnd =>
        assert src[from..it.position] == src[from..];
        WidePastEnd(src, from, held, out);
      case Fine =>
        WideNext(src, from, held, out, it.position, it.Undelivered(), v);
        it.Increment();
    }
  }

  lemma UnreadableSymbol(src: string, i: nat)
    requires i < |src| && Table(src)[i] < 0
    ensures !Readable(src)
  {
  }

  /** The iterator overruns the string only when one symbol is left over after whole groups of four. */
  lemma OneTooMany(delivered: seq<nat>, read: seq<nat>, held: seq<bool>, n: nat)
    requires Flatten(delivered, 8) + held == Flatten(read, 6) + Zeros(0)
    requires |read| < n && |held| + 6 * (n - |read|) < 8
    ensures n % 4 == 1
  {
    hide Flatten, Bits, Zeros;
    FlattenLength(delivered, 8);
    FlattenLength(read, 6);
    assert |Flatten(delivered, 8) + held| == |Flatten(read, 6) + Zeros(0)|;
    WholeGroupsRead(|delivered|, |read|, |held|);
    assert n == |read| + 1;
  }

  lemma WholeGroupsRead(delivered: nat, read: nat, held: nat)
    requires 8 * delivered + held == 6 * read && held < 2
    ensures read % 4 == 0
  {
    assert held == 0;
    assert read == 4 * (read - delivered);
  }

  /** ... and never ends with such a symbol. */
  lemma NotOneTooMany(delivered: nat, n: nat, held: nat)
    requires 8 * delivered + held == 6 * n && held < 6
    ensures n % 4 != 1
  {
  }

  /** At the end, the values delivered are the octets of the specification. */
  lemma WidenedAll(it: TransformWidth, src: string, out: seq<nat>)
    requires Widened(it, src, out) && it.position == |src|
    ensures Readable(src) && |src| % 4 != 1 && out == Octets(Raw(src))
  {
    hide Bits, Group;
    assert src[..it.position] == src;
    var held := it.Undelivered();
    FlattenLength(out, 8);
    FlattenLength(Looked(src), 6);
    NotOneTooMany(|out|, |src|, |held|);
    GroupOfFlatten(out, held, 8);
    assert Flatten(Looked(src), 6) + Zeros(0) == Flatten(Looked(src), 6);
  }

  /**
   The result, and whether the iterator read the element past the end of the string, which it does exactly on
   readable strings with one symbol too many.  What it reads there is the terminating NUL of std::string, and
   looking that up throws like any other character outside the table.
   */
  method DecodeBase64(src: string) returns (result: seq<byte>, overran: bool)
    ensures result == Decode(src)
    ensures overran <==> Readable(src) && |src| % 4 == 1
  {
    var it := new TransformWidth(8, 6, Table(src));
    var bytes: seq<byte> := [];
    ghost var out: seq<nat> := [];
    assert src[..0] == [];
    var end := it.AtEnd();
    while !end
      invariant fresh(it) && Widened(it, src, out)
      invariant end <==> it.position == |src|
      invariant Octets(bytes) == out
      decreases |src| - it.position
    {
      var f, v := NextOctet(it, src, out);
      if f.InvalidSymbol? {
        return [], false;
      } else if f.PastEnd? {
        return [], true;
      }
      bytes, out := bytes + [v as byte], out + [v];
      end := it.AtEnd();
    }
    WidenedAll(it, src, out);
    OctetsInjective(bytes, Raw(src));
    result := CStr(bytes);
    overran := false;
  }

  /** std::string(d.c_str()) */
  method CStr(d: seq<byte>) returns (r: seq<byte>)
    ensures r == UntilNul(d)
  {
    var n := 0;
    while n < |d| && d[n] != 0
      invariant 0 <= n <= |d| && UntilNul(d) == d[..n] + UntilNul(d[n..])
    {
      assert d[..n + 1] + UntilNul(d[n + 1..]) == d[..n] + ([d[n]] + UntilNul(d[n + 1..]));
      assert d[n..][1..] == d[n + 1..];
      n := n + 1;
    }
    r := d[..n];
  }
}
