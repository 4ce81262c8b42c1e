/** Numbers as strings of bits, most significant bit first, and the regrouping of bit strings. */
module BitStrings {

  function Pow2(w: nat): nat {
    if w == 0 then 1 else 2 * Pow2(w - 1)
  }

  /** The low `w` bits of `x`. */
  function Bits(x: nat, w: nat): (b: seq<bool>)
    ensures |b| == w
  {
    if w == 0 then [] else Bits(x / 2, w - 1) + [x % 2 == 1]
  }

  function Value(b: seq<bool>): nat {
    if b == [] then 0 else 2 * Value(b[..|b| - 1]) + (if b[|b| - 1] then 1 else 0)
  }

  lemma {:induction false} ValueOfBits(x: nat, w: nat)
    requires x < Pow2(w)
    ensures Value(Bits(x, w)) == x
  {
    if w > 0 {
      ValueOfBits(x / 2, w - 1);
      assert Bits(x, w)[..w - 1] == Bits(x / 2, w - 1);
    }
  }

  lemma {:induction false} BitsOfValue(b: seq<bool>)
    ensures Value(b) < Pow2(|b|) && Bits(Value(b), |b|) == b
  {
    if b != [] {
      BitsOfValue(b[..|b| - 1]);
      assert b == b[..|b| - 1] + [b[|b| - 1]];
    }
  }

  // ---------- The C++ shifts and masks, one bit at a time ----------

  /** x >> k */
  function Shr(x: nat, k: nat): nat {
    if k == 0 then x else Shr(x / 2, k - 1)
  }

  /** x << k */
  function Shl(x: nat, k: nat): nat {
    if k == 0 then x else 2 * Shl(x, k - 1)
  }

  /** x & ((1 << k) - 1) */
  function Mask(x: nat, k: nat): nat {
    if k == 0 then 0 else 2 * Mask(x / 2, k - 1) + x % 2
  }

  lemma {:induction false} ShrDropsLow(x: nat, w: nat, k: nat)
    requires k <= w
    ensures Bits(Shr(x, k), w - k) == Bits(x, w)[..w - k]
  {
    if k > 0 {
      ShrDropsLow(x / 2, w - 1, k - 1);
      assert Bits(x, w)[..w - 1] == Bits(x / 2, w - 1);
    }
  }

  lemma {:induction false} MaskKeepsLow(x: nat, w: nat, k: nat)
    requires k <= w
    ensures Bits(Mask(x, k), k) == Bits(x, k) == Bits(x, w)[w - k..] && Mask(x, k) < Pow2(k)
  {
    if k > 0 {
      MaskKeepsLow(x / 2, w - 1, k - 1);
      assert Mask(x, k) / 2 == Mask(x / 2, k - 1);
    }
  }

  /** (x << k) | y, for a y of k bits */
  lemma {:induction false} ShlAppends(x: nat, w: nat, y: nat, k: nat)
    requires y < Pow2(k)
    ensures Bits(Shl(x, k) + y, w + k) == Bits(x, w) + Bits(y, k)
  {
    if k == 0 {
      assert Bits(x, w) + [] == Bits(x, w);
    } else {
      ShlAppends(x, w, y / 2, k - 1);
      assert (Shl(x, k) + y) / 2 == Shl(x, k - 1) + y / 2;
    }
  }

  // ---------- Strings of w-bit numbers ----------

  function Flatten(xs: seq<nat>, w: nat): seq<bool> {
    if xs == [] then [] else Flatten(xs[..|xs| - 1], w) + Bits(xs[|xs| - 1], w)
  }

  /** Cut `b` into numbers of `w` bits; what is left at the end, fewer than `w` bits, is dropped. */
  function Group(b: seq<bool>, w: nat): (xs: seq<nat>)
    requires w > 0
    ensures forall i :: 0 <= i < |xs| ==> xs[i] < Pow2(w)
  {
    if |b| < w then [] else
      BitsOfValue(b[..w]);
      [Value(b[..w])] + Group(b[w..], w)
  }

  function Zeros(n: nat): (b: seq<bool>)
    ensures |b| == n
  {
    seq(n, _ => false)
  }

  lemma {:induction false} FlattenLength(xs: seq<nat>, w: nat)
    requires w == 6 || w == 8
    ensures |Flatten(xs, w)| == if w == 6 then 6 * |xs| else 8 * |xs|
  {
    if xs != [] {
      FlattenLength(xs[..|xs| - 1], w);
    }
  }

  lemma {:induction false} GroupLength(b: seq<bool>, w: nat)
    requires w == 6 || w == 8
    ensures |Group(b, w)| == if w == 6 then |b| / 6 else |b| / 8
  {
    if |b| >= w {
      GroupLength(b[w..], w);
    }
  }

  lemma ConcatIsAssociative<T>(a: seq<T>, b: seq<T>, c: seq<T>)
    ensures (a + b) + c == a + (b + c)
  {
  }

  lemma FlattenLast(xs: seq<nat>, w: nat)
    requires xs != []
    ensures Flatten(xs, w) == Flatten(xs[..|xs| - 1], w) + Bits(xs[|xs| - 1], w)
  {
  }

  lemma {:induction false} FlattenConcat(xs: seq<nat>, ys: seq<nat>, w: nat)
    ensures Flatten(xs + ys, w) == Flatten(xs, w) + Flatten(ys, w)
  {
    if ys == [] {
      assert xs + ys == xs && Flatten(xs, w) + [] == Flatten(xs, w);
    } else {
      var front, y := ys[..|ys| - 1], ys[|ys| - 1];
      FlattenLast(ys, w);
      hide Flatten, Bits;
      FlattenConcat(xs, front, w);
      FlattenSnoc(xs + front, y, w);
      ConcatIsAssociative(xs, front, [y]);
      ConcatIsAssociative(Flatten(xs, w), Flatten(front, w), Bits(y, w));
      assert ys == front + [y];
    }
  }

  lemma FlattenOne(x: nat, w: nat)
    ensures Flatten([x], w) == Bits(x, w)
  {
    assert [x][..0] == [];
    assert [] + Bits(x, w) == Bits(x, w);
  }

  lemma FlattenSnoc(xs: seq<nat>, x: nat, w: nat)
    ensures Flatten(xs + [x], w) == Flatten(xs, w) + Bits(x, w)
  {
    assert (xs + [x])[..|xs|] == xs;
  }

  lemma GroupCons(x: nat, b: seq<bool>, w: nat)
    requires w > 0 && x < Pow2(w)
    ensures Group(Bits(x, w) + b, w) == [x] + Group(b, w)
  {
    ValueOfBits(x, w);
    var f := Bits(x, w) + b;
    assert f[..w] == Bits(x, w) && f[w..] == b;
  }

  /** Grouping undoes flattening, and goes on with what follows. */
  lemma {:induction false} GroupConcat(xs: seq<nat>, b: seq<bool>, w: nat)
    requires w > 0 && forall i :: 0 <= i < |xs| ==> xs[i] < Pow2(w)
    ensures Group(Flatten(xs, w) + b, w) == xs + Group(b, w)
  {
    hide Group, Bits;
    if xs == [] {
      assert Flatten(xs, w) + b == b;
      assert xs + Group(b, w) == Group(b, w);
    } else {
      var n := |xs| - 1;
      assert Flatten(xs, w) + b == Flatten(xs[..n], w) + (Bits(xs[n], w) + b);
      GroupConcat(xs[..n], Bits(xs[n], w) + b, w);
      GroupCons(xs[n], b, w);
      assert xs[..n] + ([xs[n]] + Group(b, w)) == xs + Group(b, w);
    }
  }

  lemma GroupOfFlatten(xs: seq<nat>, rest: seq<bool>, w: nat)
    requires w > 0 && |rest| < w && forall i :: 0 <= i < |xs| ==> xs[i] < Pow2(w)
    ensures Group(Flatten(xs, w) + rest, w) == xs
  {
    GroupConcat(xs, rest, w);
  }

  lemma PrefixInParts(b: seq<bool>, w: nat, f: seq<bool>)
    requires w <= |b| && f <= b[w..]
    ensures b[..w] + f == b[..w + |f|]
  {
  }

  /** Flattening undoes grouping, but for the bits left over. */
  lemma {:induction false} FlattenOfGroup(b: seq<bool>, w: nat)
    requires w > 0
    ensures var f := Flatten(Group(b, w), w); |f| <= |b| < |f| + w && f == b[..|f|]
  {
    if |b| >= w {
      var head, tail := Value(b[..w]), Group(b[w..], w);
      assert Group(b, w) == [head] + tail;
      hide Group, Flatten, Bits, Value;
      FlattenOfGroup(b[w..], w);
      BitsOfValue(b[..w]);
      FlattenOne(head, w);
      FlattenConcat([head], tail, w);
      PrefixInParts(b, w, Flatten(tail, w));
    }
  }

  lemma {:induction false} BitsOfZero(w: nat)
    ensures Bits(0, w) == Zeros(w)
  {
    if w > 0 {
      BitsOfZero(w - 1);
    }
  }
}
