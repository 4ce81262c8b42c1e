/** hnw::util::split: cut a string at every occurrence of a separator. */
module Split {

  /** `sep` occurs in `s` at `i`. */
  predicate OccursAt<T(==)>(s: seq<T>, sep: seq<T>, i: nat) {
    i + |sep| <= |s| && s[i..i + |sep|] == sep
  }

  /** std::string::find: the first occurrence at or after `from`, or |s| + 1 for npos. */
  function Find<T(==)>(s: seq<T>, sep: seq<T>, from: nat): (p: nat)
    ensures p > |s| || (from <= p && OccursAt(s, sep, p))
    ensures forall i: nat :: from <= i < p ==> !OccursAt(s, sep, i)
    decreases |s| - from
  {
    if from > |s| then from + |s| + 1 else if OccursAt(s, sep, from) then from else Find(s, sep, from + 1)
  }

  /** The parts of `s` from `from` on. */
  function PartsFrom<T(==)>(s: seq<T>, sep: seq<T>, from: nat): (parts: seq<seq<T>>)
    requires sep != [] && from <= |s|
    ensures |parts| >= 1
    decreases |s| - from
  {
    var p := Find(s, sep, from);
    if p > |s| then [s[from..]] else [s[from..p]] + PartsFrom(s, sep, p + |sep|)
  }

  function Parts<T(==)>(s: seq<T>, sep: seq<T>): seq<seq<T>>
    requires sep != []
  {
    PartsFrom(s, sep, 0)
  }

  lemma FoundWithin<T>(s: seq<T>, sep: seq<T>, from: nat)
    ensures var p := Find(s, sep, from); p <= |s| ==> p + |sep| <= |s| && s[p..p + |sep|] == sep
  {
  }

  /** The loop of the C++ function.  With an empty separator it would not terminate; no caller passes one. */
  method SplitString<T(==)>(src: seq<T>, splitor: seq<T>) returns (res: seq<seq<T>>)
    requires splitor != []
    ensures res == Parts(src, splitor)
  {
    hide Find, OccursAt;
    res := [];
    var beg := 0;
    while true
      invariant beg <= |src| && Parts(src, splitor) == res + PartsFrom(src, splitor, beg)
      decreases |src| - beg
    {
      var pos := Find(src, splitor, beg);
      if pos > |src| {
        res := res + [src[beg..]];
        break;
      }
      FoundWithin(src, splitor, beg);
      assert res + ([src[beg..pos]] + PartsFrom(src, splitor, pos + |splitor|))
          == res + [src[beg..pos]] + PartsFrom(src, splitor, pos + |splitor|);
      res := res + [src[beg..pos]];
      beg := pos + |splitor|;
    }
  }

  function Join<T>(parts: seq<seq<T>>, sep: seq<T>): seq<T>
    requires |parts| >= 1
  {
    if |parts| == 1 then parts[0] else parts[0] + sep + Join(parts[1..], sep)
  }

  lemma Cut<T>(s: seq<T>, i: nat, j: nat, k: nat)
    requires i <= j <= k <= |s|
    ensures s[i..] == s[i..j] + s[j..k] + s[k..]
  {
  }

  lemma {:induction false} JoinOfPartsFrom<T>(s: seq<T>, sep: seq<T>, from: nat)
    requires sep != [] && from <= |s|
    ensures Join(PartsFrom(s, sep, from), sep) == s[from..]
    decreases |s| - from
  {
    hide Find, OccursAt;
    var p := Find(s, sep, from);
    if p <= |s| {
      FoundWithin(s, sep, from);
      JoinOfPartsFrom(s, sep, p + |sep|);
      assert PartsFrom(s, sep, from)[1..] == PartsFrom(s, sep, p + |sep|);
      Cut(s, from, p, p + |sep|);
    }
  }

  ghost predicate Contains<T>(s: seq<T>, sep: seq<T>) {
    exists i: nat :: OccursAt(s, sep, i)
  }

  lemma ElementOccurs<T>(s: seq<T>, c: T)
    requires c in s
    ensures Contains(s, [c])
  {
    var i :| 0 <= i < |s| && s[i] == c;
    assert s[i..i + 1] == [c];
    assert OccursAt(s, [c], i);
  }

  lemma OccursInSuffix<T>(s: seq<T>, sep: seq<T>, from: nat, i: nat)
    requires from <= |s|
    ensures OccursAt(s[from..], sep, i) <==> OccursAt(s, sep, from + i)
  {
    if i + |sep| <= |s| - from {
      SliceOfSlice(s, from, |s|, i, i + |sep|);
      assert s[from..] == s[from..|s|];
    }
  }

  /** The first part is everything exactly if the separator does not occur. */
  lemma FirstPartIsAll<T>(s: seq<T>, sep: seq<T>, from: nat)
    requires sep != [] && from <= |s|
    ensures PartsFrom(s, sep, from)[0] == s[from..]
            <==> forall i: nat :: i < |s| - from ==> !OccursAt(s[from..], sep, i)
  {
    var p := Find(s, sep, from);
    if p <= |s| {
      OccursInSuffix(s, sep, from, p - from);
      assert |s[from..p]| < |s[from..]|;
    }
    forall i: nat | i < |s| - from && OccursAt(s[from..], sep, i) ensures p <= |s| {
      OccursInSuffix(s, sep, from, i);
    }
  }

  lemma SliceOfSlice<T>(s: seq<T>, from: nat, end: nat, i: nat, j: nat)
    requires from <= end <= |s| && i <= j <= end - from
    ensures s[from..end][i..j] == s[from + i..from + j]
  {
    var t := s[from..end];
    assert |t[i..j]| == j - i == |s[from + i..from + j]|;
    forall k | 0 <= k < j - i ensures t[i..j][k] == s[from + i..from + j][k] {
      assert t[i..j][k] == t[i + k] == s[from + (i + k)];
    }
  }

  /** No occurrence lies before the first one. */
  lemma FirstPartIsFree<T>(s: seq<T>, sep: seq<T>, from: nat)
    requires sep != [] && from <= |s|
    ensures var p := Find(s, sep, from); !Contains(s[from..if p <= |s| then p else |s|], sep)
  {
    var p := Find(s, sep, from);
    var end := if p <= |s| then p else |s|;
    hide Find, OccursAt;
    forall i: nat ensures !OccursAt(s[from..end], sep, i) {
      OccursInSlice(s, sep, from, end, i);
    }
  }

  lemma OccursInSlice<T>(s: seq<T>, sep: seq<T>, from: nat, end: nat, i: nat)
    requires from <= end <= |s|
    ensures OccursAt(s[from..end], sep, i) ==> from + i + |sep| <= end && OccursAt(s, sep, from + i)
  {
    if i + |sep| <= end - from {
      SliceOfSlice(s, from, end, i, i + |sep|);
    }
  }

  lemma {:induction false} PartsFromAreFree<T>(s: seq<T>, sep: seq<T>, from: nat)
    requires sep != [] && from <= |s|
    ensures forall k :: 0 <= k < |PartsFrom(s, sep, from)| ==> !Contains(PartsFrom(s, sep, from)[k], sep)
    decreases |s| - from
  {
    hide Find, OccursAt, Contains;
    var p := Find(s, sep, from);
    FirstPartIsFree(s, sep, from);
    if p <= |s| {
      FoundWithin(s, sep, from);
      PartsFromAreFree(s, sep, p + |sep|);
    } else {
      assert s[from..] == s[from..|s|];
    }
  }

  /** Searching from `from` on is searching the rest of the string. */
  lemma FindInSuffix<T>(s: seq<T>, sep: seq<T>, from: nat, k: nat)
    requires sep != [] && from + k <= |s|
    ensures var p, q := Find(s, sep, from + k), Find(s[from..], sep, k);
            (p <= |s| <==> q <= |s| - from) && (p <= |s| ==> p == from + q)
  {
    hide OccursAt;
    var p, q := Find(s, sep, from + k), Find(s[from..], sep, k);
    if p <= |s| {
      OccursInSuffix(s, sep, from, p - from);
    }
    if q <= |s| - from {
      OccursInSuffix(s, sep, from, q);
    }
  }

  lemma {:induction false} PartsFromIsParts<T>(s: seq<T>, sep: seq<T>, from: nat, k: nat)
    requires sep != [] && from + k <= |s|
    ensures PartsFrom(s, sep, from + k) == PartsFrom(s[from..], sep, k)
    decreases |s| - from - k
  {
    hide Find, OccursAt;
    var q := Find(s[from..], sep, k);
    FindInSuffix(s, sep, from, k);
    assert s[from + k..] == s[from..][k..];
    if q <= |s| - from {
      FoundWithin(s[from..], sep, k);
      SliceOfSlice(s, from, |s|, k, q);
      assert s[from..|s|] == s[from..];
      PartsFromIsParts(s, sep, from, q + |sep|);
    }
  }

  /**
   What split does: a string without the separator is its only part; otherwise the first part ends at the first
   occurrence, and the others are those of what comes after it.
   */
  lemma PartsAtFirst<T>(s: seq<T>, sep: seq<T>, i: nat)
    requires sep != []
    ensures !Contains(s, sep) ==> Parts(s, sep) == [s]
    ensures OccursAt(s, sep, i) && (forall j: nat :: j < i ==> !OccursAt(s, sep, j)) ==>
              Parts(s, sep) == [s[..i]] + Parts(s[i + |sep|..], sep)
  {
    hide Find;
    assert s[0..] == s;
    if OccursAt(s, sep, i) && forall j: nat :: j < i ==> !OccursAt(s, sep, j) {
      FoundFirst(s, sep, i);
      PartsFromIsParts(s, sep, i + |sep|, 0);
      assert s[0..i] == s[..i];
    }
  }

  lemma FoundFirst<T>(s: seq<T>, sep: seq<T>, i: nat)
    requires sep != [] && OccursAt(s, sep, i) && forall j: nat :: j < i ==> !OccursAt(s, sep, j)
    ensures Find(s, sep, 0) == i
  {
  }

  /** The first two parts. */
  lemma FirstTwoParts<T>(s: seq<T>, sep: seq<T>, i: nat)
    requires sep != [] && OccursAt(s, sep, i) && forall j: nat :: j < i ==> !OccursAt(s, sep, j)
    ensures |Parts(s, sep)| >= 2 && Parts(s, sep)[0] == s[..i]
    ensures var second, tail := Parts(s, sep)[1], s[i + |sep|..];
            !Contains(second, sep) && (second == tail || second + sep <= tail)
  {
    hide Find, PartsFrom;
    var tail := s[i + |sep|..];
    PartsAtFirst(s, sep, i);
    SplitThenJoin(tail, sep);
    JoinBegins(Parts(tail, sep), sep);
  }

  lemma JoinBegins<T>(parts: seq<seq<T>>, sep: seq<T>)
    requires |parts| >= 1
    ensures Join(parts, sep) == parts[0] || parts[0] + sep <= Join(parts, sep)
  {
  }

  lemma TwoPartsIfContained<T>(s: seq<T>, sep: seq<T>)
    requires sep != []
    ensures |Parts(s, sep)| >= 2 <==> Contains(s, sep)
  {
    hide Find, OccursAt;
    var p := Find(s, sep, 0);
    if Contains(s, sep) {
      var i: nat :| OccursAt(s, sep, i);
      OccursWithin(s, sep, i);
    }
  }

  lemma OccursWithin<T>(s: seq<T>, sep: seq<T>, i: nat)
    ensures OccursAt(s, sep, i) ==> i + |sep| <= |s|
  {
  }

  lemma {:induction false} PartsFromAvoid<T>(s: seq<T>, sep: seq<T>, from: nat, c: T)
    requires sep != [] && from <= |s| && c !in s
    ensures forall k :: 0 <= k < |PartsFrom(s, sep, from)| ==> c !in PartsFrom(s, sep, from)[k]
    decreases |s| - from
  {
    hide Find, OccursAt;
    var p := Find(s, sep, from);
    if p <= |s| {
      FoundWithin(s, sep, from);
      PartsFromAvoid(s, sep, p + |sep|, c);
    }
  }

  /** The parts have only elements of the string. */
  lemma PartsAvoid<T>(s: seq<T>, sep: seq<T>, c: T)
    requires sep != []
    ensures c !in s ==> forall k :: 0 <= k < |Parts(s, sep)| ==> c !in Parts(s, sep)[k]
  {
    if c !in s {
      PartsFromAvoid(s, sep, 0, c);
    }
  }

  /** Splitting loses nothing: joining the parts, none of which contains the separator, gives the string back. */
  lemma SplitThenJoin<T>(s: seq<T>, sep: seq<T>)
    requires sep != []
    ensures Join(Parts(s, sep), sep) == s
    ensures forall k :: 0 <= k < |Parts(s, sep)| ==> !Contains(Parts(s, sep)[k], sep)
  {
    JoinOfPartsFrom(s, sep, 0);
    PartsFromAreFree(s, sep, 0);
    assert s[0..] == s;
  }

  lemma FindAfter<T>(before: seq<T>, part: seq<T>, rest: seq<T>, c: T)
    requires c !in part && (rest == [] || rest[0] == c)
    ensures var p := Find(before + part + rest, [c], |before|);
            if rest == [] then p > |before + part + rest| else p == |before + part|
  {
    var s, n := before + part + rest, |before| + |part|;
    forall i: nat | |before| <= i < n ensures !OccursAt(s, [c], i) {
      assert i + 1 <= |s| ==> s[i..i + 1][0] == part[i - |before|];
    }
    if rest != [] {
      assert s[n..n + 1] == [c];
      assert OccursAt(s, [c], n);
    }
  }

  lemma SliceInMiddle<T>(a: seq<T>, b: seq<T>, c: seq<T>)
    ensures (a + b + c)[|a|..|a + b|] == b
  {
  }

  lemma PartsCons<T>(before: seq<T>, part: seq<T>, rest: seq<T>, c: T)
    requires c !in part
    ensures PartsFrom(before + part + ([c] + rest), [c], |before|)
            == [part] + PartsFrom((before + part + [c]) + rest, [c], |before + part + [c]|)
  {
    hide Find, OccursAt;
    var s := before + part + ([c] + rest);
    FindAfter(before, part, [c] + rest, c);
    assert s == (before + part + [c]) + rest;
    SliceInMiddle(before, part, [c] + rest);
  }

  /** For a separator of one character the two are inverse: parts free of it are found again. */
  lemma {:induction false} JoinThenSplit<T>(before: seq<T>, parts: seq<seq<T>>, c: T)
    requires |parts| >= 1 && forall k :: 0 <= k < |parts| ==> c !in parts[k]
    ensures PartsFrom(before + Join(parts, [c]), [c], |before|) == parts
    decreases |parts|
  {
    hide Find;
    var part := parts[0];
    if |parts| == 1 {
      FindAfter(before, part, [], c);
      assert before + part + [] == before + part && (before + part)[|before|..] == part;
    } else {
      var rest := Join(parts[1..], [c]);
      PartsCons(before, part, rest, c);
      assert before + part + ([c] + rest) == before + Join(parts, [c]);
      JoinThenSplit(before + part + [c], parts[1..], c);
      assert [part] + parts[1..] == parts;
    }
  }
}
