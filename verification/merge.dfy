/** The merge step: combining two adjacent sorted runs of a sequence. */
module Merging {
  import opened Ordering

  /** Reference merge of what remains of two runs after their first `i` and
      `j` elements: repeatedly take the smaller front, the left one on a tie,
      and append the rest of the other run once one is used up. */
  function MergeFrom<T>(left: seq<T>, right: seq<T>, key: T -> int, i: int, j: int): (r: seq<T>)
    requires 0 <= i <= |left| && 0 <= j <= |right|
    ensures |r| == (|left| - i) + (|right| - j)
    decreases (|left| - i) + (|right| - j)
  {
    if i == |left| then right[j..]
    else if j == |right| then left[i..]
    else if key(left[i]) <= key(right[j]) then [left[i]] + MergeFrom(left, right, key, i + 1, j)
    else [right[j]] + MergeFrom(left, right, key, i, j + 1)
  }

  /** Reference merge of two whole runs. */
  function MergeSeqs<T>(left: seq<T>, right: seq<T>, key: T -> int): (r: seq<T>) {
    MergeFrom(left, right, key, 0, 0)
  }

  /** Putting `x` in front adds one occurrence of it. */
  lemma MultisetCons<T>(x: T, s: seq<T>)
    ensures multiset([x] + s) == multiset{x} + multiset(s)
  {
  }

  /** A suffix holds its first element and the suffix after it. */
  lemma MultisetSuffix<T>(s: seq<T>, i: int)
    requires 0 <= i < |s|
    ensures multiset(s[i..]) == multiset{s[i]} + multiset(s[i + 1..])
  {
    SuffixCons(s, i);
  }

  /** The merge holds exactly the remaining elements of both runs. */
  lemma {:induction false} MergeMultiset<T>(left: seq<T>, right: seq<T>, key: T -> int, i: int, j: int)
    requires 0 <= i <= |left| && 0 <= j <= |right|
    ensures multiset(MergeFrom(left, right, key, i, j)) == multiset(left[i..]) + multiset(right[j..])
    decreases (|left| - i) + (|right| - j)
  {
    if i == |left| {
      assert left[i..] == [];
    } else if j == |right| {
      assert right[j..] == [];
    } else if key(left[i]) <= key(right[j]) {
      var rest := MergeFrom(left, right, key, i + 1, j);
      assert MergeFrom(left, right, key, i, j) == [left[i]] + rest;
      MergeMultiset(left, right, key, i + 1, j);
      MultisetCons(left[i], rest);
      MultisetSuffix(left, i);
    } else {
      var rest := MergeFrom(left, right, key, i, j + 1);
      assert MergeFrom(left, right, key, i, j) == [right[j]] + rest;
      MergeMultiset(left, right, key, i, j + 1);
      MultisetCons(right[j], rest);
      MultisetSuffix(right, j);
    }
  }

  /** Every key of `s` is at least `k`. */
  ghost predicate KeysAtLeast<T>(s: seq<T>, key: T -> int, k: int) {
    forall p :: 0 <= p < |s| ==> k <= key(s[p])
  }

  /** Every key of `s` from position `i` on is at least `k`. */
  ghost predicate KeysFromAtLeast<T>(s: seq<T>, key: T -> int, i: int, k: int) {
    forall p :: 0 <= p < |s| && i <= p ==> k <= key(s[p])
  }

  /** A lower bound on the remaining keys of both runs bounds the keys of
      their merge. */
  lemma {:induction false} MergeKeysAtLeast<T>(left: seq<T>, right: seq<T>, key: T -> int, i: int, j: int, k: int)
    requires 0 <= i <= |left| && 0 <= j <= |right|
    requires KeysFromAtLeast(left, key, i, k) && KeysFromAtLeast(right, key, j, k)
    ensures KeysAtLeast(MergeFrom(left, right, key, i, j), key, k)
    decreases (|left| - i) + (|right| - j)
  {
    if i < |left| && j < |right| {
      if key(left[i]) <= key(right[j]) {
        MergeKeysAtLeast(left, right, key, i + 1, j, k);
      } else {
        MergeKeysAtLeast(left, right, key, i, j + 1, k);
      }
    }
  }

  /** A sorted sequence stays sorted under a first element no larger than its keys. */
  lemma SortedCons<T>(x: T, s: seq<T>, key: T -> int)
    requires SortedBy(s, key) && KeysAtLeast(s, key, key(x))
    ensures SortedBy([x] + s, key)
  {
  }

  /** A suffix of a sorted sequence is sorted. */
  lemma SortedSuffix<T>(s: seq<T>, key: T -> int, i: int)
    requires SortedBy(s, key) && 0 <= i <= |s|
    ensures SortedBy(s[i..], key)
  {
  }

  /** The merge of two sorted runs is sorted. */
  lemma {:induction false} MergeSorted<T>(left: seq<T>, right: seq<T>, key: T -> int, i: int, j: int)
    requires 0 <= i <= |left| && 0 <= j <= |right|
    requires SortedBy(left, key) && SortedBy(right, key)
    ensures SortedBy(MergeFrom(left, right, key, i, j), key)
    decreases (|left| - i) + (|right| - j)
  {
    if i == |left| {
      SortedSuffix(right, key, j);
    } else if j == |right| {
      SortedSuffix(left, key, i);
    } else if key(left[i]) <= key(right[j]) {
      var rest := MergeFrom(left, right, key, i + 1, j);
      assert MergeFrom(left, right, key, i, j) == [left[i]] + rest;
      MergeSorted(left, right, key, i + 1, j);
      MergeKeysAtLeast(left, right, key, i + 1, j, key(left[i]));
      SortedCons(left[i], rest, key);
    } else {
      var rest := MergeFrom(left, right, key, i, j + 1);
      assert MergeFrom(left, right, key, i, j) == [right[j]] + rest;
      MergeSorted(left, right, key, i, j + 1);
      MergeKeysAtLeast(left, right, key, i, j + 1, key(right[j]));
      SortedCons(right[j], rest, key);
    }
  }

  /** Putting `x` in front of a sequence whose elements with key `k` are
      those of `s` followed by those of `t` is putting it in front of `s`. */
  lemma StableLeftStep<T>(x: T, rest: seq<T>, s: seq<T>, t: seq<T>, key: T -> int, k: int)
    requires WithKey(rest, key, k) == WithKey(s, key, k) + WithKey(t, key, k)
    ensures WithKey([x] + rest, key, k) == WithKey([x] + s, key, k) + WithKey(t, key, k)
  {
    WithKeyCons(x, rest, key, k);
    WithKeyCons(x, s, key, k);
  }

  /** The same with `x` taken from `t`: it may go in front of the elements
      of `s` only when `s` has none with its key. */
  lemma StableRightStep<T>(x: T, rest: seq<T>, s: seq<T>, t: seq<T>, key: T -> int, k: int)
    requires WithKey(rest, key, k) == WithKey(s, key, k) + WithKey(t, key, k)
    requires key(x) == k ==> WithKey(s, key, k) == []
    ensures WithKey([x] + rest, key, k) == WithKey(s, key, k) + WithKey([x] + t, key, k)
  {
    WithKeyCons(x, rest, key, k);
    WithKeyCons(x, t, key, k);
  }

  /** No key below the one at `i` occurs from `i` on in a sorted sequence. */
  lemma SortedBelowAbsent<T>(s: seq<T>, key: T -> int, i: int, k: int)
    requires SortedBy(s, key) && 0 <= i < |s| && k < key(s[i])
    ensures WithKey(s[i..], key, k) == []
  {
    WithKeyAbsent(s[i..], key, k);
  }

  /** The merge is stable: for each key, the remaining elements of the left
      run with that key come first, in their order, then those of the right
      run. */
  lemma {:induction false} MergeStable<T>(left: seq<T>, right: seq<T>, key: T -> int, i: int, j: int, k: int)
    requires 0 <= i <= |left| && 0 <= j <= |right|
    requires SortedBy(left, key)
    ensures WithKey(MergeFrom(left, right, key, i, j), key, k) == WithKey(left[i..], key, k) + WithKey(right[j..], key, k)
    decreases (|left| - i) + (|right| - j)
  {
    if i == |left| {
      assert left[i..] == [];
    } else if j == |right| {
      assert right[j..] == [];
    } else if key(left[i]) <= key(right[j]) {
      var rest := MergeFrom(left, right, key, i + 1, j);
      assert MergeFrom(left, right, key, i, j) == [left[i]] + rest;
      MergeStable(left, right, key, i + 1, j, k);
      SuffixCons(left, i);
      StableLeftStep(left[i], rest, left[i + 1..], right[j..], key, k);
    } else {
      var rest := MergeFrom(left, right, key, i, j + 1);
      assert MergeFrom(left, right, key, i, j) == [right[j]] + rest;
      MergeStable(left, right, key, i, j + 1, k);
      if key(right[j]) == k {
        SortedBelowAbsent(left, key, i, k);
      }
      SuffixCons(right, j);
      StableRightStep(right[j], rest, left[i..], right[j + 1..], key, k);
    }
  }

  /** The merge of two sorted runs is a sorted, stable rearrangement of
      their concatenation. */
  lemma MergeSortsStably<T>(left: seq<T>, right: seq<T>, key: T -> int)
    requires SortedBy(left, key) && SortedBy(right, key)
    ensures SortedBy(MergeSeqs(left, right, key), key)
    ensures SameKeyOrder(MergeSeqs(left, right, key), left + right, key)
  {
    MergeSorted(left, right, key, 0, 0);
    assert left[0..] == left && right[0..] == right;
    forall k ensures WithKey(MergeSeqs(left, right, key), key, k) == WithKey(left + right, key, k) {
      MergeStable(left, right, key, 0, 0, k);
      WithKeyAppend(left, right, key, k);
    }
  }

  /** The merge holds exactly the elements of both runs. */
  lemma MergeSeqsMultiset<T>(left: seq<T>, right: seq<T>, key: T -> int)
    ensures multiset(MergeSeqs(left, right, key)) == multiset(left + right)
  {
    MergeMultiset(left, right, key, 0, 0);
    assert left[0..] == left && right[0..] == right;
  }

  /** While the remaining left run has no key above the first key of the
      right run, the merge takes the whole left run first. */
  lemma {:induction false} MergeOrderedFrom<T>(left: seq<T>, right: seq<T>, key: T -> int, i: int)
    requires 0 <= i <= |left|
    requires right != [] ==> forall p :: i <= p < |left| ==> key(left[p]) <= key(right[0])
    ensures MergeFrom(left, right, key, i, 0) == left[i..] + right
    decreases |left| - i
  {
    if i == |left| {
      assert left[i..] == [];
    } else if right == [] {
      assert left[i..] + right == left[i..];
    } else {
      MergeOrderedFrom(left, right, key, i + 1);
      SuffixCons(left, i);
    }
  }

  /** Merging two runs of which the second starts no lower than the first
      ends leaves them as they are. */
  lemma MergeOrderedRuns<T>(left: seq<T>, right: seq<T>, key: T -> int)
    requires SortedBy(left + right, key)
    ensures MergeSeqs(left, right, key) == left + right
  {
    if right != [] {
      forall p | 0 <= p < |left| ensures key(left[p]) <= key(right[0]) {
        assert (left + right)[p] == left[p] && (left + right)[|left|] == right[0];
      }
    }
    MergeOrderedFrom(left, right, key, 0);
    assert left[0..] == left;
  }

  /** One step of the main loop: when the left front is no larger than the
      right one it is the next element of the merge. */
  lemma TakeLeft<T>(left: seq<T>, right: seq<T>, key: T -> int, i: int, j: int, out: seq<T>, merged: seq<T>)
    requires 0 <= i < |left| && 0 <= j < |right| && key(left[i]) <= key(right[j])
    requires out + MergeFrom(left, right, key, i, j) == merged
    ensures (out + [left[i]]) + MergeFrom(left, right, key, i + 1, j) == merged
  {
  }

  /** The other step: a strictly smaller right front is the next element. */
  lemma TakeRight<T>(left: seq<T>, right: seq<T>, key: T -> int, i: int, j: int, out: seq<T>, merged: seq<T>)
    requires 0 <= i < |left| && 0 <= j < |right| && key(right[j]) < key(left[i])
    requires out + MergeFrom(left, right, key, i, j) == merged
    ensures (out + [right[j]]) + MergeFrom(left, right, key, i, j + 1) == merged
  {
  }

  /** `b` is `a` with `out` written from `l` on. */
  ghost predicate WrittenFrom<T>(a: seq<T>, b: seq<T>, l: int, out: seq<T>) {
    && 0 <= l && l + |out| <= |a| == |b|
    && (forall p :: 0 <= p < l ==> b[p] == a[p])
    && (forall p :: l <= p < l + |out| ==> b[p] == out[p - l])
    && (forall p :: l + |out| <= p < |b| ==> b[p] == a[p])
  }

  /** Writing `x` just after the written part extends it by `x`. */
  lemma WriteNext<T>(a: seq<T>, b: seq<T>, l: int, out: seq<T>, x: T)
    requires WrittenFrom(a, b, l, out) && l + |out| < |a|
    ensures WrittenFrom(a, b[l + |out| := x], l, out + [x])
  {
  }

  /** The written part of `b`, and what surrounds it. */
  lemma WrittenParts<T>(a: seq<T>, b: seq<T>, l: int, out: seq<T>)
    requires WrittenFrom(a, b, l, out)
    ensures |b| == |a| && b[..l] == a[..l] && b[l..l + |out|] == out && b[l + |out|..] == a[l + |out|..]
  {
  }

  /** Once one run is used up, the merge of what remains is the rest of the
      other run, so the written part followed by both remainders is the
      whole merge. */
  lemma FrontsDone<T>(a: seq<T>, b: seq<T>, l: int, left: seq<T>, right: seq<T>, key: T -> int,
                      i: int, j: int, out: seq<T>, merged: seq<T>)
    requires 0 <= i <= |left| && 0 <= j <= |right| && (i == |left| || j == |right|)
    requires WrittenFrom(a, b, l, out) && |out| == i + j
    requires out + MergeFrom(left, right, key, i, j) == merged && merged == MergeSeqs(left, right, key)
    ensures |b| == |a| && b[..l] == a[..l] && b[l + i + j..] == a[l + i + j..]
    ensures b[l..l + i + j] + left[i..] + right[j..] == MergeSeqs(left, right, key)
  {
    WrittenParts(a, b, l, out);
    if i == |left| {
      assert left[i..] == [];
      assert out + left[i..] + right[j..] == out + right[j..];
    } else {
      assert right[j..] == [];
      assert out + left[i..] + right[j..] == out + left[i..];
    }
  }

  /** The invariant of the main loop: `out`, the first `i + j` elements of
      the merge, is written from `l` on, and followed by the merge of what
      remains it makes up the whole merge. */
  ghost predicate FrontsInvariant<T>(a: seq<T>, key: T -> int, l: int, left: seq<T>, right: seq<T>,
                                     b: seq<T>, i: int, j: int, out: seq<T>, merged: seq<T>) {
    && 0 <= i <= |left| && 0 <= j <= |right| && |out| == i + j
    && l + |left| + |right| <= |a|
    && WrittenFrom(a, b, l, out)
    && out + MergeFrom(left, right, key, i, j) == merged
  }

  /** One iteration of the main loop: write the smaller front, the left one
      on a tie, and advance past it. */
  method FrontStep<T>(a: seq<T>, key: T -> int, l: int, left: seq<T>, right: seq<T>,
                      b: seq<T>, i: int, j: int, ghost out: seq<T>, ghost merged: seq<T>)
    returns (b': seq<T>, i': int, j': int, ghost out': seq<T>)
    requires i < |left| && j < |right|
    requires FrontsInvariant(a, key, l, left, right, b, i, j, out, merged)
    ensures FrontsInvariant(a, key, l, left, right, b', i', j', out', merged)
    ensures i' + j' == i + j + 1
  {
    var k := l + i + j;
    if key(left[i]) <= key(right[j]) {
      TakeLeft(left, right, key, i, j, out, merged);
      WriteNext(a, b, l, out, left[i]);
      b', i', j', out' := b[k := left[i]], i + 1, j, out + [left[i]];
    } else {
      TakeRight(left, right, key, i, j, out, merged);
      WriteNext(a, b, l, out, right[j]);
      b', i', j', out' := b[k := right[j]], i, j + 1, out + [right[j]];
    }
  }

  /** The main loop of the merge: while both runs have elements left, write
      the smaller front at `l + i + j`, taking the left one on a tie. On exit
      one run is used up, and what is written followed by what remains of the
      two runs is the merge of the whole runs. */
  method MergeFronts<T>(a: seq<T>, key: T -> int, l: int, left: seq<T>, right: seq<T>)
    returns (b: seq<T>, i: int, j: int)
    requires 0 <= l && l + |left| + |right| <= |a|
    ensures 0 <= i <= |left| && 0 <= j <= |right| && (i == |left| || j == |right|)
    ensures |b| == |a| && b[..l] == a[..l] && b[l + i + j..] == a[l + i + j..]
    ensures b[l..l + i + j] + left[i..] + right[j..] == MergeSeqs(left, right, key)
  {
    ghost var merged := MergeSeqs(left, right, key);
    ghost var out: seq<T> := [];
    b := a;
    i, j := 0, 0;
    while i < |left| && j < |right|
      invariant FrontsInvariant(a, key, l, left, right, b, i, j, out, merged)
      decreases |left| + |right| - (i + j)
    {
      b, i, j, out := FrontStep(a, key, l, left, right, b, i, j, out, merged);
    }
    FrontsDone(a, b, l, left, right, key, i, j, out, merged);
  }

  /** The copying loops of the merge: append `src[from..]` to the range
      `b[l..k]` written so far, leaving everything outside it as in `a`. */
  method CopyRun<T>(a: seq<T>, l: int, b: seq<T>, src: seq<T>, from: int, k: int) returns (c: seq<T>, end: int)
    requires 0 <= l <= k && 0 <= from <= |src| && k + (|src| - from) <= |b| == |a|
    requires b[..l] == a[..l] && b[k..] == a[k..]
    ensures end == k + (|src| - from)
    ensures |c| == |a| && c[..l] == a[..l] && c[end..] == a[end..]
    ensures c[l..end] == b[l..k] + src[from..]
  {
    ghost var out := b[l..k];
    c := b;
    var p, q := from, k;
    while p < |src|
      invariant from <= p <= |src| && q == k + (p - from) == l + |out|
      invariant WrittenFrom(a, c, l, out)
      invariant out == b[l..k] + src[from..p]
    {
      assert src[from..p + 1] == src[from..p] + [src[p]];
      WriteNext(a, c, l, out, src[p]);
      c := c[q := src[p]];
      out := out + [src[p]];
      p := p + 1;
      q := q + 1;
    }
    assert src[from..p] == src[from..];
    WrittenParts(a, c, l, out);
    end := q;
  }

  /** Appending the two remainders one after the other appends both. */
  lemma Spliced<T>(written: seq<T>, restLeft: seq<T>, restRight: seq<T>, withLeft: seq<T>, all: seq<T>)
    requires withLeft == written + restLeft && all == withLeft + restRight
    ensures all == written + restLeft + restRight
  {
  }

  /** What a merged range inherits from the reference merge: the same
      elements, and, from sorted runs, a sorted and stable result. */
  lemma MergedRange<T>(a: seq<T>, b: seq<T>, key: T -> int, l: int, m: int, r: int)
    requires 0 <= l <= m + 1 <= r + 1 <= |a| == |b|
    requires b[l..r + 1] == MergeSeqs(a[l..m + 1], a[m + 1..r + 1], key)
    ensures multiset(b[l..r + 1]) == multiset(a[l..r + 1])
    ensures SortedBy(a[l..m + 1], key) && SortedBy(a[m + 1..r + 1], key) ==>
      SortedBy(b[l..r + 1], key) && SameKeyOrder(b[l..r + 1], a[l..r + 1], key)
  {
    var left, right := a[l..m + 1], a[m + 1..r + 1];
    assert a[l..r + 1] == left + right;
    MergeSeqsMultiset(left, right, key);
    if SortedBy(left, key) && SortedBy(right, key) {
      MergeSortsStably(left, right, key);
    }
  }

  /** In-place merge of the adjacent runs `a[l..m]` and `a[m+1..r]` (bounds
      inclusive): copy both runs aside, write the smaller front back from
      `l` on, ties taken from the left run, then copy what is left of either
      run. */
  method Merge<T>(a: seq<T>, key: T -> int, l: int, m: int, r: int) returns (b: seq<T>)
    requires 0 <= l <= m + 1 <= r + 1 <= |a|
    ensures |b| == |a|
    ensures b[..l] == a[..l] && b[r + 1..] == a[r + 1..]
    ensures b[l..r + 1] == MergeSeqs(a[l..m + 1], a[m + 1..r + 1], key)
    ensures multiset(b[l..r + 1]) == multiset(a[l..r + 1])
    ensures SortedBy(a[l..m + 1], key) && SortedBy(a[m + 1..r + 1], key) ==>
      SortedBy(b[l..r + 1], key) && SameKeyOrder(b[l..r + 1], a[l..r + 1], key)
  {
    var nl := m - l + 1;
    var nr := r - m;
    var left := a[l..m + 1];
    var right := a[m + 1..r + 1];
    assert |left| == nl && |right| == nr;

    var fronts, i, j := MergeFronts(a, key, l, left, right);
    var withLeft, k := CopyRun(a, l, fronts, left, i, l + i + j);
    var end;
    b, end := CopyRun(a, l, withLeft, right, j, k);
    Spliced(fronts[l..l + i + j], left[i..], right[j..], withLeft[l..k], b[l..end]);
    MergedRange(a, b, key, l, m, r);
  }
}
