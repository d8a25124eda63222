/** Orderings on sequences of keyed elements.

    The sorted program works on `int`s compared with `<=`; the model sorts
    elements of any type `T` by an integer key, so that the relative order of
    equal keys (stability) is observable. The program's own case is `T = int`
    with the identity key.
 */
module Ordering {

  /** `s` is non-decreasing by key. */
  ghost predicate SortedBy<T>(s: seq<T>, key: T -> int) {
    forall i, j :: 0 <= i < j < |s| ==> key(s[i]) <= key(s[j])
  }

  /** The key of a plain integer is the integer itself. */
  function Identity(x: int): (key: int) {
    x
  }

  /** The elements of `s` whose key is `k`, in the order they appear in `s`. */
  function WithKey<T>(s: seq<T>, key: T -> int, k: int): (r: seq<T>)
    decreases |s|
  {
    if s == [] then []
    else (if key(s[0]) == k then [s[0]] else []) + WithKey(s[1..], key, k)
  }

  /** `s` and `t` hold, for every key, the same elements with that key in the
      same relative order: `t` is a stable rearrangement of `s`. */
  ghost predicate SameKeyOrder<T>(s: seq<T>, t: seq<T>, key: T -> int) {
    forall k :: WithKey(s, key, k) == WithKey(t, key, k)
  }

  /** A non-empty suffix is its first element followed by the rest. */
  lemma SuffixCons<T>(s: seq<T>, i: int)
    requires 0 <= i < |s|
    ensures s[i..] == [s[i]] + s[i + 1..]
  {
  }

  /** Sequences agreeing on their first element and their tail are equal. */
  lemma SameHeadAndTail<T>(s: seq<T>, t: seq<T>)
    requires s != [] && t != [] && s[0] == t[0] && s[1..] == t[1..]
    ensures s == t
  {
    assert s == [s[0]] + s[1..] && t == [t[0]] + t[1..];
  }

  /** A sorted sequence's tail is sorted. */
  lemma SortedTail<T>(s: seq<T>, key: T -> int)
    requires SortedBy(s, key) && s != []
    ensures SortedBy(s[1..], key)
  {
  }

  /** Unfolding `WithKey` on a sequence with a known first element. */
  lemma WithKeyCons<T>(x: T, s: seq<T>, key: T -> int, k: int)
    ensures WithKey([x] + s, key, k) == (if key(x) == k then [x] else []) + WithKey(s, key, k)
  {
    assert ([x] + s)[0] == x;
    assert ([x] + s)[1..] == s;
  }

  lemma {:induction false} WithKeyAppend<T>(s: seq<T>, t: seq<T>, key: T -> int, k: int)
    ensures WithKey(s + t, key, k) == WithKey(s, key, k) + WithKey(t, key, k)
    decreases |s|
  {
    if s == [] {
      assert s + t == t;
    } else {
      var c := if key(s[0]) == k then [s[0]] else [];
      assert (s + t)[0] == s[0];
      assert (s + t)[1..] == s[1..] + t;
      assert WithKey(s + t, key, k) == c + WithKey(s[1..] + t, key, k);
      WithKeyAppend(s[1..], t, key, k);
      assert WithKey(s, key, k) == c + WithKey(s[1..], key, k);
    }
  }

  /** Stable rearrangements compose. */
  lemma SameKeyOrderTrans<T>(s: seq<T>, t: seq<T>, u: seq<T>, key: T -> int)
    requires SameKeyOrder(s, t, key) && SameKeyOrder(t, u, key)
    ensures SameKeyOrder(s, u, key)
  {
  }

  /** Stable rearrangements of two parts give one of the whole. */
  lemma SameKeyOrderAppend<T>(s1: seq<T>, s2: seq<T>, t1: seq<T>, t2: seq<T>, key: T -> int)
    requires SameKeyOrder(s1, t1, key) && SameKeyOrder(s2, t2, key)
    ensures SameKeyOrder(s1 + s2, t1 + t2, key)
  {
    forall k ensures WithKey(s1 + s2, key, k) == WithKey(t1 + t2, key, k) {
      WithKeyAppend(s1, s2, key, k);
      WithKeyAppend(t1, t2, key, k);
    }
  }

  /** A sequence in which no element has key `k` contributes nothing to `k`. */
  lemma {:induction false} WithKeyAbsent<T>(s: seq<T>, key: T -> int, k: int)
    requires forall i :: 0 <= i < |s| ==> key(s[i]) != k
    ensures WithKey(s, key, k) == []
    decreases |s|
  {
    if s != [] {
      WithKeyAbsent(s[1..], key, k);
    }
  }

  /** In a sorted sequence, every present key is at least the first key. */
  lemma {:induction false} WithKeyPresent<T>(s: seq<T>, key: T -> int, k: int)
    requires SortedBy(s, key)
    requires WithKey(s, key, k) != []
    ensures s != [] && key(s[0]) <= k
    decreases |s|
  {
    if s != [] && key(s[0]) != k {
      SortedTail(s, key);
      WithKeyPresent(s[1..], key, k);
      assert s[1..][0] == s[1];
    }
  }

  /** Two sorted sequences with the same per-key order start with the same
      element. */
  lemma SameFirst<T>(s: seq<T>, t: seq<T>, key: T -> int)
    requires SortedBy(s, key) && SortedBy(t, key) && SameKeyOrder(s, t, key)
    requires s != []
    ensures t != [] && s[0] == t[0]
  {
    var k := key(s[0]);
    assert WithKey(s, key, k) == [s[0]] + WithKey(s[1..], key, k);
    assert WithKey(t, key, k) == WithKey(s, key, k);
    WithKeyPresent(t, key, k);
    var k' := key(t[0]);
    assert WithKey(t, key, k') == [t[0]] + WithKey(t[1..], key, k');
    assert WithKey(s, key, k') == WithKey(t, key, k');
    WithKeyPresent(s, key, k');
    assert k == k';
    assert WithKey(s, key, k)[0] == s[0] && WithKey(t, key, k)[0] == t[0];
  }

  /** Dropping the same first element keeps the per-key order. */
  lemma SameKeyOrderTails<T>(s: seq<T>, t: seq<T>, key: T -> int)
    requires s != [] && t != [] && s[0] == t[0] && SameKeyOrder(s, t, key)
    ensures SameKeyOrder(s[1..], t[1..], key)
  {
    forall k ensures WithKey(s[1..], key, k) == WithKey(t[1..], key, k) {
      var c := if key(s[0]) == k then [s[0]] else [];
      assert WithKey(s, key, k) == c + WithKey(s[1..], key, k);
      assert WithKey(t, key, k) == c + WithKey(t[1..], key, k);
      assert WithKey(s[1..], key, k) == WithKey(s, key, k)[|c|..];
      assert WithKey(t[1..], key, k) == WithKey(t, key, k)[|c|..];
    }
  }

  /** Sorting stably has exactly one outcome: two sorted sequences with the
      same per-key order are equal. */
  lemma {:induction false} SortedSameKeyOrderUnique<T>(s: seq<T>, t: seq<T>, key: T -> int)
    requires SortedBy(s, key) && SortedBy(t, key)
    requires SameKeyOrder(s, t, key)
    ensures s == t
    decreases |s|
  {
    if s == [] {
      if t != [] {
        SameFirst(t, s, key);
      }
    } else {
      SameFirst(s, t, key);
      SameKeyOrderTails(s, t, key);
      SortedTail(s, key);
      SortedTail(t, key);
      SortedSameKeyOrderUnique(s[1..], t[1..], key);
      SameHeadAndTail(s, t);
    }
  }
}
