/** Top-down merge sort on an inclusive index range `[l, r]` of a sequence,
    in a single-threaded and a forking variant.

    The program sorts a shared vector in place; here the vector is a value
    that each call receives and returns. */
module MergeSort {
  import opened Ordering
  import opened Merging

  /** Ranges of at most this many elements are never forked. */
  const SequentialThreshold: int := 1000

  /** The midpoint used to split `[l, r]` into `[l, m]` and `[m + 1, r]`:
      both halves are non-empty, so the recursion shrinks, and the left half
      has the extra element when the length is odd. */
  function Mid(l: int, r: int): (m: int)
    requires l < r
    ensures l <= m < r
    ensures 0 <= (m - l + 1) - (r - m) <= 1
  {
    l + (r - l) / 2
  }

  /** `b` is `a` with the range `[l, r]` sorted stably and nothing else
      changed. */
  ghost predicate SortsRange<T>(a: seq<T>, b: seq<T>, key: T -> int, l: int, r: int) {
    && 0 <= l <= r < |a| && |b| == |a|
    && b[..l] == a[..l] && b[r + 1..] == a[r + 1..]
    && SortedBy(b[l..r + 1], key)
    && multiset(b[l..r + 1]) == multiset(a[l..r + 1])
    && SameKeyOrder(b[l..r + 1], a[l..r + 1], key)
  }

  /** A range that is already sorted is sorted by leaving it alone; in
      particular a one-element range. */
  lemma SortedRangeStays<T>(a: seq<T>, key: T -> int, l: int, r: int)
    requires 0 <= l <= r < |a| && SortedBy(a[l..r + 1], key)
    ensures SortsRange(a, a, key, l, r)
  {
  }

  /** A stable sort of a range has exactly one outcome. */
  lemma SortsRangeUnique<T>(a: seq<T>, b1: seq<T>, b2: seq<T>, key: T -> int, l: int, r: int)
    requires SortsRange(a, b1, key, l, r) && SortsRange(a, b2, key, l, r)
    ensures b1 == b2
  {
    var s1, s2, s := b1[l..r + 1], b2[l..r + 1], a[l..r + 1];
    SameKeyOrderTrans(s1, s, s2, key);
    SortedSameKeyOrderUnique(s1, s2, key);
    assert b1 == b1[..l] + s1 + b1[r + 1..];
    assert b2 == b2[..l] + s2 + b2[r + 1..];
  }

  /** Sorting an already sorted range changes nothing. */
  lemma SortedInputUnchanged<T>(a: seq<T>, b: seq<T>, key: T -> int, l: int, r: int)
    requires SortsRange(a, b, key, l, r) && SortedBy(a[l..r + 1], key)
    ensures b == a
  {
    SortedRangeStays(a, key, l, r);
    SortsRangeUnique(a, b, a, key, l, r);
  }

  /** Sorting twice gives what sorting once gives. */
  lemma SortIdempotent<T>(a: seq<T>, b: seq<T>, c: seq<T>, key: T -> int, l: int, r: int)
    requires SortsRange(a, b, key, l, r) && SortsRange(b, c, key, l, r)
    ensures c == b
  {
    SortedInputUnchanged(b, c, key, l, r);
  }

  /** Sorting `[l, m]`, then `[m + 1, r]`, then merging the two sorted
      halves sorts `[l, r]`. */
  lemma ComposeHalves<T>(a: seq<T>, b1: seq<T>, b2: seq<T>, b: seq<T>, key: T -> int, l: int, m: int, r: int)
    requires l <= m < r
    requires SortsRange(a, b1, key, l, m) && SortsRange(b1, b2, key, m + 1, r)
    requires |b| == |b2| && b[..l] == b2[..l] && b[r + 1..] == b2[r + 1..]
    requires multiset(b[l..r + 1]) == multiset(b2[l..r + 1])
    requires SortedBy(b2[l..m + 1], key) && SortedBy(b2[m + 1..r + 1], key) ==>
      SortedBy(b[l..r + 1], key) && SameKeyOrder(b[l..r + 1], b2[l..r + 1], key)
    ensures SortsRange(a, b, key, l, r)
  {
    // the second sort leaves the first half alone, and the first sort the second half
    assert b2[l..m + 1] == b2[..m + 1][l..] == b1[..m + 1][l..] == b1[l..m + 1];
    assert b1[m + 1..r + 1] == b1[m + 1..][..r - m] == a[m + 1..][..r - m] == a[m + 1..r + 1];
    assert b2[..l] == b2[..m + 1][..l] == b1[..m + 1][..l] == b1[..l];
    assert b1[r + 1..] == b1[m + 1..][r - m..] == a[m + 1..][r - m..] == a[r + 1..];
    var lo, hi := b2[l..m + 1], b2[m + 1..r + 1];
    var loIn, hiIn := a[l..m + 1], a[m + 1..r + 1];
    assert b2[l..r + 1] == lo + hi;
    assert a[l..r + 1] == loIn + hiIn;
    SameKeyOrderAppend(lo, hi, loIn, hiIn, key);
    SameKeyOrderTrans(b[l..r + 1], lo + hi, loIn + hiIn, key);
  }

  /** Single-threaded merge sort of `[l, r]`: nothing to do for fewer than
      two elements; otherwise sort both halves and merge them. */
  method MergeSortSt<T>(a: seq<T>, key: T -> int, l: int, r: int) returns (b: seq<T>)
    requires l < r ==> 0 <= l && r < |a|
    ensures |b| == |a|
    ensures l >= r ==> b == a
    ensures 0 <= l <= r < |a| ==> SortsRange(a, b, key, l, r)
    decreases r - l
  {
    if l < r {
      var m := Mid(l, r);
      var b1 := MergeSortSt(a, key, l, m);
      var b2 := MergeSortSt(b1, key, m + 1, r);
      b := Merge(b2, key, l, m, r);
      ComposeHalves(a, b1, b2, b, key, l, m, r);
    } else {
      b := a;
      if 0 <= l <= r < |a| {
        SortedRangeStays(a, key, l, r);
      }
    }
  }

  /** The scheduling parameters of the forking sort: ranges longer than
      `threshold` may be forked while the active-task counter is below
      `hardwareConcurrency`. */
  datatype Config = Config(threshold: int, hardwareConcurrency: nat)

  /** The configuration the program runs with, given the platform's count of
      hardware threads. */
  function ProgramConfig(hardwareConcurrency: nat): (cfg: Config) {
    Config(SequentialThreshold, hardwareConcurrency)
  }

  /** Whether the call on `[l, r]` forks its two halves, given the value
      `observed` its read of the active-task counter returned. The counter is
      a signed value compared with an unsigned one, so a negative reading
      never lets the call fork; neither does a platform that reports zero
      hardware threads. */
  function ShouldFork(cfg: Config, l: int, r: int, observed: int): (fork: bool)
    ensures fork ==> r - l + 1 > cfg.threshold
    ensures fork ==> 0 <= observed < cfg.hardwareConcurrency
  {
    r - l + 1 > cfg.threshold && 0 <= observed < cfg.hardwareConcurrency
  }

  /** Two tasks that sort the disjoint halves of `[l, r]`, both starting from
      `a`, joined into one sequence: the left task's part up to `m`, the right
      task's from `m + 1` on. The result is what sorting the halves one after
      the other gives. */
  lemma JoinTasks<T>(a: seq<T>, leftTask: seq<T>, rightTask: seq<T>, key: T -> int, l: int, m: int, r: int)
    requires l <= m < r
    requires SortsRange(a, leftTask, key, l, m) && SortsRange(a, rightTask, key, m + 1, r)
    ensures SortsRange(leftTask, leftTask[..m + 1] + rightTask[m + 1..], key, m + 1, r)
  {
    var joined := leftTask[..m + 1] + rightTask[m + 1..];
    assert joined[..m + 1] == leftTask[..m + 1];
    assert joined[m + 1..r + 1] == rightTask[m + 1..r + 1];
    assert joined[r + 1..] == rightTask[r + 1..];
    // the left task leaves the right half as it found it
    assert leftTask[m + 1..r + 1] == leftTask[m + 1..][..r - m] == a[m + 1..][..r - m] == a[m + 1..r + 1];
    assert leftTask[r + 1..] == leftTask[m + 1..][r - m..] == a[m + 1..][r - m..] == a[r + 1..];
  }

  /** Merge sort that may run the two halves of a call as concurrent tasks.
      A call forks when `ShouldFork` holds for the counter value it reads,
      which `observe` supplies: other tasks change the counter between any
      two steps of this one, so the reading is not determined by `counter`.
      Forking reserves two slots on the counter, runs both halves and
      releases the slots once both have finished; otherwise the halves run
      one after the other. Both ways the sorted halves are then merged. */
  method MergeSortMt<T>(a: seq<T>, key: T -> int, l: int, r: int, cfg: Config,
                        observe: (int, int, int) -> int, counter: int)
    returns (b: seq<T>, counterOut: int)
    requires l < r ==> 0 <= l && r < |a|
    ensures |b| == |a|
    ensures l >= r ==> b == a
    ensures 0 <= l <= r < |a| ==> SortsRange(a, b, key, l, r)
    ensures counterOut == counter
    decreases r - l
  {
    counterOut := counter;
    if l < r {
      var m := Mid(l, r);
      var halves: seq<T>;
      var first: seq<T>;
      if ShouldFork(cfg, l, r, observe(l, r, counterOut)) {
        counterOut := counterOut + 2;
        var leftTask, rightTask;
        leftTask, counterOut := MergeSortMt(a, key, l, m, cfg, observe, counterOut);
        rightTask, counterOut := MergeSortMt(a, key, m + 1, r, cfg, observe, counterOut);
        halves := leftTask[..m + 1] + rightTask[m + 1..];
        counterOut := counterOut - 2;
        JoinTasks(a, leftTask, rightTask, key, l, m, r);
        first := leftTask;
      } else {
        first, counterOut := MergeSortMt(a, key, l, m, cfg, observe, counterOut);
        halves, counterOut := MergeSortMt(first, key, m + 1, r, cfg, observe, counterOut);
      }
      b := Merge(halves, key, l, m, r);
      ComposeHalves(a, first, halves, b, key, l, m, r);
    } else {
      b := a;
      if 0 <= l <= r < |a| {
        SortedRangeStays(a, key, l, r);
      }
    }
  }

  /** Whatever forking decisions the counter readings lead to, the forking
      sort leaves the sequence exactly as the single-threaded sort does, and
      the counter where it found it. */
  method MtMatchesSt<T>(a: seq<T>, key: T -> int, l: int, r: int, cfg: Config,
                        observe: (int, int, int) -> int, counter: int)
    returns (mt: seq<T>, st: seq<T>, counterOut: int)
    requires l < r ==> 0 <= l && r < |a|
    ensures mt == st
    ensures counterOut == counter
    ensures |st| == |a| && (0 <= l <= r < |a| ==> SortsRange(a, st, key, l, r))
  {
    mt, counterOut := MergeSortMt(a, key, l, r, cfg, observe, counter);
    st := MergeSortSt(a, key, l, r);
    if 0 <= l <= r < |a| {
      SortsRangeUnique(a, mt, st, key, l, r);
    }
  }

  /** The tail of a sequence holds its elements but the first. */
  lemma MultisetTail<T>(s: seq<T>)
    requires s != []
    ensures multiset(s[1..]) == multiset(s) - multiset{s[0]}
  {
    MultisetSuffix(s, 0);
    assert s[0..] == s;
  }

  /** Two sorted sequences of the same integers start with the same one,
      their minimum. */
  lemma SortedIntsFirst(s: seq<int>, t: seq<int>)
    requires SortedBy(s, Identity) && SortedBy(t, Identity)
    requires multiset(s) == multiset(t) && s != []
    ensures t != [] && s[0] == t[0]
  {
    assert s[0] in multiset(t);
    var p :| 0 <= p < |t| && t[p] == s[0];
    assert t[0] in multiset(s);
    var q :| 0 <= q < |s| && s[q] == t[0];
    assert Identity(t[0]) <= Identity(t[p]) && Identity(s[0]) <= Identity(s[q]);
  }

  /** For plain integers, sortedness and the multiset alone fix the
      outcome. */
  lemma {:induction false} SortedIntsUnique(s: seq<int>, t: seq<int>)
    requires SortedBy(s, Identity) && SortedBy(t, Identity)
    requires multiset(s) == multiset(t)
    ensures s == t
    decreases |s|
  {
    if s == [] {
      assert |t| == |multiset(t)| == |multiset(s)| == 0;
    } else {
      SortedIntsFirst(s, t);
      MultisetTail(s);
      MultisetTail(t);
      SortedTail(s, Identity);
      SortedTail(t, Identity);
      SortedIntsUnique(s[1..], t[1..]);
      SameHeadAndTail(s, t);
    }
  }

  /** The program's comparison of the two strategies: sort a copy of the
      same integers with each, over the whole sequence, with the counter
      starting at zero and the program's threshold. The upper bound
      `|arr| - 1` is `-1` for an empty sequence, which both sorts treat as an
      empty range. Both strategies give the same sorted permutation, whatever
      the forking decisions were, and the counter is back at zero. */
  method CompareStrategies(arr: seq<int>, hardwareConcurrency: nat, observe: (int, int, int) -> int)
    returns (mt: seq<int>, st: seq<int>, counter: int)
    ensures mt == st
    ensures counter == 0
    ensures |mt| == |arr| && SortedBy(mt, Identity) && multiset(mt) == multiset(arr)
  {
    var r := |arr| - 1;
    mt, st, counter := MtMatchesSt(arr, Identity, 0, r, ProgramConfig(hardwareConcurrency), observe, 0);
    if |arr| > 0 {
      assert st[0..r + 1] == st && arr[0..r + 1] == arr;
    }
  }

  /** The example's expected output is sorted ... */
  lemma ExampleSorted()
    ensures SortedBy([1, 2, 3, 5, 8, 9], Identity)
  {
  }

  /** ... and holds the elements of its input. */
  lemma ExamplePermutation()
    ensures multiset([1, 2, 3, 5, 8, 9]) == multiset([5, 3, 8, 1, 9, 2])
  {
  }

  /** A small run of both strategies with the threshold lowered to 2, so
      that every call with more than two elements may fork. */
  method SortExample(hardwareConcurrency: nat, observe: (int, int, int) -> int)
    returns (mt: seq<int>, st: seq<int>, counter: int)
    ensures mt == [1, 2, 3, 5, 8, 9] && st == mt
    ensures counter == 0
  {
    var arr := [5, 3, 8, 1, 9, 2];
    mt, st, counter := MtMatchesSt(arr, Identity, 0, 5, Config(2, hardwareConcurrency), observe, 0);
    assert st[0..6] == st && arr[0..6] == arr;
    ExampleSorted();
    ExamplePermutation();
    assert SortedBy(st, Identity) && multiset(st) == multiset(arr);
    SortedIntsUnique(st, [1, 2, 3, 5, 8, 9]);
  }
}
