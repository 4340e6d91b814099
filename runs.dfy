/** Runs of equal adjacent elements in a sequence, and counting below a bound.

    Both index structures of the fiber tensor are run decompositions: a fiber
    is a maximal run of nonzeros whose outer index tuples are equal, and a
    compacted slice is a maximal run of fibers whose slice ids are equal. */
module Runs {

  /** Position j of s starts a run: it is the first position, or its element
      differs from the one before it. */
  predicate StartsRun<T(==)>(s: seq<T>, j: nat)
    requires j < |s|
  {
    j == 0 || s[j] != s[j - 1]
  }

  /** The positions in [0, k) at which a run of equal adjacent elements of s starts, in order. */
  function RunStarts<T(==)>(s: seq<T>, k: nat): (r: seq<nat>)
    requires k <= |s|
    ensures |r| <= k
    ensures k >= 1 ==> |r| >= 1 && r[0] == 0
    ensures forall i :: 0 <= i < |r| ==> r[i] < k
    decreases k
  {
    if k == 0 then []
    else if k == 1 then [0]
    else RunStarts(s, k - 1) + (if s[k - 1] != s[k - 2] then [k - 1] else [])
  }

  /** The positions j in [1, k) where s[j] differs from s[j - 1]. */
  function Changes<T(==)>(s: seq<T>, k: nat): set<nat>
    requires k <= |s|
  {
    set j: nat | 1 <= j < k && StartsRun(s, j)
  }

  /** The elements of idx, used as positions into col. */
  function Project<T>(col: seq<T>, idx: seq<nat>): (r: seq<T>)
    requires forall i :: 0 <= i < |idx| ==> idx[i] < |col|
    ensures |r| == |idx|
    ensures forall i :: 0 <= i < |idx| ==> r[i] == col[idx[i]]
  {
    seq(|idx|, i requires 0 <= i < |idx| => col[idx[i]])
  }

  ghost predicate StrictlyIncreasing(s: seq<nat>)
  {
    forall i, j :: 0 <= i < j < |s| ==> s[i] < s[j]
  }

  ghost predicate NonDecreasing(s: seq<nat>)
  {
    forall i, j :: 0 <= i < j < |s| ==> s[i] <= s[j]
  }

  /** Every element of s is below bound. */
  ghost predicate AllBelow(s: seq<nat>, bound: nat)
  {
    forall i :: 0 <= i < |s| ==> s[i] < bound
  }

  /** Extending the scanned prefix only appends run starts. */
  lemma {:induction false} RunStartsPrefix<T>(s: seq<T>, k: nat, k': nat)
    requires k <= k' <= |s|
    ensures RunStarts(s, k) <= RunStarts(s, k')
    decreases k' - k
  {
    if k < k' {
      RunStartsPrefix(s, k, k' - 1);
      var a, b, c := RunStarts(s, k), RunStarts(s, k' - 1), RunStarts(s, k');
      assert b <= c;
      assert |a| <= |c| && a == c[..|a|] by {
        assert a == b[..|a|];
        assert b == c[..|b|];
      }
    }
  }

  /** Run starts are strictly increasing. */
  lemma {:induction false} RunStartsIncreasing<T>(s: seq<T>, k: nat)
    requires k <= |s|
    ensures StrictlyIncreasing(RunStarts(s, k))
  {
    if k > 1 {
      RunStartsIncreasing(s, k - 1);
    }
  }

  /** The run starts followed by k bound the runs: they start at 0, end at k
      and strictly increase, so no run is empty and the runs tile [0, k). */
  lemma RunPointers<T>(s: seq<T>, k: nat)
    requires 1 <= k <= |s|
    ensures var ptr := RunStarts(s, k) + [k];
      ptr[0] == 0 && ptr[|ptr| - 1] == k && StrictlyIncreasing(ptr)
  {
    var starts := RunStarts(s, k);
    RunStartsIncreasing(s, k);
    var ptr := starts + [k];
    forall i, j | 0 <= i < j < |ptr| ensures ptr[i] < ptr[j] {
      if j < |starts| {
        assert ptr[i] == starts[i] && ptr[j] == starts[j];
      }
    }
  }

  /** One step of a left-to-right scan over s[..k] measured against all its
      run starts r: when c runs start before n (r[c - 1] < n and n <= r[c]),
      position n starts a run exactly when it differs from n - 1, and then it
      is run c and the run after it starts after n; otherwise run c, if any,
      starts after n. */
  lemma RunStartsNext<T>(s: seq<T>, k: nat, c: nat, n: nat)
    requires 1 <= n < k <= |s|
    requires var r := RunStarts(s, k); 1 <= c <= |r| && r[c - 1] < n && (c == |r| || n <= r[c])
    ensures var r := RunStarts(s, k);
      if s[n] != s[n - 1] then c < |r| && r[c] == n && (c + 1 == |r| || n < r[c + 1])
      else c == |r| || n < r[c]
  {
    var r := RunStarts(s, k);
    RunStartsExactly(s, k, n);
    RunStartsIncreasing(s, k);
    if s[n] != s[n - 1] {
      var j :| 0 <= j < |r| && r[j] == n;
    }
  }

  /** A position below k is a run start exactly when it starts a run. */
  lemma {:induction false} RunStartsExactly<T>(s: seq<T>, k: nat, j: nat)
    requires j < k <= |s|
    ensures j in RunStarts(s, k) <==> StartsRun(s, j)
  {
    if k > 1 && j < k - 1 {
      RunStartsExactly(s, k - 1, j);
    }
  }

  /** One past the last position of run f among the runs of s[..k]. */
  function RunEnd<T(==)>(s: seq<T>, k: nat, f: nat): (e: nat)
    requires k <= |s| && f < |RunStarts(s, k)|
    ensures e <= k
  {
    if f + 1 < |RunStarts(s, k)| then RunStarts(s, k)[f + 1] else k
  }

  /** Every position inside run f holds the run's first element. */
  lemma {:induction false} RunConstant<T>(s: seq<T>, k: nat, f: nat, j: nat)
    requires k <= |s| && f < |RunStarts(s, k)|
    requires RunStarts(s, k)[f] <= j < RunEnd(s, k, f)
    ensures s[j] == s[RunStarts(s, k)[f]]
    decreases j
  {
    var r := RunStarts(s, k);
    if j > r[f] {
      RunStartsIncreasing(s, k);
      RunStartsExactly(s, k, j);
      assert j !in r;
      RunConstant(s, k, f, j - 1);
    }
  }

  /** The first elements of two consecutive runs differ. */
  lemma AdjacentRunsDiffer<T>(s: seq<T>, k: nat, f: nat)
    requires k <= |s| && f + 1 < |RunStarts(s, k)|
    ensures s[RunStarts(s, k)[f]] != s[RunStarts(s, k)[f + 1]]
  {
    var r := RunStarts(s, k);
    var j := r[f + 1];
    RunStartsIncreasing(s, k);
    RunStartsExactly(s, k, j);
    assert r[f] <= j - 1 < RunEnd(s, k, f);
    RunConstant(s, k, f, j - 1);
  }

  /** The number of runs is one more than the number of changes. */
  lemma {:induction false} RunCount<T>(s: seq<T>, k: nat)
    requires 1 <= k <= |s|
    ensures |RunStarts(s, k)| == 1 + |Changes(s, k)|
  {
    if k == 1 {
      assert Changes(s, k) == {};
    } else {
      RunCount(s, k - 1);
      if s[k - 1] != s[k - 2] {
        assert Changes(s, k) == Changes(s, k - 1) + {k - 1};
      } else {
        assert Changes(s, k) == Changes(s, k - 1);
      }
    }
  }

  /** Reading a non-decreasing sequence at increasing positions gives a non-decreasing sequence. */
  lemma ProjectNonDecreasing(col: seq<nat>, idx: seq<nat>)
    requires forall i :: 0 <= i < |idx| ==> idx[i] < |col|
    requires NonDecreasing(col) && StrictlyIncreasing(idx)
    ensures NonDecreasing(Project(col, idx))
  {
  }

  /** Adjacent order gives order between any two positions. */
  lemma {:induction false} AdjacentNonDecreasing(s: seq<nat>)
    requires forall n :: 1 <= n < |s| ==> s[n - 1] <= s[n]
    ensures NonDecreasing(s)
  {
    if |s| > 1 {
      var t := s[..|s| - 1];
      AdjacentNonDecreasing(t);
      forall i, j | 0 <= i < j < |s| ensures s[i] <= s[j] {
        if j < |s| - 1 {
          assert s[i] == t[i] && s[j] == t[j];
        } else if i < j - 1 {
          assert s[i] == t[i] && s[j - 1] == t[j - 1];
        }
      }
    }
  }

  /** The number of elements of o below x. */
  function CountBelow(o: seq<nat>, x: nat): (c: nat)
    ensures c <= |o|
  {
    if |o| == 0 then 0
    else CountBelow(o[..|o| - 1], x) + (if o[|o| - 1] < x then 1 else 0)
  }

  /** In a non-decreasing sequence, the count below x is the position where x would be inserted. */
  lemma {:induction false} CountBelowSorted(o: seq<nat>, x: nat, k: nat)
    requires NonDecreasing(o) && k <= |o|
    requires k == 0 || o[k - 1] < x
    requires k == |o| || x <= o[k]
    ensures CountBelow(o, x) == k
  {
    if |o| > 0 {
      var t := o[..|o| - 1];
      if k == |o| {
        CountBelowSorted(t, x, k - 1);
      } else {
        assert x <= o[|o| - 1];
        CountBelowSorted(t, x, k);
      }
    }
  }

  /** Counting below a larger bound counts at least as many. */
  lemma {:induction false} CountBelowMonotone(o: seq<nat>, x: nat, y: nat)
    requires x <= y
    ensures CountBelow(o, x) <= CountBelow(o, y)
  {
    if |o| > 0 {
      CountBelowMonotone(o[..|o| - 1], x, y);
    }
  }

  /** A value that does not occur adds nothing to the count. */
  lemma {:induction false} CountBelowAbsent(o: seq<nat>, x: nat)
    requires forall i :: 0 <= i < |o| ==> o[i] != x
    ensures CountBelow(o, x + 1) == CountBelow(o, x)
  {
    if |o| > 0 {
      CountBelowAbsent(o[..|o| - 1], x);
    }
  }
}
