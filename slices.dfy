/** The dense slice pointer of the untiled layout (src/ftensor.c,
    __create_sliceptr): one entry per outer index, counting the fibers
    that come before the slice. */
module Slices {
  import opened Runs

  /** sptr over the outer indices o of the fibers, for an outer mode of size
      dim: entry s is the number of fibers whose outer index is below s. */
  function SlicePtr(o: seq<nat>, dim: nat): (ptr: seq<nat>)
    ensures |ptr| == dim + 1
  {
    seq(dim + 1, s requires 0 <= s <= dim => CountBelow(o, s))
  }

  /** In a non-decreasing sequence, position i holds a value below x exactly
      when i is below the count of values under x. */
  lemma {:induction false} CountBelowSplit(o: seq<nat>, x: nat, i: nat)
    requires NonDecreasing(o) && i < |o|
    ensures o[i] < x <==> i < CountBelow(o, x)
  {
    var t := o[..|o| - 1];
    var last := o[|o| - 1];
    if i == |o| - 1 {
      if last < x {
        if |t| > 0 {
          CountBelowSorted(t, x, |t|);
        }
      }
    } else {
      assert o[i] == t[i];
      CountBelowSplit(t, x, i);
    }
  }

  lemma {:induction false} CountBelowZero(o: seq<nat>)
    ensures CountBelow(o, 0) == 0
  {
    if |o| > 0 {
      CountBelowZero(o[..|o| - 1]);
    }
  }

  /** sptr starts at 0, ends at the fiber count and never decreases. */
  lemma SlicePtrShape(o: seq<nat>, dim: nat)
    requires NonDecreasing(o) && AllBelow(o, dim)
    ensures SlicePtr(o, dim)[0] == 0
    ensures SlicePtr(o, dim)[dim] == |o|
    ensures NonDecreasing(SlicePtr(o, dim))
  {
    var ptr := SlicePtr(o, dim);
    CountBelowZero(o);
    CountBelowSorted(o, dim, |o|);
    forall i, j | 0 <= i < j < |ptr| ensures ptr[i] <= ptr[j] {
      CountBelowMonotone(o, i, j);
    }
  }

  /** The fibers sptr[s] .. sptr[s + 1] - 1 are exactly the fibers of slice s. */
  lemma SliceFibers(o: seq<nat>, dim: nat, s: nat, f: nat)
    requires NonDecreasing(o) && s < dim && f < |o|
    ensures SlicePtr(o, dim)[s] <= f < SlicePtr(o, dim)[s + 1] <==> o[f] == s
  {
    CountBelowSplit(o, s, f);
    CountBelowSplit(o, s + 1, f);
  }

  /** A slice is empty, sptr[s] == sptr[s + 1], exactly when no fiber has outer index s. */
  lemma SliceEmpty(o: seq<nat>, dim: nat, s: nat)
    requires NonDecreasing(o) && s < dim
    ensures SlicePtr(o, dim)[s] == SlicePtr(o, dim)[s + 1] <==> s !in o
  {
    var ptr := SlicePtr(o, dim);
    if s in o {
      var f :| 0 <= f < |o| && o[f] == s;
      SliceFibers(o, dim, s, f);
    } else {
      CountBelowAbsent(o, s);
    }
  }
}
