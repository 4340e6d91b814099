/** Slabs of the tiled layout (src/ftensor.c, __create_slabptr): the
    non-empty slices, compacted, are grouped by slab = slice id / SlabWidth. */
module Slabs {
  import opened Runs

  /** TILE_SIZES[0] (src/tile.h): the outer-mode extent of one slab. */
  const SlabWidth: nat := 1024

  /** The slabs allocated for an outer mode of size dim: ceil(dim / SlabWidth). */
  function AllocatedSlabs(dim: nat): nat
  {
    dim / SlabWidth + (if dim % SlabWidth != 0 then 1 else 0)
  }

  /** Slab ids never decrease along s: the order sorting (or tiling) leaves the outer mode in. */
  ghost predicate SlabOrdered(s: seq<nat>)
  {
    forall i, j :: 0 <= i < j < |s| ==> s[i] / SlabWidth <= s[j] / SlabWidth
  }

  /** The largest slab id among the compacted slices 1 .. k - 1 (0 when
      there are none): slice 0 is never looked at. */
  function TopSlab(q: seq<nat>, k: nat): nat
    requires k <= |q|
    decreases k
  {
    if k <= 1 then 0
    else
      var t := TopSlab(q, k - 1);
      if q[k - 1] / SlabWidth > t then q[k - 1] / SlabWidth else t
  }

  /** The number of slabs the builder reports for compacted slice ids q. */
  function SlabCount(q: seq<nat>): nat
    requires |q| >= 1
  {
    TopSlab(q, |q|) + 1
  }

  /** The least position p in [from, |q|) whose slab is at least b, or |q| when there is none. */
  function FirstInSlab(q: seq<nat>, b: nat, from: nat): (p: nat)
    requires from <= |q|
    ensures from <= p <= |q|
    decreases |q| - from
  {
    if from == |q| then |q|
    else if q[from] / SlabWidth >= b then from
    else FirstInSlab(q, b, from + 1)
  }

  /** slabptr over compacted slice ids q: entry 0 is 0, entry b >= 1 is the
      first compacted slice from position 1 on whose slab is at least b. */
  function SlabPtr(q: seq<nat>): (ptr: seq<nat>)
    requires |q| >= 1
    ensures |ptr| == SlabCount(q) + 1
  {
    [0] + seq(SlabCount(q), b requires 0 <= b < SlabCount(q) => FirstInSlab(q, b + 1, 1))
  }

  /** An index below dim lies in one of the allocated slabs. */
  lemma SlabBelowAllocated(x: nat, dim: nat)
    requires x < dim
    ensures x / SlabWidth < AllocatedSlabs(dim)
  {
    var q, r := x / SlabWidth, x % SlabWidth;
    var Q, R := dim / SlabWidth, dim % SlabWidth;
    assert x == SlabWidth * q + r && dim == SlabWidth * Q + R;
  }

  /** Reading slab-ordered ids at increasing positions keeps them slab-ordered. */
  lemma ProjectSlabOrdered(col: seq<nat>, idx: seq<nat>)
    requires forall i :: 0 <= i < |idx| ==> idx[i] < |col|
    requires SlabOrdered(col) && StrictlyIncreasing(idx)
    ensures SlabOrdered(Project(col, idx))
  {
  }

  /** Non-decreasing ids are slab-ordered. */
  lemma NonDecreasingSlabOrdered(s: seq<nat>)
    requires NonDecreasing(s)
    ensures SlabOrdered(s)
  {
    forall i, j | 0 <= i < j < |s| ensures s[i] / SlabWidth <= s[j] / SlabWidth {
      DivMonotone(s[i], s[j]);
    }
  }

  lemma DivMonotone(x: nat, y: nat)
    requires x <= y
    ensures x / SlabWidth <= y / SlabWidth
  {
  }

  /** The top slab bounds the slab of every slice 1 .. k - 1. */
  lemma {:induction false} TopSlabBounds(q: seq<nat>, k: nat)
    requires k <= |q|
    ensures forall i :: 1 <= i < k ==> q[i] / SlabWidth <= TopSlab(q, k)
  {
    if k > 1 {
      TopSlabBounds(q, k - 1);
    }
  }

  /** FirstInSlab finds the least position from `from` on whose slab reaches b. */
  lemma {:induction false} FirstInSlabLeast(q: seq<nat>, b: nat, from: nat)
    requires from <= |q|
    ensures var p := FirstInSlab(q, b, from);
      && (forall i :: from <= i < p ==> q[i] / SlabWidth < b)
      && (p < |q| ==> q[p] / SlabWidth >= b)
    decreases |q| - from
  {
    if from < |q| && q[from] / SlabWidth < b {
      FirstInSlabLeast(q, b, from + 1);
    }
  }

  /** The top slab is one of the slabs of slices 1 .. k - 1, or 0. */
  lemma {:induction false} TopSlabBelow(q: seq<nat>, k: nat, dim: nat)
    requires 1 <= k <= |q| && AllBelow(q, dim)
    ensures TopSlab(q, k) < AllocatedSlabs(dim)
  {
    if k == 1 {
      SlabBelowAllocated(q[0], dim);
    } else {
      TopSlabBelow(q, k - 1, dim);
      SlabBelowAllocated(q[k - 1], dim);
    }
  }

  /** Scanning further never lowers the top slab. */
  lemma {:induction false} TopSlabMonotone(q: seq<nat>, k: nat, k': nat)
    requires k <= k' <= |q|
    ensures TopSlab(q, k) <= TopSlab(q, k')
    decreases k' - k
  {
    if k < k' {
      TopSlabMonotone(q, k, k' - 1);
    }
  }

  /** For slab-ordered ids the top slab is the slab of the last slice. */
  lemma {:induction false} TopSlabOrdered(q: seq<nat>, k: nat)
    requires 2 <= k <= |q| && SlabOrdered(q)
    ensures TopSlab(q, k) == q[k - 1] / SlabWidth
  {
    if k > 2 {
      TopSlabOrdered(q, k - 1);
    }
  }

  /** For slab-ordered ids the slab count is 1 for a single slice and one past
      the last slice's slab otherwise. */
  lemma SlabCountOrdered(q: seq<nat>)
    requires |q| >= 1 && SlabOrdered(q)
    ensures SlabCount(q) == if |q| == 1 then 1 else q[|q| - 1] / SlabWidth + 1
  {
    if |q| >= 2 {
      TopSlabOrdered(q, |q|);
    }
  }

  /** The shape of slabptr: it starts at 0, ends at the slice count, never
      decreases, and the reported slab count fits the allocated slabs. */
  lemma SlabPtrShape(q: seq<nat>, dim: nat)
    requires |q| >= 1 && AllBelow(q, dim)
    ensures SlabPtr(q)[0] == 0
    ensures SlabPtr(q)[SlabCount(q)] == |q|
    ensures NonDecreasing(SlabPtr(q))
    ensures SlabCount(q) <= AllocatedSlabs(dim)
  {
    var ptr := SlabPtr(q);
    var last := FirstInSlab(q, SlabCount(q), 1);
    assert ptr[SlabCount(q)] == last;
    TopSlabBounds(q, |q|);
    FirstInSlabLeast(q, SlabCount(q), 1);
    forall i, j | 0 <= i < j < |ptr| ensures ptr[i] <= ptr[j] {
      if i > 0 {
        var pi, pj := FirstInSlab(q, i, 1), FirstInSlab(q, j, 1);
        FirstInSlabLeast(q, i, 1);
        FirstInSlabLeast(q, j, 1);
        assert ptr[i] == pi && ptr[j] == pj;
      }
    }
    TopSlabBelow(q, |q|, dim);
  }

  /** Every compacted slice s >= 1 lies in the range of its own slab
      q[s] / SlabWidth; slice 0 always lies in the range of slab 0, whatever its id. */
  lemma SliceInItsSlab(q: seq<nat>, s: nat)
    requires SlabOrdered(q) && s < |q|
    ensures var b := if s == 0 then 0 else q[s] / SlabWidth;
      b < SlabCount(q) && SlabPtr(q)[b] <= s < SlabPtr(q)[b + 1]
  {
    var ptr := SlabPtr(q);
    TopSlabBounds(q, |q|);
    if s > 0 {
      var b := q[s] / SlabWidth;
      if b > 0 {
        FirstInSlabLeast(q, b, 1);
        assert ptr[b] == FirstInSlab(q, b, 1);
      }
      var next := FirstInSlab(q, b + 1, 1);
      FirstInSlabLeast(q, b + 1, 1);
      assert ptr[b + 1] == next;
    }
  }

  /** A position p that is the first in [from, p] to reach slab b is FirstInSlab. */
  lemma {:induction false} FirstInSlabAt(q: seq<nat>, b: nat, from: nat, p: nat)
    requires from <= p < |q|
    requires forall i :: from <= i < p ==> q[i] / SlabWidth < b
    requires q[p] / SlabWidth >= b
    ensures FirstInSlab(q, b, from) == p
    decreases p - from
  {
    if from < p {
      FirstInSlabAt(q, b, from + 1, p);
    }
  }

  /** The compacted slices of per-fiber slice ids p: one per run of equal ids. */
  function SliceStarts(p: seq<nat>): (starts: seq<nat>)
    requires |p| >= 1
    ensures 1 <= |starts| <= |p| && starts[0] == 0
    ensures forall i :: 0 <= i < |starts| ==> starts[i] < |p|
  {
    RunStarts(p, |p|)
  }

  /** The slice id of every compacted slice. */
  function SliceIds(p: seq<nat>): (q: seq<nat>)
    requires |p| >= 1
    ensures |q| == |SliceStarts(p)|
  {
    Project(p, SliceStarts(p))
  }

  /** Compaction: the slice count is one more than the number of changes of
      id between adjacent fibers, the slice pointer SliceStarts + [|p|] runs
      from 0 to the fiber count and strictly increases, neighbouring slices
      have different ids, and ids below dim stay below dim. */
  lemma CompactSlices(p: seq<nat>, dim: nat)
    requires |p| >= 1
    ensures |SliceIds(p)| == 1 + |Changes(p, |p|)|
    ensures var sptr := SliceStarts(p) + [|p|];
      sptr[0] == 0 && sptr[|sptr| - 1] == |p| && StrictlyIncreasing(sptr)
    ensures forall s :: 0 <= s < |SliceIds(p)| - 1 ==> SliceIds(p)[s] != SliceIds(p)[s + 1]
    ensures AllBelow(p, dim) ==> AllBelow(SliceIds(p), dim)
  {
    RunCount(p, |p|);
    RunPointers(p, |p|);
    forall s | 0 <= s < |SliceIds(p)| - 1 ensures SliceIds(p)[s] != SliceIds(p)[s + 1] {
      AdjacentRunsDiffer(p, |p|, s);
    }
  }

  /** Every fiber in sptr[s] .. sptr[s + 1] - 1 has the id of compacted slice s. */
  lemma SliceOfFiber(p: seq<nat>, s: nat, f: nat)
    requires |p| >= 1 && s < |SliceStarts(p)|
    requires (SliceStarts(p) + [|p|])[s] <= f < (SliceStarts(p) + [|p|])[s + 1]
    ensures p[f] == SliceIds(p)[s]
  {
    RunConstant(p, |p|, s, f);
  }
}
