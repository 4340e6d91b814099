/** The per-mode part of a fiber tensor (the slots ftensor_t keeps for one
    mode) and the three builders that fill it: __create_fptr,
    __create_sliceptr and __create_slabptr (src/ftensor.c). */
module FiberModes {
  import opened Runs
  import opened Coo
  import opened Fibers
  import opened Slabs
  import opened Slices

  /** The index structure of one mode. Tiled or not, inds/vals/fptr/fids
      describe the fibers; untiled, sptr has one entry per outer index;
      tiled, sids/sptr describe the compacted slices and slabptr the slabs. */
  class FiberMode {
    var inds: array<nat>
    var vals: array<real>
    var nfibs: nat
    var fptr: array<nat>
    var fids: array<nat>
    var sids: array<nat>
    var sptr: array<nat>
    var nslabs: nat
    var slabptr: array<nat>

    /** The objects this mode's structure occupies. */
    function Repr(): set<object>
      reads this
    {
      {this, inds, vals, fptr, fids, sids, sptr, slabptr}
    }

    /** The mode's slots as ften_alloc leaves them before building: inds and
        vals hold nnz entries, the other arrays are not yet allocated. */
    constructor (nnz: nat)
      ensures inds.Length == nnz && vals.Length == nnz
      ensures fresh(Repr())
    {
      inds := new nat[nnz];
      vals := new real[nnz];
      nfibs := 0;
      fptr := new nat[0];
      fids := new nat[0];
      sids := new nat[0];
      sptr := new nat[0];
      nslabs := 0;
      slabptr := new nat[0];
    }

    /** The fibers of the nonzeros with permuted columns cols and values
        tvals: the innermost index and the value of every nonzero, one
        pointer per fiber plus the end, and each fiber's permuted-mode-1 index. */
    ghost predicate HasFibers(cols: seq<seq<nat>>, tvals: seq<real>, nnz: nat)
      reads this, inds, vals, fptr, fids
    {
      && Shaped(cols, nnz)
      && inds[..] == cols[|cols| - 1]
      && vals[..] == tvals
      && nfibs == |FiberStarts(cols, nnz)|
      && fptr[..] == FiberStarts(cols, nnz) + [nnz]
      && fids[..] == Project(cols[1], FiberStarts(cols, nnz))
    }

    /** The untiled slice pointer over an outer mode of size dim. */
    ghost predicate HasSlices(cols: seq<seq<nat>>, nnz: nat, dim: nat)
      reads this, sptr
    {
      Shaped(cols, nnz) && sptr[..] == SlicePtr(FiberOuters(cols, nnz), dim)
    }

    /** The tiled layout for per-fiber slice ids p: the compacted slices and
        their first fibers, and the slabs over an outer mode of size dim. */
    ghost predicate HasSlabs(p: seq<nat>, dim: nat)
      reads this, sids, sptr, slabptr
    {
      && |p| >= 1
      && sids[..] == SliceIds(p)
      && sptr[..] == SliceStarts(p) + [|p|]
      && nslabs == SlabCount(SliceIds(p))
      && slabptr.Length == AllocatedSlabs(dim) + 1
      && nslabs < slabptr.Length && slabptr[..nslabs + 1] == SlabPtr(SliceIds(p))
    }

    /** The whole structure of the mode, built from permuted columns cols. */
    ghost predicate Built(cols: seq<seq<nat>>, tvals: seq<real>, nnz: nat, dim: nat, tiled: bool)
      reads Repr()
    {
      && HasFibers(cols, tvals, nnz)
      && (if tiled then HasSlabs(FiberOuters(cols, nnz), dim) else HasSlices(cols, nnz, dim))
    }

    /** __create_fptr: copies the innermost index and value of every nonzero
        while counting fibers, then records where each fiber starts, its
        permuted-mode-1 index and, when tiled, its outermost index as sids. */
    method CreateFptr(cols: seq<seq<nat>>, tvals: seq<real>, nnz: nat, tiled: bool)
      requires Shaped(cols, nnz) && |tvals| == nnz
      requires inds.Length == nnz && vals.Length == nnz
      modifies this, inds, vals
      ensures HasFibers(cols, tvals, nnz)
      ensures tiled ==> sids[..] == FiberOuters(cols, nnz) && fresh(sids)
      ensures !tiled ==> sids == old(sids)
      ensures inds == old(inds) && vals == old(vals) && fresh(fptr) && fresh(fids)
      ensures sptr == old(sptr) && nslabs == old(nslabs) && slabptr == old(slabptr)
    {
      var count := CopyAndCount(cols, tvals, nnz, inds, vals);
      nfibs := count;
      var fp, fi, si := MarkFibers(cols, nnz, count, tiled);
      fptr := fp;
      fids := fi;
      if tiled {
        sids := si;
      }
    }

    /** The first pass of __create_fptr: copies the innermost index and the
        value of every nonzero into ind and vl and counts the fibers. */
    static method CopyAndCount(cols: seq<seq<nat>>, tvals: seq<real>, nnz: nat, ind: array<nat>, vl: array<real>)
      returns (count: nat)
      requires Shaped(cols, nnz) && |tvals| == nnz
      requires ind.Length == nnz && vl.Length == nnz
      modifies ind, vl
      ensures ind[..] == cols[|cols| - 1] && vl[..] == tvals
      ensures count == |FiberStarts(cols, nnz)|
    {
      var inner := |cols| - 1;
      ScanBounds(cols, nnz, 0);
      count := 1;
      ind[0] := cols[inner][0];
      vl[0] := tvals[0];
      var n := 1;
      while n < nnz
        invariant 1 <= n <= nnz
        invariant ScanAt(cols, nnz, count, n)
        invariant forall j :: 0 <= j < n ==> ind[j] == cols[inner][j] && vl[j] == tvals[j]
      {
        var newfib := IsNewFiber(cols, nnz, n);
        FiberNext(cols, nnz, count, n);
        if newfib {
          count := count + 1;
        }
        ind[n] := cols[inner][n];
        vl[n] := tvals[n];
        n := n + 1;
      }
      ScanBounds(cols, nnz, count);
      assert ind[..] == cols[inner] && vl[..] == tvals;
    }

    /** The second pass of __create_fptr: given the fiber count, writes
        each fiber's first position, its permuted-mode-1 index and, when
        tiled, its outermost index (si stays empty when untiled). */
    static method MarkFibers(cols: seq<seq<nat>>, nnz: nat, count: nat, tiled: bool)
      returns (fp: array<nat>, fi: array<nat>, si: array<nat>)
      requires Shaped(cols, nnz) && count == |FiberStarts(cols, nnz)|
      ensures fresh(fp) && fresh(fi) && fresh(si)
      ensures fp[..] == FiberStarts(cols, nnz) + [nnz]
      ensures fi[..] == Project(cols[1], FiberStarts(cols, nnz))
      ensures tiled ==> si[..] == FiberOuters(cols, nnz)
    {
      ghost var starts := FiberStarts(cols, nnz);
      ScanBounds(cols, nnz, 0);
      fp := new nat[count + 1];
      fi := new nat[count];
      si := new nat[if tiled then count else 0];
      fp[0] := 0;
      fp[count] := nnz;
      fi[0] := cols[1][0];
      if tiled {
        si[0] := cols[0][0];
      }
      var fib := 1;
      var n := 1;
      while n < nnz
        invariant 1 <= n <= nnz
        invariant ScanAt(cols, nnz, fib, n)
        invariant fp[0] == 0 && fp[count] == nnz
        invariant forall f :: 0 <= f < fib ==> fp[f] == starts[f]
        invariant forall f :: 0 <= f < fib ==> fi[f] == cols[1][starts[f]]
        invariant tiled ==> forall f :: 0 <= f < fib ==> si[f] == cols[0][starts[f]]
      {
        fib := MarkStep(cols, nnz, starts, count, tiled, n, fib, fp, fi, si);
        n := n + 1;
      }
      ScanBounds(cols, nnz, fib);
      assert fp[..] == starts + [nnz];
    }

    /** Position n of the second pass of __create_fptr: when it starts fiber
        fib, records it in fp, fi and, when tiled, si. */
    static method MarkStep(cols: seq<seq<nat>>, nnz: nat, ghost starts: seq<nat>, count: nat, tiled: bool,
                           n: nat, fib: nat, fp: array<nat>, fi: array<nat>, si: array<nat>)
      returns (fib': nat)
      requires Shaped(cols, nnz) && 1 <= n < nnz && starts == FiberStarts(cols, nnz) && count == |starts|
      requires fp.Length == count + 1 && fi.Length == count && si.Length == (if tiled then count else 0)
      requires fp != fi && fp != si && fi != si
      requires ScanAt(cols, nnz, fib, n)
      requires fp[0] == 0 && fp[count] == nnz
      requires forall f :: 0 <= f < fib ==> fp[f] == starts[f]
      requires forall f :: 0 <= f < fib ==> fi[f] == cols[1][starts[f]]
      requires tiled ==> forall f :: 0 <= f < fib ==> si[f] == cols[0][starts[f]]
      modifies fp, fi, si
      ensures ScanAt(cols, nnz, fib', n + 1)
      ensures fp[0] == 0 && fp[count] == nnz
      ensures forall f :: 0 <= f < fib' ==> fp[f] == starts[f]
      ensures forall f :: 0 <= f < fib' ==> fi[f] == cols[1][starts[f]]
      ensures tiled ==> forall f :: 0 <= f < fib' ==> si[f] == cols[0][starts[f]]
    {
      fib' := fib;
      var newfib := IsNewFiber(cols, nnz, n);
      FiberNext(cols, nnz, fib, n);
      if newfib {
        fp[fib] := n;
        fi[fib] := cols[1][n];
        if tiled {
          si[fib] := cols[0][n];
        }
        fib' := fib + 1;
      }
    }

    /** __create_sliceptr: fills all dim + 1 entries of sptr, writing each
        fiber count once for every outer index it covers, empty slices
        included. Needs the outer indices non-decreasing and below dim. */
    method CreateSliceptr(cols: seq<seq<nat>>, nnz: nat, dim: nat)
      requires Shaped(cols, nnz) && NonDecreasing(cols[0]) && AllBelow(cols[0], dim)
      requires nfibs == |FiberStarts(cols, nnz)|
      modifies this
      ensures HasSlices(cols, nnz, dim) && fresh(sptr)
      ensures inds == old(inds) && vals == old(vals) && nfibs == old(nfibs)
      ensures fptr == old(fptr) && fids == old(fids) && sids == old(sids)
      ensures nslabs == old(nslabs) && slabptr == old(slabptr)
    {
      sptr := FillSlicePtr(cols, nnz, nfibs, dim);
    }

    /** The loops of __create_sliceptr: outer indices up to the first
        nonzero's get 0; at each new fiber the indices up to its outer index
        get the number of fibers before it; the rest get the fiber count. */
    static method FillSlicePtr(cols: seq<seq<nat>>, nnz: nat, nfibs: nat, dim: nat) returns (sp: array<nat>)
      requires Shaped(cols, nnz) && NonDecreasing(cols[0]) && AllBelow(cols[0], dim)
      requires nfibs == |FiberStarts(cols, nnz)|
      ensures fresh(sp) && sp[..] == SlicePtr(FiberOuters(cols, nnz), dim)
    {
      ghost var o := FiberOuters(cols, nnz);
      FiberOutersNonDecreasing(cols, nnz);
      ScanBounds(cols, nnz, 0);

      sp := new nat[dim + 1];
      var slice := FillLeading(o, cols[0][0], sp);

      var fib := 1;
      var n := 1;
      while n < nnz
        invariant 1 <= n <= nnz
        invariant ScanAt(cols, nnz, fib, n)
        invariant slice == cols[0][n - 1] + 1
        invariant forall s :: 0 <= s < slice ==> sp[s] == CountBelow(o, s)
      {
        fib, slice := SliceStep(cols, nnz, o, dim, n, fib, slice, sp);
        n := n + 1;
      }

      LastFiberOuter(cols, nnz);
      ScanBounds(cols, nnz, fib);
      FillTrailing(o, nfibs, slice, sp);
      assert sp[..] == SlicePtr(o, dim);
    }

    /** The first loop of __create_sliceptr: every outer index up to the
        first fiber's, first, gets 0. */
    static method FillLeading(ghost o: seq<nat>, first: nat, sp: array<nat>) returns (slice: nat)
      requires NonDecreasing(o) && |o| >= 1 && o[0] == first && first < sp.Length
      modifies sp
      ensures slice == first + 1
      ensures forall s :: 0 <= s < slice ==> sp[s] == CountBelow(o, s)
    {
      slice := 0;
      CountBelowSorted(o, 0, 0);
      sp[slice] := 0;
      slice := slice + 1;
      while slice != first + 1
        invariant 1 <= slice <= first + 1
        invariant forall s :: 0 <= s < slice ==> sp[s] == CountBelow(o, s)
        decreases first + 1 - slice
      {
        CountBelowSorted(o, slice, 0);
        sp[slice] := 0;
        slice := slice + 1;
      }
    }

    /** The last loop of __create_sliceptr: every outer index from the one
        after the last fiber's, from, on gets the fiber count. */
    static method FillTrailing(ghost o: seq<nat>, nfibs: nat, from: nat, sp: array<nat>)
      requires NonDecreasing(o) && 1 <= |o| == nfibs && o[|o| - 1] < from <= sp.Length
      requires forall s :: 0 <= s < from ==> sp[s] == CountBelow(o, s)
      modifies sp
      ensures forall s :: 0 <= s < sp.Length ==> sp[s] == CountBelow(o, s)
    {
      var s := from;
      while s < sp.Length
        invariant from <= s <= sp.Length
        invariant forall t :: 0 <= t < s ==> sp[t] == CountBelow(o, t)
      {
        CountBelowSorted(o, s, |o|);
        sp[s] := nfibs;
        s := s + 1;
      }
    }

    /** Position n of __create_sliceptr's scan: when it starts fiber fib,
        every outer index after the previous fiber's, up to its own, gets
        fib, the number of fibers before it. */
    static method SliceStep(cols: seq<seq<nat>>, nnz: nat, ghost o: seq<nat>, dim: nat,
                            n: nat, fib: nat, slice: nat, sp: array<nat>)
      returns (fib': nat, slice': nat)
      requires Shaped(cols, nnz) && 1 <= n < nnz && o == FiberOuters(cols, nnz)
      requires NonDecreasing(o) && AllBelow(cols[0], dim) && sp.Length == dim + 1
      requires ScanAt(cols, nnz, fib, n) && slice == cols[0][n - 1] + 1
      requires forall s :: 0 <= s < slice ==> sp[s] == CountBelow(o, s)
      modifies sp
      ensures ScanAt(cols, nnz, fib', n + 1) && slice' == cols[0][n] + 1
      ensures forall s :: 0 <= s < slice' ==> sp[s] == CountBelow(o, s)
    {
      fib', slice' := fib, slice;
      var newfib := IsNewFiber(cols, nnz, n);
      FiberNext(cols, nnz, fib, n);
      FiberNextOuter(cols, nnz, fib, n);
      if newfib {
        while slice' != cols[0][n] + 1
          invariant cols[0][n - 1] + 1 <= slice' <= cols[0][n] + 1
          invariant forall s :: 0 <= s < slice' ==> sp[s] == CountBelow(o, s)
          decreases cols[0][n] + 1 - slice'
        {
          CountBelowSorted(o, slice', fib);
          sp[slice'] := fib;
          slice' := slice' + 1;
        }
        fib' := fib + 1;
      }
    }

    /** __create_slabptr: compacts the per-fiber slice ids in sids into one
        entry per run of equal ids, with sptr pointing at each run's first
        fiber, and records for every slab the first compacted slice (from
        slice 1 on) that reaches it. Needs the slice ids below dim. */
    method CreateSlabptr(dim: nat)
      requires nfibs >= 1 && sids.Length == nfibs && AllBelow(sids[..], dim)
      modifies this
      ensures HasSlabs(old(sids[..]), dim)
      ensures fresh(sids) && fresh(sptr) && fresh(slabptr)
      ensures inds == old(inds) && vals == old(vals) && nfibs == old(nfibs)
      ensures fptr == old(fptr) && fids == old(fids)
    {
      var tsize := SlabWidth;
      nslabs := dim / tsize + (if dim % tsize != 0 then 1 else 0);
      var sl := new nat[nslabs + 1];
      var slices := CountSlices(sids, nfibs);
      var sp, ss, slab := Compact(sids, sids[..], nfibs, slices, dim, sl);
      CloseSlabs(sids[..], dim, nfibs, slices, slab, sp, ss, sl);
      sids := ss;
      sptr := sp;
      nslabs := slab;
      slabptr := sl;
    }

    /** The end of __create_slabptr: the end pointers of the last compacted
        slice and of the last slab. */
    static method CloseSlabs(ghost p: seq<nat>, ghost dim: nat, nf: nat, slices: nat, slab: nat,
                             sp: array<nat>, ss: array<nat>, sl: array<nat>)
      requires 1 <= nf == |p| && AllBelow(p, dim) && slices == |SliceStarts(p)|
      requires sp.Length == slices + 1 && ss.Length == slices
      requires forall i :: 0 <= i < slices ==> ss[i] == SliceIds(p)[i] && sp[i] == SliceStarts(p)[i]
      requires slab == SlabCount(SliceIds(p)) < sl.Length && sl[0] == 0
      requires forall b :: 1 <= b < slab ==> sl[b] == FirstInSlab(SliceIds(p), b, 1)
      requires sp != sl && ss != sp && ss != sl
      modifies sp, sl
      ensures ss[..] == SliceIds(p)
      ensures sp[..] == SliceStarts(p) + [nf]
      ensures sl[..slab + 1] == SlabPtr(SliceIds(p))
    {
      ghost var q := SliceIds(p);
      sl[slab] := slices;
      sp[slices] := nf;
      assert SlabPtr(q)[SlabCount(q)] == |q| by {
        CompactSlices(p, dim);
        SlabPtrShape(q, dim);
      }
      assert ss[..] == q;
      assert sp[..] == SliceStarts(p) + [nf];
      assert sl[..slab + 1] == SlabPtr(q);
    }

    /** The first pass of __create_slabptr: one slice, plus one for every
        change of id between adjacent fibers. */
    static method CountSlices(fs: array<nat>, nf: nat) returns (slices: nat)
      requires 1 <= nf == fs.Length
      ensures slices == |SliceStarts(fs[..])|
    {
      ghost var p := fs[..];
      slices := 1;
      var f := 1;
      while f < nf
        invariant 1 <= f <= nf
        invariant slices == |RunStarts(p, f)|
      {
        if fs[f] != fs[f - 1] {
          slices := slices + 1;
        }
        f := f + 1;
      }
    }

    /** The second pass of __create_slabptr: writes the first fiber and the id
        of every compacted slice but the end pointer, and slabptr entries 0 ..
        slab - 1, where slab ends as the slab count. */
    static method Compact(fs: array<nat>, ghost p: seq<nat>, nf: nat, slices: nat, ghost dim: nat, sl: array<nat>)
      returns (sp: array<nat>, ss: array<nat>, slab: nat)
      requires 1 <= nf == fs.Length && fs[..] == p && AllBelow(p, dim)
      requires slices == |SliceStarts(p)|
      requires sl.Length == AllocatedSlabs(dim) + 1 && sl != fs
      modifies sl
      ensures fresh(sp) && fresh(ss) && sp.Length == slices + 1 && ss.Length == slices
      ensures forall i :: 0 <= i < slices ==> ss[i] == SliceIds(p)[i] && sp[i] == SliceStarts(p)[i]
      ensures slab == SlabCount(SliceIds(p)) < sl.Length && sl[0] == 0
      ensures forall b :: 1 <= b < slab ==> sl[b] == FirstInSlab(SliceIds(p), b, 1)
    {
      ghost var starts := SliceStarts(p);
      ghost var q := SliceIds(p);
      assert AllBelow(q, dim) && SlabCount(q) < sl.Length by {
        CompactSlices(p, dim);
        SlabPtrShape(q, dim);
      }

      sp := new nat[slices + 1];
      ss := new nat[slices];
      sp[0] := 0;
      ss[0] := fs[0];
      sl[0] := 0;
      assert slices == 1 || 1 <= starts[1] by {
        RunStartsIncreasing(p, nf);
      }
      var s := 1;
      slab := 1;
      var f := 1;
      while f < nf
        invariant 1 <= f <= nf
        invariant 1 <= s <= slices && starts[s - 1] < f && (s == slices || f <= starts[s])
        invariant slab == TopSlab(q, s) + 1 <= SlabCount(q)
        invariant sp[0] == 0 && sl[0] == 0
        invariant forall i :: 0 <= i < s ==> sp[i] == starts[i]
        invariant forall i :: 0 <= i < s ==> ss[i] == q[i]
        invariant forall b :: 1 <= b < slab ==> sl[b] == FirstInSlab(q, b, 1)
      {
        s, slab := CompactStep(fs, p, starts, q, dim, f, s, slab, sp, ss, sl);
        f := f + 1;
      }
    }

    /** One fiber f of the second pass of __create_slabptr: a fiber whose id
        differs from its predecessor's starts compacted slice s. The slices
        before it and the slabs they reach are recorded in sp, ss and sl. */
    static method CompactStep(fs: array<nat>, ghost p: seq<nat>, ghost starts: seq<nat>, ghost q: seq<nat>, ghost dim: nat,
                              f: nat, s: nat, slab: nat, sp: array<nat>, ss: array<nat>, sl: array<nat>)
      returns (s': nat, slab': nat)
      requires 1 <= f < fs.Length && fs[..] == p && starts == RunStarts(p, |p|)
      requires |q| == |starts| && forall i :: 0 <= i < |q| ==> starts[i] < |p| && q[i] == p[starts[i]]
      requires AllBelow(q, dim) && SlabCount(q) < sl.Length == AllocatedSlabs(dim) + 1
      requires sp.Length == |q| + 1 && ss.Length == |q|
      requires sp != sl && ss != sl && sp != ss && fs != sl && fs != sp && fs != ss
      requires 1 <= s <= |q| && starts[s - 1] < f && (s == |q| || f <= starts[s])
      requires slab == TopSlab(q, s) + 1 <= SlabCount(q)
      requires sp[0] == 0 && sl[0] == 0
      requires forall i :: 0 <= i < s ==> sp[i] == starts[i]
      requires forall i :: 0 <= i < s ==> ss[i] == q[i]
      requires forall b :: 1 <= b < slab ==> sl[b] == FirstInSlab(q, b, 1)
      modifies sp, ss, sl
      ensures 1 <= s' <= |q| && starts[s' - 1] < f + 1 && (s' == |q| || f + 1 <= starts[s'])
      ensures slab' == TopSlab(q, s') + 1 <= SlabCount(q)
      ensures sp[0] == 0 && sl[0] == 0
      ensures forall i :: 0 <= i < s' ==> sp[i] == starts[i]
      ensures forall i :: 0 <= i < s' ==> ss[i] == q[i]
      ensures forall b :: 1 <= b < slab' ==> sl[b] == FirstInSlab(q, b, 1)
    {
      s', slab' := s, slab;
      RunStartsNext(p, fs.Length, s, f);
      if fs[f] != fs[f - 1] {
        TopSlabMonotone(q, s + 1, |q|);
        slab' := StartSlice(q, dim, s, f, fs[f], slab, sp, ss, sl);
        s' := s + 1;
      }
    }

    /** A new compacted slice s, starting at fiber f with id x: records f in
        sp and x in ss, then starts every slab up to x's. */
    static method StartSlice(ghost q: seq<nat>, ghost dim: nat,
                             s: nat, f: nat, x: nat, slab: nat, sp: array<nat>, ss: array<nat>, sl: array<nat>)
      returns (slab': nat)
      requires 1 <= s < |q| && x == q[s] && AllBelow(q, dim)
      requires s < sp.Length && s < ss.Length && sl.Length == AllocatedSlabs(dim) + 1
      requires sp != sl && ss != sl && sp != ss
      requires slab == TopSlab(q, s) + 1
      requires forall b :: 1 <= b < slab ==> b < sl.Length && sl[b] == FirstInSlab(q, b, 1)
      modifies sp, ss, sl
      ensures slab' == TopSlab(q, s + 1) + 1
      ensures forall b :: 1 <= b < slab' ==> b < sl.Length && sl[b] == FirstInSlab(q, b, 1)
      ensures sp[s] == f && ss[s] == x && sl[0] == old(sl[0])
      ensures forall i :: 0 <= i < s ==> sp[i] == old(sp[i]) && ss[i] == old(ss[i])
      ensures sp[0] == old(sp[0])
    {
      sp[s] := f;
      ss[s] := x;
      TopSlabMonotone(q, s + 1, |q|);
      TopSlabBelow(q, |q|, dim);
      slab' := AdvanceSlabs(q, dim, s, x, slab, sl);
    }

    /** The inner loop of __create_slabptr: compacted slice s, with id x,
        starts every slab from the current one up to its own. */
    static method AdvanceSlabs(ghost q: seq<nat>, ghost dim: nat, s: nat, x: nat, slab: nat, sl: array<nat>)
      returns (slab': nat)
      requires 1 <= s < |q| && x == q[s] && AllBelow(q, dim)
      requires sl.Length == AllocatedSlabs(dim) + 1
      requires slab == TopSlab(q, s) + 1 && TopSlab(q, s + 1) < AllocatedSlabs(dim)
      requires forall b :: 1 <= b < slab ==> sl[b] == FirstInSlab(q, b, 1)
      modifies sl
      ensures slab' == TopSlab(q, s + 1) + 1 < sl.Length
      ensures forall b :: 1 <= b < slab' ==> sl[b] == FirstInSlab(q, b, 1)
      ensures sl[0] == old(sl[0])
    {
      var tsize := SlabWidth;
      SlabBelowAllocated(x, dim);
      TopSlabBounds(q, s);
      slab' := slab;
      while x / tsize > slab' - 1
        invariant TopSlab(q, s) + 1 <= slab' <= TopSlab(q, s + 1) + 1
        invariant forall b :: 1 <= b < slab' ==> sl[b] == FirstInSlab(q, b, 1)
        invariant sl[0] == old(sl[0])
        decreases x / tsize + 1 - slab'
      {
        FirstInSlabAt(q, slab', 1, s);
        sl[slab'] := s;
        slab' := slab' + 1;
      }
    }

    /** One pass of ften_alloc's per-mode loop after the sort: a fresh mode
        with the fibers built, then the slab pointer when tiled and the
        slice pointer otherwise. */
    static method BuildMode(cols: seq<seq<nat>>, tvals: seq<real>, nnz: nat, dim: nat, tiled: bool)
      returns (fm: FiberMode)
      requires Shaped(cols, nnz) && |tvals| == nnz && AllBelow(cols[0], dim)
      requires !tiled ==> NonDecreasing(cols[0])
      ensures fresh(fm.Repr()) && fm.Built(cols, tvals, nnz, dim, tiled)
    {
      fm := new FiberMode(nnz);
      fm.CreateFptr(cols, tvals, nnz, tiled);
      if tiled {
        assert AllBelow(fm.sids[..], dim);
        fm.CreateSlabptr(dim);
      } else {
        fm.CreateSliceptr(cols, nnz, dim);
      }
    }
  }
}
