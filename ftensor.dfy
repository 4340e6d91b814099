/** The fiber tensor (ftensor_t) and its two public operations in
    src/ftensor.c: ften_alloc, which builds every mode's fiber structure, and
    ften_spmat, which reads one mode's fibers as a CSR matrix. */
module FTensors {
  import opened Runs
  import opened Coo
  import opened Fibers
  import opened Slices
  import opened ModeOrders
  import opened FiberModes

  /** What tt_sort (followed by tt_tile when tiling) leaves for the mode whose
      permutation is perm: the same nonzeros as tt, and, for an untiled
      tensor, lexicographic order of the index tuples taken in perm's order. */
  ghost predicate SortedView(tt: CooTensor, view: CooTensor, perm: seq<nat>, tiled: bool)
    requires forall j :: 0 <= j < |perm| ==> perm[j] < tt.nmodes
  {
    && SameNonzeros(tt, view)
    && (!tiled ==> LexSorted(Permuted(view, perm), view.nnz))
  }

  /** What the builder needs of one mode: columns of nnz entries, the
      outermost below dim, and non-decreasing when untiled. */
  ghost predicate Ready(cols: seq<seq<nat>>, tvals: seq<real>, nnz: nat, dim: nat, tiled: bool)
  {
    Shaped(cols, nnz) && |tvals| == nnz && AllBelow(cols[0], dim) && (!tiled ==> NonDecreasing(cols[0]))
  }

  /** tt sorted (and tiled) under mode m's permutation is ready to be built. */
  lemma ViewReady(tt: CooTensor, view: CooTensor, m: nat, perm: seq<nat>, longFib: bool, tiled: bool)
    requires WellFormed(tt) && tt.nmodes >= 2 && tt.nnz >= 1 && m < tt.nmodes
    requires perm == ModeOrder(tt.dims, m, longFib) && SortedView(tt, view, perm, tiled)
    ensures Ready(Permuted(view, perm), view.vals, tt.nnz, tt.dims[m], tiled)
  {
    var cols := Permuted(view, perm);
    ModeOrderIsPermutation(tt.dims, m, longFib);
    assert AllBelow(cols[0], tt.dims[m]);
    if !tiled {
      LexSortedLeading(cols, view.nnz);
      AdjacentNonDecreasing(cols[0]);
    }
  }

  /** A compressed-sparse-row matrix (spmatrix_t). */
  class SpMatrix {
    var nrows: nat
    var ncols: nat
    var nnz: nat
    var rowptr: array<nat>
    var colind: array<nat>
    var vals: array<real>

    /** spmat_alloc: room for nrows + 1 row pointers and nnz entries. */
    constructor (nrows: nat, ncols: nat, nnz: nat)
      ensures this.nrows == nrows && this.ncols == ncols && this.nnz == nnz
      ensures rowptr.Length == nrows + 1 && colind.Length == nnz && vals.Length == nnz
      ensures fresh(rowptr) && fresh(colind) && fresh(vals) && rowptr != colind
    {
      this.nrows := nrows;
      this.ncols := ncols;
      this.nnz := nnz;
      rowptr := new nat[nrows + 1];
      colind := new nat[nnz];
      vals := new real[nnz];
    }

    /** The matrix holds the fibers of columns c with values tvals: one row
        per fiber, running over that fiber's nonzeros, whose column indices
        are the innermost indices. */
    ghost predicate HoldsFibers(c: seq<seq<nat>>, tvals: seq<real>)
      reads this, rowptr, colind, vals
    {
      && Shaped(c, nnz)
      && nrows == |FiberStarts(c, nnz)|
      && rowptr[..] == FiberStarts(c, nnz) + [nnz]
      && colind[..] == c[|c| - 1] && vals[..] == tvals
    }
  }

  /** The first n elements of src copied into dst (memcpy). */
  method Copy<T>(src: array<T>, dst: array<T>, n: nat)
    requires n <= src.Length && n <= dst.Length && src != dst
    modifies dst
    ensures dst[..n] == src[..n]
    ensures forall i :: n <= i < dst.Length ==> dst[i] == old(dst[i])
  {
    var i := 0;
    while i < n
      invariant i <= n
      invariant forall j :: 0 <= j < i ==> dst[j] == src[j]
      invariant forall j :: n <= j < dst.Length ==> dst[j] == old(dst[j])
    {
      dst[i] := src[i];
      i := i + 1;
    }
  }

  /** A fiber tensor: the sizes of the original tensor, one mode permutation
      and one fiber structure per mode. The ghost views are the sorted
      tensors each mode was built from. */
  class FTensor {
    var nnz: nat
    var nmodes: nat
    var dims: seq<nat>
    var tiled: bool
    var dimPerms: seq<seq<nat>>
    var modes: seq<FiberMode>
    ghost var views: seq<CooTensor>
    ghost var cols: seq<seq<seq<nat>>>
    ghost var Repr: set<object>

    /** The tensor is built: see Assembled. */
    ghost predicate Valid()
      reads this, Repr
    {
      && this in Repr && nmodes == |dims|
      && Assembled(nnz, dims, tiled, dimPerms, modes, views, cols, Repr)
    }

    /** nmodes >= 2 modes over nnz >= 1 nonzeros, and every mode m built,
        under permutation dimPerms[m] (which starts with m), from the columns
        cols[m] of a well-formed view of nnz nonzeros over dims; r holds the
        modes' objects. */
    static ghost predicate Assembled(nnz: nat, dims: seq<nat>, tiled: bool, dimPerms: seq<seq<nat>>,
                                     modes: seq<FiberMode>, views: seq<CooTensor>, cols: seq<seq<seq<nat>>>,
                                     r: set<object>)
      reads r
    {
      var n := |dims|;
      && n >= 2 && nnz >= 1
      && |dimPerms| == n && |modes| == n && |views| == n && |cols| == n
      && forall m :: 0 <= m < n ==>
           && modes[m] in r && modes[m].Repr() <= r
           && |dimPerms[m]| == n && dimPerms[m][0] == m
           && (forall j :: 0 <= j < n ==> dimPerms[m][j] < n)
           && WellFormed(views[m]) && views[m].nmodes == n
           && views[m].nnz == nnz && views[m].dims == dims
           && cols[m] == Permuted(views[m], dimPerms[m])
           && modes[m].Built(cols[m], views[m].vals, nnz, dims[m], tiled)
    }

    /** ften_alloc: the permutation of every mode from fib_mode_order, then,
        mode by mode, the fibers of the tensor as sorted (and tiled) for that
        mode and its slab or slice pointers. views[m] stands for tt after
        tt_sort (and tt_tile) under mode m's permutation; tile forces tiling. */
    static method Alloc(tt: CooTensor, views: seq<CooTensor>, tile: bool, longFib: bool) returns (ft: FTensor)
      requires WellFormed(tt) && tt.nmodes >= 2 && tt.nnz >= 1 && |views| == tt.nmodes
      requires forall m :: 0 <= m < tt.nmodes ==>
        SortedView(tt, views[m], ModeOrder(tt.dims, m, longFib), tt.tiled || tile)
      ensures ft.Valid() && fresh(ft.Repr)
      ensures ft.nnz == tt.nnz && ft.nmodes == tt.nmodes && ft.dims == tt.dims
      ensures ft.tiled == (tt.tiled || tile) && ft.views == views
      ensures forall m :: 0 <= m < ft.nmodes ==> ft.dimPerms[m] == ModeOrder(tt.dims, m, longFib)
    {
      var perms, colss := Prepare(tt, views, tile, longFib);
      var ms, r := BuildModes(colss, views, tt.nnz, tt.dims, tt.tiled, tile);
      AssembledModes(tt, views, perms, colss, ms, r, tt.tiled || tile);
      ft := new FTensor(tt.nnz, tt.dims, tt.tiled || tile, perms, ms, views, colss, r);
    }

    /** The permutations, the views' columns and the modes built from them
        make up a built tensor. */
    static lemma AssembledModes(tt: CooTensor, views: seq<CooTensor>, perms: seq<seq<nat>>,
                                colss: seq<seq<seq<nat>>>, ms: seq<FiberMode>, r: set<object>, tiled: bool)
      requires tt.nmodes >= 2 && tt.nnz >= 1 && |tt.dims| == tt.nmodes
      requires |views| == tt.nmodes && |perms| == tt.nmodes && |colss| == tt.nmodes && |ms| == tt.nmodes
      requires forall m :: 0 <= m < tt.nmodes ==>
           && |perms[m]| == tt.nmodes && perms[m][0] == m
           && (forall j :: 0 <= j < tt.nmodes ==> perms[m][j] < tt.nmodes)
           && WellFormed(views[m]) && views[m].nmodes == tt.nmodes
           && views[m].nnz == tt.nnz && views[m].dims == tt.dims
           && colss[m] == Permuted(views[m], perms[m])
      requires forall m :: 0 <= m < tt.nmodes ==> ms[m] in r && ms[m].Repr() <= r
      requires forall m :: 0 <= m < tt.nmodes ==> ms[m].Built(colss[m], views[m].vals, tt.nnz, tt.dims[m], tiled)
      ensures Assembled(tt.nnz, tt.dims, tiled, perms, ms, views, colss, r)
    {
    }

    /** The permutation of every mode and the columns of every view taken in
        that mode's order, each ready to be built. */
    static method Prepare(tt: CooTensor, views: seq<CooTensor>, tile: bool, longFib: bool)
      returns (perms: seq<seq<nat>>, colss: seq<seq<seq<nat>>>)
      requires WellFormed(tt) && tt.nmodes >= 2 && tt.nnz >= 1 && |views| == tt.nmodes
      requires forall m :: 0 <= m < tt.nmodes ==>
        SortedView(tt, views[m], ModeOrder(tt.dims, m, longFib), tt.tiled || tile)
      ensures |perms| == tt.nmodes && |colss| == tt.nmodes
      ensures forall m :: 0 <= m < tt.nmodes ==>
           && perms[m] == ModeOrder(tt.dims, m, longFib)
           && |perms[m]| == tt.nmodes && perms[m][0] == m
           && (forall j :: 0 <= j < tt.nmodes ==> perms[m][j] < tt.nmodes)
           && WellFormed(views[m]) && views[m].nmodes == tt.nmodes
           && views[m].nnz == tt.nnz && views[m].dims == tt.dims
           && colss[m] == Permuted(views[m], perms[m])
           && Ready(colss[m], views[m].vals, tt.nnz, tt.dims[m], tt.tiled || tile)
    {
      var n := tt.nmodes;
      perms := ModePerms(tt.dims, longFib);
      forall m | 0 <= m < n
        ensures perms[m][0] == m && forall j :: 0 <= j < n ==> perms[m][j] < n
      {
        ModeOrderIsPermutation(tt.dims, m, longFib);
      }
      colss := seq(n, m requires 0 <= m < n => Permuted(views[m], perms[m]));
      forall m | 0 <= m < n
        ensures Ready(colss[m], views[m].vals, tt.nnz, tt.dims[m], tt.tiled || tile)
      {
        ViewReady(tt, views[m], m, perms[m], longFib, tt.tiled || tile);
      }
    }

    /** The fields of a fiber tensor, as ften_alloc fills them in. */
    constructor (nnz: nat, dims: seq<nat>, tiled: bool, dimPerms: seq<seq<nat>>, modes: seq<FiberMode>,
                 ghost views: seq<CooTensor>, ghost cols: seq<seq<seq<nat>>>, ghost r: set<object>)
      ensures this.nnz == nnz && this.nmodes == |dims| && this.dims == dims && this.tiled == tiled
      ensures this.dimPerms == dimPerms && this.modes == modes
      ensures this.views == views && this.cols == cols && Repr == {this} + r
      ensures Assembled(nnz, dims, tiled, dimPerms, modes, views, cols, r) ==> Valid()
    {
      this.nnz := nnz;
      this.nmodes := |dims|;
      this.dims := dims;
      this.tiled := tiled;
      this.dimPerms := dimPerms;
      this.modes := modes;
      this.views := views;
      this.cols := cols;
      Repr := {this} + r;
    }

    /** The first loop of ften_alloc: fib_mode_order for every mode. */
    static method ModePerms(dims: seq<nat>, longFib: bool) returns (perms: seq<seq<nat>>)
      requires |dims| >= 2
      ensures |perms| == |dims|
      ensures forall m :: 0 <= m < |dims| ==> perms[m] == ModeOrder(dims, m, longFib)
    {
      perms := [];
      var m := 0;
      while m < |dims|
        invariant m <= |dims| && |perms| == m
        invariant forall i :: 0 <= i < m ==> perms[i] == ModeOrder(dims, i, longFib)
      {
        var pd := new nat[|dims|];
        FibModeOrder(dims, m, longFib, pd);
        perms := perms + [pd[..]];
        m := m + 1;
      }
    }

    /** The second loop of ften_alloc: the structure of every mode m, built
        from its permuted columns colss[m] and values views[m].vals; tiling is
        forced from the first mode on when tile is set. */
    static method BuildModes(colss: seq<seq<seq<nat>>>, views: seq<CooTensor>, nnz: nat, dims: seq<nat>,
                             ttTiled: bool, tile: bool)
      returns (ms: seq<FiberMode>, ghost r: set<object>)
      requires |colss| == |dims| && |views| == |dims|
      requires forall m :: 0 <= m < |dims| ==> Ready(colss[m], views[m].vals, nnz, dims[m], ttTiled || tile)
      ensures |ms| == |dims| && fresh(r)
      ensures forall m :: 0 <= m < |dims| ==> ms[m] in r && ms[m].Repr() <= r
      ensures forall m :: 0 <= m < |dims| ==> ms[m].Built(colss[m], views[m].vals, nnz, dims[m], ttTiled || tile)
    {
      var t := ttTiled;
      ms := [];
      r := {};
      var m := 0;
      while m < |dims|
        invariant m <= |dims| && |ms| == m
        invariant t == (ttTiled || (tile && m > 0))
        invariant fresh(r)
        invariant forall i :: 0 <= i < m ==> ms[i] in r && ms[i].Repr() <= r
        invariant forall i :: 0 <= i < m ==> ms[i].Built(colss[i], views[i].vals, nnz, dims[i], ttTiled || tile)
      {
        if tile {
          t := true;
        }
        ms, r := BuildNext(colss, views, nnz, dims, t, ms, r);
        m := m + 1;
      }
    }

    /** One pass of the mode loop: the next mode's structure, appended. */
    static method BuildNext(colss: seq<seq<seq<nat>>>, views: seq<CooTensor>, nnz: nat, dims: seq<nat>, tiled: bool,
                            ms: seq<FiberMode>, ghost r: set<object>)
      returns (ms': seq<FiberMode>, ghost r': set<object>)
      requires |colss| == |dims| && |views| == |dims| && |ms| < |dims|
      requires Ready(colss[|ms|], views[|ms|].vals, nnz, dims[|ms|], tiled)
      requires forall i :: 0 <= i < |ms| ==> ms[i] in r && ms[i].Repr() <= r
      requires forall i :: 0 <= i < |ms| ==> ms[i].Built(colss[i], views[i].vals, nnz, dims[i], tiled)
      ensures |ms'| == |ms| + 1 && fresh(r' - r)
      ensures forall i :: 0 <= i < |ms'| ==> ms'[i] in r' && ms'[i].Repr() <= r'
      ensures forall i :: 0 <= i < |ms'| ==> ms'[i].Built(colss[i], views[i].vals, nnz, dims[i], tiled)
    {
      var m := |ms|;
      var fm := FiberMode.BuildMode(colss[m], views[m].vals, nnz, dims[m], tiled);
      ms' := ms + [fm];
      r' := r + fm.Repr();
    }

    /** ften_spmat: mode mode's fibers as the rows of a CSR matrix, with the
        innermost indices as column indices and as many columns as the size of
        the mode in slot 2 of the permutation, which is the innermost one when
        the tensor has three modes. */
    method Spmat(mode: nat) returns (mat: SpMatrix)
      requires Valid() && mode < nmodes && nmodes >= 3
      ensures fresh(mat) && fresh(mat.rowptr) && fresh(mat.colind) && fresh(mat.vals)
      ensures mat.ncols == dims[dimPerms[mode][2]] && mat.nnz == nnz
      ensures mat.HoldsFibers(cols[mode], views[mode].vals)
      ensures nmodes == 3 ==> CsrValid(mat.rowptr[..], mat.colind[..], mat.nrows, mat.ncols)
    {
      ModeFibers(mode);
      mat := CopyFibers(modes[mode], cols[mode], views[mode].vals, dims[dimPerms[mode][2]], nnz);
    }

    /** What ften_spmat reads of a built mode: its fibers, and, with three
        modes, innermost indices below the size of the innermost mode. */
    lemma ModeFibers(mode: nat)
      requires Valid() && mode < nmodes && nmodes >= 3
      ensures modes[mode].HasFibers(cols[mode], views[mode].vals, nnz) && |views[mode].vals| == nnz
      ensures nmodes == 3 ==> AllBelow(cols[mode][|cols[mode]| - 1], dims[dimPerms[mode][2]])
    {
    }

    /** The body of ften_spmat: a matrix of fm.nfibs rows and ncols columns
        whose row pointers, column indices and values are copies of fm's
        fiber pointers, innermost indices and values; when the innermost
        indices are below ncols it is a valid CSR matrix. */
    static method CopyFibers(fm: FiberMode, ghost c: seq<seq<nat>>, ghost tvals: seq<real>, ncols: nat, nnz: nat)
      returns (mat: SpMatrix)
      requires fm.HasFibers(c, tvals, nnz) && |tvals| == nnz
      ensures fresh(mat) && fresh(mat.rowptr) && fresh(mat.colind) && fresh(mat.vals)
      ensures mat.ncols == ncols && mat.nnz == nnz && mat.HoldsFibers(c, tvals)
      ensures AllBelow(c[|c| - 1], ncols) ==> CsrValid(mat.rowptr[..], mat.colind[..], mat.nrows, mat.ncols)
    {
      var nrows := fm.nfibs;
      mat := new SpMatrix(nrows, ncols, nnz);
      Copy(fm.fptr, mat.rowptr, nrows + 1);
      Copy(fm.inds, mat.colind, nnz);
      Copy(fm.vals, mat.vals, nnz);
      assert mat.rowptr[..] == mat.rowptr[..nrows + 1];
      assert mat.colind[..] == mat.colind[..nnz] && mat.vals[..] == mat.vals[..nnz];
      assert fm.fptr[..] == fm.fptr[..nrows + 1];
      assert fm.inds[..] == fm.inds[..nnz] && fm.vals[..] == fm.vals[..nnz];
      if AllBelow(c[|c| - 1], ncols) {
        FibersFormCsr(c, nnz, ncols);
      }
    }
  }
}
