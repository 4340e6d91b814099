/** The coordinate-format sparse tensor the builder reads (sptensor_t), and
    its index columns taken in the order of a mode permutation. */
module Coo {

  /** nmodes index columns of nnz entries each, nnz values, and the size of every mode.
      `tiled` records that the tensor was already reordered into tiles. */
  datatype CooTensor = CooTensor(
    nmodes: nat,
    dims: seq<nat>,
    nnz: nat,
    ind: seq<seq<nat>>,
    vals: seq<real>,
    tiled: bool)

  /** Column and value lengths agree, and every index is below its mode's size. */
  ghost predicate WellFormed(tt: CooTensor)
  {
    && |tt.dims| == tt.nmodes
    && |tt.ind| == tt.nmodes
    && |tt.vals| == tt.nnz
    && (forall m :: 0 <= m < tt.nmodes ==> |tt.ind[m]| == tt.nnz)
    && (forall m, n :: 0 <= m < tt.nmodes && 0 <= n < |tt.ind[m]| ==> tt.ind[m][n] < tt.dims[m])
  }

  /** Every column has nnz entries. */
  ghost predicate Rect(cols: seq<seq<nat>>, nnz: nat)
  {
    forall m :: 0 <= m < |cols| ==> |cols[m]| == nnz
  }

  /** The index columns of tt in the order of perm: column j is tt.ind[perm[j]]. */
  function Permuted(tt: CooTensor, perm: seq<nat>): (cols: seq<seq<nat>>)
    requires forall j :: 0 <= j < |perm| ==> perm[j] < |tt.ind|
    ensures |cols| == |perm|
    ensures forall j :: 0 <= j < |perm| ==> cols[j] == tt.ind[perm[j]]
  {
    seq(|perm|, j requires 0 <= j < |perm| => tt.ind[perm[j]])
  }

  /** The full index tuple of nonzero n, in column order. */
  function FullKey(cols: seq<seq<nat>>, nnz: nat, n: nat): (key: seq<nat>)
    requires Rect(cols, nnz) && n < nnz
    ensures |key| == |cols|
    ensures forall m :: 0 <= m < |cols| ==> key[m] == cols[m][n]
  {
    seq(|cols|, m requires 0 <= m < |cols| => cols[m][n])
  }

  /** The outer index tuple of nonzero n: every column but the innermost. */
  function OuterKey(cols: seq<seq<nat>>, nnz: nat, n: nat): (key: seq<nat>)
    requires |cols| >= 1 && Rect(cols, nnz) && n < nnz
    ensures |key| == |cols| - 1
    ensures forall m :: 0 <= m < |cols| - 1 ==> key[m] == cols[m][n]
  {
    seq(|cols| - 1, m requires 0 <= m < |cols| - 1 => cols[m][n])
  }

  /** The outer index tuples of all nonzeros, in storage order. */
  function OuterKeys(cols: seq<seq<nat>>, nnz: nat): (keys: seq<seq<nat>>)
    requires |cols| >= 1 && Rect(cols, nnz)
    ensures |keys| == nnz
    ensures forall n :: 0 <= n < nnz ==> keys[n] == OuterKey(cols, nnz, n)
  {
    seq(nnz, n requires 0 <= n < nnz => OuterKey(cols, nnz, n))
  }

  /** Lexicographic order on index tuples. */
  predicate LexLeq(a: seq<nat>, b: seq<nat>)
  {
    if |a| == 0 then true
    else if |b| == 0 then false
    else a[0] < b[0] || (a[0] == b[0] && LexLeq(a[1..], b[1..]))
  }

  /** The nonzeros are in lexicographic order of their tuples in column order:
      what sorting the tensor under a mode permutation establishes. */
  ghost predicate LexSorted(cols: seq<seq<nat>>, nnz: nat)
    requires Rect(cols, nnz)
  {
    forall n :: 1 <= n < nnz ==> LexLeq(FullKey(cols, nnz, n - 1), FullKey(cols, nnz, n))
  }

  /** The nonzeros of tt as (index tuple, value) pairs. */
  function Entries(tt: CooTensor): seq<(seq<nat>, real)>
    requires WellFormed(tt)
  {
    seq(tt.nnz, n requires 0 <= n < tt.nnz => (FullKey(tt.ind, tt.nnz, n), tt.vals[n]))
  }

  /** b holds the same nonzeros as a, possibly in another order. */
  ghost predicate SameNonzeros(a: CooTensor, b: CooTensor)
  {
    && WellFormed(a) && WellFormed(b)
    && a.nmodes == b.nmodes && a.dims == b.dims && a.nnz == b.nnz
    && multiset(Entries(a)) == multiset(Entries(b))
  }

  /** Under lexicographic order the first column never decreases. */
  lemma LexSortedLeading(cols: seq<seq<nat>>, nnz: nat)
    requires |cols| >= 1 && Rect(cols, nnz) && LexSorted(cols, nnz)
    ensures forall n :: 1 <= n < nnz ==> cols[0][n - 1] <= cols[0][n]
  {
    forall n | 1 <= n < nnz ensures cols[0][n - 1] <= cols[0][n] {
      var a, b := FullKey(cols, nnz, n - 1), FullKey(cols, nnz, n);
      assert LexLeq(a, b);
      assert a[0] == cols[0][n - 1] && b[0] == cols[0][n];
    }
  }
}
