/** Fibers of a tensor whose columns are taken in a mode permutation's order:
    a fiber is a maximal run of consecutive nonzeros sharing every index but
    the innermost one (src/ftensor.c, __create_fptr). */
module Fibers {
  import opened Runs
  import opened Coo

  /** The shape __create_fptr works on: at least two columns (it reads column 1)
      of nnz >= 1 entries each (it reads position 0 unconditionally). */
  ghost predicate Shaped(cols: seq<seq<nat>>, nnz: nat)
  {
    |cols| >= 2 && nnz >= 1 && Rect(cols, nnz)
  }

  /** The source's test for a new fiber at position n: some outer column
      differs from position n - 1. */
  ghost predicate NewFiber(cols: seq<seq<nat>>, nnz: nat, n: nat)
    requires Shaped(cols, nnz) && 1 <= n < nnz
  {
    exists m :: 0 <= m < |cols| - 1 && cols[m][n] != cols[m][n - 1]
  }

  /** The first nonzero of every fiber, in order. */
  function FiberStarts(cols: seq<seq<nat>>, nnz: nat): (starts: seq<nat>)
    requires Shaped(cols, nnz)
    ensures 1 <= |starts| <= nnz && starts[0] == 0
    ensures forall f :: 0 <= f < |starts| ==> starts[f] < nnz
  {
    RunStarts(OuterKeys(cols, nnz), nnz)
  }

  /** The outermost index of every fiber. */
  function FiberOuters(cols: seq<seq<nat>>, nnz: nat): (o: seq<nat>)
    requires Shaped(cols, nnz)
    ensures |o| == |FiberStarts(cols, nnz)|
  {
    Project(cols[0], FiberStarts(cols, nnz))
  }

  /** Scans the outer columns at position n for a change, stopping at the
      first one (the inner loop of both passes of __create_fptr and of
      __create_sliceptr). */
  method IsNewFiber(cols: seq<seq<nat>>, nnz: nat, n: nat) returns (newfib: bool)
    requires Shaped(cols, nnz) && 1 <= n < nnz
    ensures newfib <==> NewFiber(cols, nnz, n)
  {
    newfib := false;
    var m := 0;
    while m < |cols| - 1
      invariant 0 <= m <= |cols| - 1
      invariant forall j :: 0 <= j < m ==> cols[j][n] == cols[j][n - 1]
    {
      if cols[m][n] != cols[m][n - 1] {
        newfib := true;
        break;
      }
      m := m + 1;
    }
  }

  /** The scan over the nonzeros is at position n with c fibers started:
      fiber c - 1 starts before n, and fiber c, if any, not before n. */
  ghost predicate ScanAt(cols: seq<seq<nat>>, nnz: nat, c: nat, n: nat)
    requires Shaped(cols, nnz)
  {
    var starts := FiberStarts(cols, nnz);
    1 <= c <= |starts| && starts[c - 1] < n && (c == |starts| || n <= starts[c])
  }

  /** The scan starts at position 1 with one fiber, and at position nnz it
      has seen every fiber. */
  lemma ScanBounds(cols: seq<seq<nat>>, nnz: nat, c: nat)
    requires Shaped(cols, nnz)
    ensures ScanAt(cols, nnz, 1, 1)
    ensures ScanAt(cols, nnz, c, nnz) ==> c == |FiberStarts(cols, nnz)|
  {
    RunStartsIncreasing(OuterKeys(cols, nnz), nnz);
  }

  /** One step of the scan: the source's test sees a new fiber at n exactly
      when n starts fiber c, and either way the scan moves on to n + 1. */
  lemma FiberNext(cols: seq<seq<nat>>, nnz: nat, c: nat, n: nat)
    requires Shaped(cols, nnz) && 1 <= n < nnz && ScanAt(cols, nnz, c, n)
    ensures NewFiber(cols, nnz, n) ==>
      c < |FiberStarts(cols, nnz)| && FiberStarts(cols, nnz)[c] == n && ScanAt(cols, nnz, c + 1, n + 1)
    ensures !NewFiber(cols, nnz, n) ==> ScanAt(cols, nnz, c, n + 1)
  {
    var keys := OuterKeys(cols, nnz);
    RunStartsNext(keys, nnz, c, n);
    if NewFiber(cols, nnz, n) {
      var m :| 0 <= m < |cols| - 1 && cols[m][n] != cols[m][n - 1];
      assert keys[n][m] != keys[n - 1][m];
    } else {
      assert keys[n] == keys[n - 1];
    }
  }

  /** The outer index across one step of the scan: at a new fiber c it moves
      from fiber c - 1's to fiber c's; elsewhere it stays. */
  lemma FiberNextOuter(cols: seq<seq<nat>>, nnz: nat, c: nat, n: nat)
    requires Shaped(cols, nnz) && 1 <= n < nnz && ScanAt(cols, nnz, c, n)
    ensures var o := FiberOuters(cols, nnz);
      if NewFiber(cols, nnz, n) then
        c < |o| && o[c - 1] == cols[0][n - 1] && o[c] == cols[0][n]
      else
        cols[0][n] == cols[0][n - 1]
  {
    var keys := OuterKeys(cols, nnz);
    var starts := FiberStarts(cols, nnz);
    FiberNext(cols, nnz, c, n);
    if NewFiber(cols, nnz, n) {
      assert RunEnd(keys, nnz, c - 1) == n;
      RunConstant(keys, nnz, c - 1, n - 1);
      assert keys[n - 1][0] == keys[starts[c - 1]][0];
    } else {
      var m := 0;
      assert keys[n][m] == keys[n - 1][m];
    }
  }

  /** The fiber count is one plus the number of positions where the source's test sees a new fiber. */
  lemma FiberCount(cols: seq<seq<nat>>, nnz: nat)
    requires Shaped(cols, nnz)
    ensures |FiberStarts(cols, nnz)| == 1 + |set n: nat | 1 <= n < nnz && NewFiber(cols, nnz, n)|
  {
    var keys := OuterKeys(cols, nnz);
    RunCount(keys, nnz);
    forall n: nat | 1 <= n < nnz
      ensures StartsRun(keys, n) <==> NewFiber(cols, nnz, n)
    {
      if NewFiber(cols, nnz, n) {
        var m :| 0 <= m < |cols| - 1 && cols[m][n] != cols[m][n - 1];
        assert keys[n][m] != keys[n - 1][m];
      } else {
        assert keys[n] == keys[n - 1];
      }
    }
    assert Changes(keys, nnz) == set n: nat | 1 <= n < nnz && NewFiber(cols, nnz, n);
  }

  /** fptr = FiberStarts + [nnz] starts at 0, ends at nnz and strictly increases,
      so no fiber is empty and the fibers tile [0, nnz). */
  lemma FiberPointers(cols: seq<seq<nat>>, nnz: nat)
    requires Shaped(cols, nnz)
    ensures var fptr := FiberStarts(cols, nnz) + [nnz];
      fptr[0] == 0 && fptr[|fptr| - 1] == nnz && StrictlyIncreasing(fptr)
  {
    RunPointers(OuterKeys(cols, nnz), nnz);
  }

  /** Every nonzero of fiber f has the outer indices of the fiber's first
      nonzero; every fiber after the first differs from its predecessor's last
      nonzero in some outer index, so fibers are maximal runs. */
  lemma FiberUniform(cols: seq<seq<nat>>, nnz: nat, f: nat, n: nat)
    requires Shaped(cols, nnz)
    requires f < |FiberStarts(cols, nnz)|
    requires (FiberStarts(cols, nnz) + [nnz])[f] <= n < (FiberStarts(cols, nnz) + [nnz])[f + 1]
    ensures forall m :: 0 <= m < |cols| - 1 ==> cols[m][n] == cols[m][FiberStarts(cols, nnz)[f]]
    ensures f >= 1 ==> 1 <= FiberStarts(cols, nnz)[f] && NewFiber(cols, nnz, FiberStarts(cols, nnz)[f])
  {
    var keys := OuterKeys(cols, nnz);
    var starts := FiberStarts(cols, nnz);
    RunConstant(keys, nnz, f, n);
    assert keys[n] == keys[starts[f]];
    forall m | 0 <= m < |cols| - 1 ensures cols[m][n] == cols[m][starts[f]] {
      assert keys[n][m] == keys[starts[f]][m];
    }
    if f >= 1 {
      var j := starts[f];
      RunStartsIncreasing(keys, nnz);
      assert j > 0;
      assert j in starts;
      RunStartsExactly(keys, nnz, j);
      assert keys[j] != keys[j - 1];
    }
  }

  /** Position n that starts fiber k: the fibers before it are the run starts
      seen below n, and the outer index changes from fiber k - 1 to fiber k
      exactly as it does from position n - 1 to n. */
  lemma NewFiberOuters(cols: seq<seq<nat>>, nnz: nat, n: nat)
    requires Shaped(cols, nnz) && 1 <= n < nnz
    requires OuterKeys(cols, nnz)[n] != OuterKeys(cols, nnz)[n - 1]
    ensures var k := |RunStarts(OuterKeys(cols, nnz), n)|;
      var o := FiberOuters(cols, nnz);
      1 <= k < |o| && o[k - 1] == cols[0][n - 1] && o[k] == cols[0][n]
  {
    var keys := OuterKeys(cols, nnz);
    var starts := FiberStarts(cols, nnz);
    var k := |RunStarts(keys, n)|;
    RunStartsPrefix(keys, n + 1, nnz);
    assert RunStarts(keys, n + 1) == RunStarts(keys, n) + [n];
    assert starts[k] == n;
    RunStartsPrefix(keys, n, nnz);
    assert starts[k - 1] == RunStarts(keys, n)[k - 1];
    assert starts[k - 1] <= n - 1;
    assert RunEnd(keys, nnz, k - 1) == n;
    RunConstant(keys, nnz, k - 1, n - 1);
    assert keys[n - 1][0] == keys[starts[k - 1]][0];
  }

  /** The last fiber's outer index is that of the last nonzero. */
  lemma LastFiberOuter(cols: seq<seq<nat>>, nnz: nat)
    requires Shaped(cols, nnz)
    ensures var o := FiberOuters(cols, nnz); o[|o| - 1] == cols[0][nnz - 1]
  {
    var keys := OuterKeys(cols, nnz);
    var starts := FiberStarts(cols, nnz);
    var f := |starts| - 1;
    RunConstant(keys, nnz, f, nnz - 1);
    assert keys[nnz - 1][0] == keys[starts[f]][0];
  }

  /** With the outermost column non-decreasing, so are the fibers' outer indices. */
  lemma FiberOutersNonDecreasing(cols: seq<seq<nat>>, nnz: nat)
    requires Shaped(cols, nnz) && NonDecreasing(cols[0])
    ensures NonDecreasing(FiberOuters(cols, nnz))
  {
    RunStartsIncreasing(OuterKeys(cols, nnz), nnz);
    ProjectNonDecreasing(cols[0], FiberStarts(cols, nnz));
  }

  /** A compressed-sparse-row matrix with nrows rows and column indices below ncols. */
  ghost predicate CsrValid(rowptr: seq<nat>, colind: seq<nat>, nrows: nat, ncols: nat)
  {
    && |rowptr| == nrows + 1
    && rowptr[0] == 0 && rowptr[nrows] == |colind|
    && NonDecreasing(rowptr)
    && AllBelow(colind, ncols)
  }

  /** Read as rows, the fibers form a valid CSR matrix: one row per fiber,
      the innermost indices as column indices. */
  lemma FibersFormCsr(cols: seq<seq<nat>>, nnz: nat, ncols: nat)
    requires Shaped(cols, nnz)
    requires AllBelow(cols[|cols| - 1], ncols)
    ensures CsrValid(FiberStarts(cols, nnz) + [nnz], cols[|cols| - 1], |FiberStarts(cols, nnz)|, ncols)
  {
    FiberPointers(cols, nnz);
  }
}
