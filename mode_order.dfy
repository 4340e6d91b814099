/** The mode permutation a fiber tensor is built under (src/ftensor.c,
    fib_mode_order): the update mode first, an extremal-size mode last, the
    remaining modes between them in cyclic order. */
module ModeOrders {

  /** The mode at cyclic offset o from mode among n modes: (mode + o) % n. */
  function Rot(mode: nat, o: nat, n: nat): (r: nat)
    requires mode < n && o <= n
    ensures r < n
  {
    if mode + o < n then mode + o else mode + o - n
  }

  /** The cyclic offset of mode m from mode: the o in [0, n) with Rot(mode, o, n) == m. */
  function Offset(mode: nat, m: nat, n: nat): (o: nat)
    requires mode < n && m < n
    ensures o < n && Rot(mode, o, n) == m
  {
    if m >= mode then m - mode else m + n - mode
  }

  /** A size that wins the comparison: strictly larger when long fibers are
      preferred (SPLATT_LONG_FIB), strictly smaller otherwise. */
  predicate Better(x: nat, y: nat, longFib: bool)
  {
    if longFib then x > y else x < y
  }

  /** The size of the mode at cyclic offset o from mode. */
  function DimAt(dims: seq<nat>, mode: nat, o: nat): nat
    requires mode < |dims| && o <= |dims|
  {
    dims[Rot(mode, o, |dims|)]
  }

  /** The offset, among 1..k, of the mode kept by a left-to-right scan that
      replaces its candidate only by a strictly better size (1 when k <= 1). */
  function BestOffset(dims: seq<nat>, mode: nat, longFib: bool, k: nat): (o: nat)
    requires mode < |dims| && k < |dims|
    ensures 1 <= o && (o <= k || o == 1)
  {
    if k <= 1 then 1
    else
      var b := BestOffset(dims, mode, longFib, k - 1);
      if Better(DimAt(dims, mode, k), DimAt(dims, mode, b), longFib) then k else b
  }

  /** The mode placed last. */
  function ExtremalMode(dims: seq<nat>, mode: nat, longFib: bool): nat
    requires mode < |dims|
  {
    Rot(mode, BestOffset(dims, mode, longFib, |dims| - 1), |dims|)
  }

  /** The cyclic offset from mode held by slot j of the permutation, when the
      extremal mode sits at offset off: 0 first, off last, and the offsets
      1, 2, ... with off skipped in between. */
  function SlotOffset(n: nat, off: nat, j: nat): (o: nat)
    requires j < n && 1 <= off && (off < n || n == 1)
    ensures o < n
  {
    if j == 0 then 0
    else if j == n - 1 then off
    else if j < off then j
    else j + 1
  }

  /** The mode held by slot j of the permutation. */
  function Slot(dims: seq<nat>, mode: nat, longFib: bool, j: nat): (m: nat)
    requires mode < |dims| && j < |dims|
  {
    var n := |dims|;
    var off := BestOffset(dims, mode, longFib, n - 1);
    assert n > 1 ==> off < n by {
      if n > 1 { BestOffsetChosen(dims, mode, longFib, n - 1); }
    }
    Rot(mode, SlotOffset(n, off, j), n)
  }

  /** The permutation written to perm_dims: mode, then the other modes in
      cyclic order from mode + 1 with the extremal one skipped, then the
      extremal mode. */
  function ModeOrder(dims: seq<nat>, mode: nat, longFib: bool): (perm: seq<nat>)
    requires mode < |dims|
    ensures |perm| == |dims|
    ensures forall j :: 0 <= j < |perm| ==> perm[j] < |dims|
  {
    seq(|dims|, j requires 0 <= j < |dims| => Slot(dims, mode, longFib, j))
  }

  lemma ModIsRot(mode: nat, o: nat, n: nat)
    requires mode < n && o <= n
    ensures (mode + o) % n == Rot(mode, o, n)
  {
  }

  /** Distinct offsets name distinct modes. */
  lemma RotInjective(mode: nat, o1: nat, o2: nat, n: nat)
    requires mode < n && o1 < n && o2 < n && o1 != o2
    ensures Rot(mode, o1, n) != Rot(mode, o2, n)
  {
  }

  /** The scan keeps a strictly best size among offsets 1..k, and the first
      such offset: every earlier offset is strictly worse. */
  lemma {:induction false} BestOffsetChosen(dims: seq<nat>, mode: nat, longFib: bool, k: nat)
    requires mode < |dims| && 1 <= k < |dims|
    ensures var o := BestOffset(dims, mode, longFib, k);
      && 1 <= o <= k
      && (forall o' :: 1 <= o' <= k ==> !Better(DimAt(dims, mode, o'), DimAt(dims, mode, o), longFib))
      && (forall o' :: 1 <= o' < o ==> Better(DimAt(dims, mode, o), DimAt(dims, mode, o'), longFib))
  {
    if k > 1 {
      BestOffsetChosen(dims, mode, longFib, k - 1);
    }
  }

  /** The last mode differs from mode, has the largest size among the other
      modes when long fibers are preferred and the smallest otherwise, and of
      equal sizes it is the first in cyclic order after mode. */
  lemma ExtremalModeChosen(dims: seq<nat>, mode: nat, longFib: bool)
    requires 2 <= |dims| && mode < |dims|
    ensures var maxm := ExtremalMode(dims, mode, longFib);
      && maxm < |dims| && maxm != mode
      && (forall m :: 0 <= m < |dims| && m != mode ==>
            if longFib then dims[m] <= dims[maxm] else dims[m] >= dims[maxm])
      && (forall m :: 0 <= m < |dims| && m != mode && dims[m] == dims[maxm] ==>
            Offset(mode, maxm, |dims|) <= Offset(mode, m, |dims|))
  {
    var n := |dims|;
    var off := BestOffset(dims, mode, longFib, n - 1);
    var maxm := ExtremalMode(dims, mode, longFib);
    BestOffsetChosen(dims, mode, longFib, n - 1);
    RotInjective(mode, 0, off, n);
    assert Offset(mode, maxm, n) == off by {
      if Offset(mode, maxm, n) != off {
        RotInjective(mode, Offset(mode, maxm, n), off, n);
      }
    }
    forall m | 0 <= m < n && m != mode
      ensures if longFib then dims[m] <= dims[maxm] else dims[m] >= dims[maxm]
      ensures dims[m] == dims[maxm] ==> off <= Offset(mode, m, n)
    {
      var o := Offset(mode, m, n);
      assert o != 0;
      assert DimAt(dims, mode, o) == dims[m];
    }
  }

  /** Distinct slots hold distinct offsets. */
  lemma SlotOffsetInjective(n: nat, off: nat, i: nat, j: nat)
    requires i < j < n && 1 <= off < n
    ensures SlotOffset(n, off, i) != SlotOffset(n, off, j)
  {
  }

  /** Slot j of ModeOrder holds the mode at the slot's offset. */
  lemma ModeOrderAt(dims: seq<nat>, mode: nat, longFib: bool, j: nat)
    requires mode < |dims| && j < |dims|
    ensures var n := |dims|;
      var off := BestOffset(dims, mode, longFib, n - 1);
      && (off < n || n == 1)
      && ModeOrder(dims, mode, longFib)[j] == Rot(mode, SlotOffset(n, off, j), n)
  {
    if |dims| > 1 {
      BestOffsetChosen(dims, mode, longFib, |dims| - 1);
    }
  }

  /** No mode appears twice in ModeOrder. */
  lemma ModeOrderDistinct(dims: seq<nat>, mode: nat, longFib: bool, i: nat, j: nat)
    requires mode < |dims| && i < j < |dims|
    ensures ModeOrder(dims, mode, longFib)[i] != ModeOrder(dims, mode, longFib)[j]
  {
    var n := |dims|;
    var off := BestOffset(dims, mode, longFib, n - 1);
    ModeOrderAt(dims, mode, longFib, i);
    ModeOrderAt(dims, mode, longFib, j);
    SlotOffsetInjective(n, off, i, j);
    RotInjective(mode, SlotOffset(n, off, i), SlotOffset(n, off, j), n);
  }

  /** Every mode appears in ModeOrder. */
  lemma ModeOrderCovers(dims: seq<nat>, mode: nat, longFib: bool, m: nat)
    requires mode < |dims| && m < |dims|
    ensures m in ModeOrder(dims, mode, longFib)
  {
    var n := |dims|;
    var off := BestOffset(dims, mode, longFib, n - 1);
    var o := Offset(mode, m, n);
    ModeOrderAt(dims, mode, longFib, 0);
    if n > 1 {
      var j := if o == 0 then 0 else if o == off then n - 1 else if o < off then o else o - 1;
      ModeOrderAt(dims, mode, longFib, j);
      assert SlotOffset(n, off, j) == o;
    }
  }

  /** ModeOrder is a permutation of 0..n-1 with mode first and the extremal mode last. */
  lemma ModeOrderIsPermutation(dims: seq<nat>, mode: nat, longFib: bool)
    requires mode < |dims|
    ensures var perm := ModeOrder(dims, mode, longFib);
      && perm[0] == mode
      && perm[|dims| - 1] == ExtremalMode(dims, mode, longFib)
      && (forall i, j :: 0 <= i < j < |perm| ==> perm[i] != perm[j])
      && (forall m :: 0 <= m < |dims| ==> m in perm)
  {
    var n := |dims|;
    ModeOrderAt(dims, mode, longFib, 0);
    ModeOrderAt(dims, mode, longFib, n - 1);
    forall i, j | 0 <= i < j < n
      ensures ModeOrder(dims, mode, longFib)[i] != ModeOrder(dims, mode, longFib)[j]
    {
      ModeOrderDistinct(dims, mode, longFib, i, j);
    }
    forall m | 0 <= m < n ensures m in ModeOrder(dims, mode, longFib) {
      ModeOrderCovers(dims, mode, longFib, m);
    }
  }

  /** The slots between the first and the last hold the other modes in
      cyclic order from mode + 1: their offsets from mode strictly increase. */
  lemma ModeOrderCyclic(dims: seq<nat>, mode: nat, longFib: bool)
    requires mode < |dims|
    ensures var perm := ModeOrder(dims, mode, longFib);
      forall i, j :: 1 <= i < j < |dims| - 1 ==>
        Offset(mode, perm[i], |dims|) < Offset(mode, perm[j], |dims|)
  {
    var n := |dims|;
    var perm := ModeOrder(dims, mode, longFib);
    if n > 2 {
      var off := BestOffset(dims, mode, longFib, n - 1);
      BestOffsetChosen(dims, mode, longFib, n - 1);
      forall j | 1 <= j < n - 1
        ensures Offset(mode, perm[j], n) == if j < off then j else j + 1
      {
        var o := SlotOffset(n, off, j);
        assert perm[j] == Rot(mode, o, n);
        if Offset(mode, perm[j], n) != o {
          RotInjective(mode, Offset(mode, perm[j], n), o, n);
        }
      }
    }
  }

  /** The mode at cyclic offset mo, other than the extremal one, is written
      to the slot after the mo - 1 (or mo - 2, once the extremal offset is
      passed) modes written before it. */
  lemma FillSlot(dims: seq<nat>, mode: nat, longFib: bool, mo: nat)
    requires 2 <= |dims| && mode < |dims| && 1 <= mo < |dims|
    requires mo != BestOffset(dims, mode, longFib, |dims| - 1)
    ensures var off := BestOffset(dims, mode, longFib, |dims| - 1);
      var mark := if off < mo then mo - 1 else mo;
      1 <= mark < |dims| - 1 && Slot(dims, mode, longFib, mark) == Rot(mode, mo, |dims|)
  {
    var n := |dims|;
    var off := BestOffset(dims, mode, longFib, n - 1);
    BestOffsetChosen(dims, mode, longFib, n - 1);
    var mark := if off < mo then mo - 1 else mo;
    assert SlotOffset(n, off, mark) == mo;
  }

  /** The search for the extremal mode in fib_mode_order: starting from
      mode + 1, scan the other modes in cyclic order and keep a candidate
      that only a strictly better size replaces. */
  method ScanExtremal(dims: seq<nat>, mode: nat, longFib: bool) returns (maxm: nat)
    requires mode < |dims|
    ensures maxm == ExtremalMode(dims, mode, longFib)
  {
    var n := |dims|;
    ModIsRot(mode, 1, n);
    maxm := (mode + 1) % n;
    var mo := 1;
    while mo < n
      invariant 1 <= mo <= n
      invariant maxm == Rot(mode, BestOffset(dims, mode, longFib, mo - 1), n)
    {
      ModIsRot(mode, mo, n);
      if Better(dims[(mode + mo) % n], dims[maxm], longFib) {
        maxm := (mode + mo) % n;
      }
      mo := mo + 1;
    }
  }

  /** fib_mode_order: fills the first |dims| slots of permDims with ModeOrder
      and leaves the remaining slots as they were. */
  method FibModeOrder(dims: seq<nat>, mode: nat, longFib: bool, permDims: array<nat>)
    requires mode < |dims| <= permDims.Length
    modifies permDims
    ensures permDims[..|dims|] == ModeOrder(dims, mode, longFib)
    ensures forall j :: |dims| <= j < permDims.Length ==> permDims[j] == old(permDims[j])
  {
    var n := |dims|;
    permDims[0] := mode;
    var maxm := ScanExtremal(dims, mode, longFib);

    ghost var off := BestOffset(dims, mode, longFib, n - 1);
    permDims[n - 1] := maxm;
    assert Slot(dims, mode, longFib, 0) == mode && Slot(dims, mode, longFib, n - 1) == maxm;
    var mark := 1;
    var mo := 1;
    while mo < n
      invariant 1 <= mo <= n
      invariant 1 <= mark <= n
      invariant n >= 2 ==> mark == if off < mo then mo - 1 else mo
      invariant permDims[0] == Slot(dims, mode, longFib, 0)
      invariant permDims[n - 1] == Slot(dims, mode, longFib, n - 1)
      invariant forall j :: 1 <= j < mark ==> permDims[j] == Slot(dims, mode, longFib, j)
      invariant forall j :: n <= j < permDims.Length ==> permDims[j] == old(permDims[j])
    {
      var mround := (mode + mo) % n;
      assert mround == Rot(mode, mo, n) by { ModIsRot(mode, mo, n); }
      if mround != maxm {
        FillSlot(dims, mode, longFib, mo);
        permDims[mark] := mround;
        mark := mark + 1;
      } else {
        assert mo == off by {
          if mo != off { RotInjective(mode, mo, off, n); }
        }
      }
      mo := mo + 1;
    }
    assert forall j :: 0 <= j < n ==> permDims[j] == Slot(dims, mode, longFib, j);
  }
}
