/** The preference among samples is a strict weak order, so that the search for the least preferred
    sample finds one, and filling in counts does not disturb it. */
module Stat4Order {
  import opened Stat4Spec

  lemma {:induction false} BetterFromWeak(x: Sample, y: Sample, z: Sample, nCol: nat, j: nat)
    requires Shaped(x, nCol) && Shaped(y, nCol) && Shaped(z, nCol) && j <= nCol
    ensures BetterFrom(x, y, nCol, j) ==> !BetterFrom(y, x, nCol, j)
    ensures BetterFrom(x, y, nCol, j) && BetterFrom(y, z, nCol, j) ==> BetterFrom(x, z, nCol, j)
    ensures BetterFrom(x, z, nCol, j) ==> BetterFrom(x, y, nCol, j) || BetterFrom(y, z, nCol, j)
    decreases nCol - j
  {
    if j < nCol { BetterFromWeak(x, y, z, nCol, j + 1); }
  }

  /** Asymmetric, transitive, and with transitive incomparability. */
  lemma BetterWeak(x: Sample, y: Sample, z: Sample, nCol: nat)
    requires Shaped(x, nCol) && Shaped(y, nCol) && Shaped(z, nCol)
    ensures Better(x, y, nCol) ==> !Better(y, x, nCol)
    ensures Better(x, y, nCol) && Better(y, z, nCol) ==> Better(x, z, nCol)
    ensures Better(x, z, nCol) ==> Better(x, y, nCol) || Better(y, z, nCol)
  {
    BetterFromWeak(x, y, z, nCol, x.col + 1);
    BetterFromWeak(x, z, y, nCol, x.col + 1);
  }

  /** a[m] is a non-periodic sample that is preferred over no other one. */
  ghost predicate Least(a: seq<Sample>, nCol: nat, m: int)
    requires forall k :: 0 <= k < |a| ==> Shaped(a[k], nCol)
  {
    && 0 <= m < |a| && !a[m].periodic
    && forall k :: 0 <= k < |a| && !a[k].periodic ==> !Better(a[m], a[k], nCol)
  }

  /** find_new_min: the assert that there is one holds when not all samples are periodic. */
  lemma {:induction false} MinIsLeast(a: seq<Sample>, nCol: nat, n: nat)
    requires n <= |a| && forall k :: 0 <= k < |a| ==> Shaped(a[k], nCol)
    ensures var m := MinOf(a, nCol, n);
            if m < 0 then forall k :: 0 <= k < n ==> a[k].periodic
            else !a[m].periodic && forall k :: 0 <= k < n && !a[k].periodic ==> !Better(a[m], a[k], nCol)
  {
    if n > 0 {
      MinIsLeast(a, nCol, n - 1);
      var m, m' := MinOf(a, nCol, n - 1), MinOf(a, nCol, n);
      if m' >= 0 {
        forall k | 0 <= k < n && !a[k].periodic ensures !Better(a[m'], a[k], nCol) {
          BetterWeak(a[m'], a[m'], a[k], nCol);
          if m >= 0 { BetterWeak(a[m], a[m'], a[k], nCol); }
        }
      }
    }
  }

  lemma {:induction false} BetterFromSame(x: Sample, y: Sample, x': Sample, y': Sample, nCol: nat, j: nat)
    requires Shaped(x, nCol) && Shaped(y, nCol) && Shaped(x', nCol) && Shaped(y', nCol) && j <= nCol
    requires x'.hash == x.hash && y'.hash == y.hash
    requires forall k :: j <= k < nCol ==> x'.eq[k] == x.eq[k] && y'.eq[k] == y.eq[k]
    ensures BetterFrom(x', y', nCol, j) == BetterFrom(x, y, nCol, j)
    decreases nCol - j
  {
    if j < nCol { BetterFromSame(x, y, x', y', nCol, j + 1); }
  }

  /** The counts from its column on are known. */
  predicate KnownFrom(s: Sample) {
    forall j :: s.col <= j < |s.eq| ==> s.eq[j] > 0
  }

  /** Filling in unknown counts does not change the preference. */
  lemma BetterPatched(x: Sample, y: Sample, current: Sample, chng: nat, nCol: nat)
    requires Shaped(x, nCol) && Shaped(y, nCol) && |current.eq| == nCol
    requires KnownFrom(x) && KnownFrom(y)
    ensures Better(Patch(x, current, chng), Patch(y, current, chng), nCol) == Better(x, y, nCol)
  {
    if x.col == y.col {
      BetterFromSame(x, y, Patch(x, current, chng), Patch(y, current, chng), nCol, x.col + 1);
    }
  }
}
