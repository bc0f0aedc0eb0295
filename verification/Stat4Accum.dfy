/** The STAT4 accumulator of analyze.c as it runs: an object whose counters, candidates and samples
    are updated in place. Every method is proved to compute the function of Stat4Spec. */
module Stat4Machine {
  import opened Stat4Spec
  import opened Stat4Text
  import Stat4Rows

  datatype Answer = None | Rowid(rowid: RowKey)
  datatype Which = NEq | NLt | NDLt

  class Stat4Accum {
    const nCol: nat
    const nKeyCol: nat
    const mxSample: nat
    const nPSample: nat
    const best: array<Sample>
    const a: array<Sample>
    var nRow: nat
    var current: Sample
    var prn: nat
    var nSample: nat
    var iMin: nat
    var nMaxEqZero: nat
    var iGet: int

    ghost predicate Valid()
      reads this, best, a
    {
      && a != best && a.Length == mxSample && nSample <= mxSample && 0 < nKeyCol <= nCol && iGet >= -1
      && WellShaped(View())
    }

    /** The state as a value. */
    ghost function View(): Accum
      reads this, best, a
      requires nSample <= a.Length
    {
      Accum(nRow, nPSample, nCol, mxSample, current, prn, best[..], a[..nSample], iMin, nMaxEqZero)
    }

    /** stat_init */
    constructor (nCol: nat, nKeyCol: nat, c: nat, mxSample: nat)
      requires 0 < nKeyCol <= nCol && mxSample > 0
      ensures Valid() && fresh(a) && fresh(best) && iGet == -1
      ensures this.nCol == nCol && this.nKeyCol == nKeyCol && View() == Init(nCol, c, mxSample, Seed(nCol, c))
    {
      hide Seed, Init;
      this.nCol, this.nKeyCol, this.mxSample := nCol, nKeyCol, mxSample;
      var zeros := seq(nCol, _ => 0);
      var zero := Sample(zeros, zeros, zeros, IntegerKey(0), false, 0, 0);
      nRow, nSample, iMin, nMaxEqZero, iGet := 0, 0, 0, 0, -1;
      nPSample := c / (mxSample / 3 + 1) + 1;
      current := zero;
      prn := Seed(nCol, c);
      a := new Sample[mxSample](_ => zero);
      best := new Sample[nCol](_ => zero);
      new;
      NumberCandidates();
      InitIs(nCol, c, mxSample, Seed(nCol, c), View());
    }

    /** Every candidate gets its column. */
    method NumberCandidates()
      requires best.Length == nCol
      modifies best
      ensures forall k :: 0 <= k < nCol ==> best[k] == old(best[k]).(col := k)
    {
      var i := 0;
      while i < nCol
        invariant 0 <= i <= nCol
        invariant forall k :: 0 <= k < nCol ==> best[k] == if k < i then old(best[k]).(col := k) else old(best[k])
      {
        best[i] := best[i].(col := i);
        i := i + 1;
      }
    }

    method SampleIsBetterPost(x: Sample, y: Sample) returns (b: bool)
      requires Shaped(x, nCol) && Shaped(y, nCol)
      ensures b == BetterPost(x, y, nCol)
    {
      var i := x.col + 1;
      while i < nCol
        invariant x.col < i <= nCol
        invariant BetterFrom(x, y, nCol, i) == BetterPost(x, y, nCol)
      {
        if x.eq[i] > y.eq[i] { return true; }
        if x.eq[i] < y.eq[i] { return false; }
        i := i + 1;
      }
      b := x.hash > y.hash;
    }

    method SampleIsBetter(x: Sample, y: Sample) returns (b: bool)
      requires Shaped(x, nCol) && Shaped(y, nCol)
      ensures b == Better(x, y, nCol)
    {
      var nEqNew, nEqOld := x.eq[x.col], y.eq[y.col];
      if nEqNew > nEqOld { return true; }
      if nEqNew == nEqOld {
        if x.col < y.col { return true; }
        if x.col != y.col { return false; }
        b := SampleIsBetterPost(x, y);
        return;
      }
      return false;
    }

    /** The search of sampleInsert for samples that share the prefix. */
    method FindShared(col: nat) returns (found: Scan)
      requires Valid() && col < nCol
      ensures found == Sharing(a[..nSample], nCol, col, nSample, Absent)
      ensures found.Upgrade? ==> found.k < nSample
    {
      found := Absent;
      var i := nSample;
      while i > 0
        invariant 0 <= i <= nSample && !found.Blocked?
        invariant found.Upgrade? ==> i <= found.k < nSample
        invariant Sharing(a[..nSample], nCol, col, i, found) == Sharing(a[..nSample], nCol, col, nSample, Absent)
      {
        i := i - 1;
        assert a[..nSample][i] == a[i] && Shaped(View().a[i], nCol);
        if a[i].eq[col] == 0 {
          if a[i].periodic { return Blocked; }
          if found.Absent? {
            found := Upgrade(i);
          } else {
            assert a[..nSample][found.k] == a[found.k] && Shaped(View().a[found.k], nCol);
            var better := SampleIsBetter(a[i], a[found.k]);
            if better { found := Upgrade(i); }
          }
        }
      }
    }

    /** find_new_min */
    method FindNewMin()
      requires nSample <= a.Length && a.Length == mxSample && nCol > 0
      requires forall k :: 0 <= k < nSample ==> Shaped(a[k], nCol)
      modifies this`iMin
      ensures View() == WithMin(old(View()))
    {
      if nSample >= mxSample {
        var m, i := -1, 0;
        while i < mxSample
          invariant 0 <= i <= mxSample && m < i
          invariant m == MinOf(a[..nSample], nCol, i)
        {
          assert a[..nSample][i] == a[i];
          if !a[i].periodic {
            if m < 0 {
              m := i;
            } else {
              assert a[..nSample][m] == a[m];
              var better := SampleIsBetter(a[m], a[i]);
              if better { m := i; }
            }
          }
          i := i + 1;
        }
        iMin := if m < 0 then 0 else m;
      }
    }

    method SampleInsert(s: Sample, nEqZero: nat)
      requires Valid() && Shaped(s, nCol) && nEqZero <= nCol
      modifies this`nMaxEqZero, this`nSample, this`iMin, a
      ensures Valid() && View() == Insert(old(View()), s, nEqZero)
    {
      hide Sharing, WithMin, MinOf, Better, ZeroFront;
      if nEqZero > nMaxEqZero { nMaxEqZero := nEqZero; }
      if !s.periodic {
        var found := FindShared(s.col);
        if found.Blocked? { return; }
        if found.Upgrade? {
          UpgradeSample(found.k, s);
          return;
        }
      }
      AppendSample(s, nEqZero);
    }

    /** Sample k takes over the column of s and its count. */
    method UpgradeSample(k: nat, s: Sample)
      requires Valid() && Shaped(s, nCol) && k < nSample
      modifies this`iMin, a
      ensures Valid()
      ensures var p := old(View());
              View() == WithMin(p.(a := p.a[k := p.a[k].(col := s.col, eq := p.a[k].eq[s.col := s.eq[s.col]])]))
    {
      hide MinOf, Better;
      ghost var was := a[..nSample];
      assert was[k] == a[k] && Shaped(View().a[k], nCol);
      a[k] := a[k].(col := s.col, eq := a[k].eq[s.col := s.eq[s.col]]);
      assert a[..nSample] == was[k := a[k]];
      FindNewMin();
    }

    method AppendSample(s: Sample, nEqZero: nat)
      requires Valid() && Shaped(s, nCol) && nEqZero <= nCol
      modifies this`nSample, this`iMin, a
      ensures Valid()
      ensures var p := old(View());
              View() == WithMin(p.(a := (if |p.a| >= p.mxSample then RemoveAt(p.a, p.iMin) else p.a)
                                     + [ZeroFront(s, nEqZero)]))
    {
      hide MinOf, Better;
      ghost var p := View();
      if nSample >= mxSample {
        assert a[..] == a[..nSample];
        Evict();
      }
      ghost var rest := a[..nSample];
      a[nSample] := ZeroFront(s, nEqZero);
      nSample := nSample + 1;
      assert a[..nSample] == rest + [ZeroFront(s, nEqZero)];
      forall k | 0 <= k < |rest| ensures Shaped(rest[k], nCol) { assert rest[k] in p.a; }
      FindNewMin();
    }

    /** Sample iMin removed from the full array. */
    method Evict()
      requires nSample == mxSample == a.Length && iMin < nSample
      modifies this`nSample, a
      ensures nSample == mxSample - 1 && a[..nSample] == RemoveAt(old(a[..]), old(iMin))
    {
      forall k | iMin <= k < nSample - 1 { a[k] := a[k + 1]; }
      nSample := mxSample - 1;
    }

    /** The candidate of a column whose group ends. */
    method PushBest(i: nat)
      requires Valid() && i < nCol
      modifies this`nMaxEqZero, this`nSample, this`iMin, a, best
      ensures Valid() && View() == CloseColumn(old(View()), i)
    {
      hide Insert, Better;
      ghost var was := View();
      assert Shaped(was.best[i], nCol) && Shaped(was.current, nCol);
      best[i] := best[i].(eq := best[i].eq[i := current.eq[i]]);
      assert View() == was.(best := was.best[i := best[i]]);
      var insert := nSample < mxSample;
      if !insert {
        assert Shaped(was.a[iMin], nCol) && was.a[iMin] == a[iMin];
        insert := SampleIsBetter(best[i], a[iMin]);
      }
      if insert { SampleInsert(best[i], i); }
      assert View() == CloseColumn(was, i);
    }

    method SamplePushPrevious(iChng: nat)
      requires Valid() && iChng < nCol
      modifies this`nMaxEqZero, this`nSample, this`iMin, a, best
      ensures Valid() && View() == PushPrevious(old(View()), iChng)
    {
      hide WellShaped, CloseColumn, PatchAll;
      var i := nCol - 1;
      while i > iChng
        invariant Valid() && 0 <= i < nCol
        invariant CloseColumns(View(), iChng, i) == CloseColumns(old(View()), iChng, nCol - 1)
      {
        i := i - 1;
        PushBest(i);
      }
      if iChng < nMaxEqZero {
        PatchSamples(iChng);
        nMaxEqZero := iChng;
      }
      assert View() == PushPrevious(old(View()), iChng);
    }

    /** The unknown counts from column iChng on are filled in. */
    method PatchSamples(iChng: nat)
      requires Valid() && iChng < nCol
      modifies a
      ensures Valid() && a[..nSample] == PatchAll(old(a[..nSample]), current, iChng)
    {
      var i := nSample;
      while i > 0
        invariant 0 <= i <= nSample
        invariant forall k :: 0 <= k < i ==> a[k] == old(a[k])
        invariant forall k :: i <= k < nSample ==> a[k] == Patch(old(a[..nSample])[k], current, iChng)
      {
        i := i - 1;
        assert Shaped(old(View()).a[i], nCol);
        var s := a[i];
        var j := iChng;
        while j < nCol
          invariant iChng <= j <= nCol && |a[i].eq| == nCol && a[i] == s.(eq := a[i].eq)
          invariant forall l :: 0 <= l < nCol ==>
            a[i].eq[l] == if iChng <= l < j && s.eq[l] == 0 then current.eq[l] else s.eq[l]
          invariant forall k :: 0 <= k < i ==> a[k] == old(a[k])
          invariant forall k :: i < k < nSample ==> a[k] == Patch(old(a[..nSample])[k], current, iChng)
        {
          if a[i].eq[j] == 0 { a[i] := a[i].(eq := a[i].eq[j := current.eq[j]]); }
          j := j + 1;
        }
        assert a[i].eq == Patch(s, current, iChng).eq;
      }
    }

    /** stat_push */
    method StatPush(iChng: nat, rowid: RowKey)
      requires Valid() && iChng < nCol
      modifies this, a, best
      ensures Valid() && View() == Push(old(View()), iChng, rowid) && iGet == old(iGet)
    {
      hide PushPrevious, Insert, WellShaped, BetterPost, IsPeriodic, Advance, NextPrn;
      ghost var p := View();
      Advances(iChng);
      nRow := nRow + 1;
      prn := NextPrn(prn);
      current := current.(rowid := rowid, hash := prn);
      assert View() == Arrive(p, iChng, rowid);
      ConsiderPeriodic();
      ConsiderCandidates(iChng);
    }

    /** The counters of the new row, behind the end of the previous one. */
    method Advances(iChng: nat)
      requires Valid() && iChng < nCol
      modifies this`nMaxEqZero, this`nSample, this`iMin, this`current, a, best
      ensures Valid()
      ensures var p := old(View());
              var p1 := if p.nRow == 0 then p else PushPrevious(p, iChng);
              View() == p1.(current := Advance(p1.current, iChng, p.nRow == 0))
    {
      hide PushPrevious, BetterPost, Advance;
      if nRow == 0 {
        FirstCounters(iChng);
      } else {
        SamplePushPrevious(iChng);
        NextCounters(iChng);
      }
    }

    method FirstCounters(iChng: nat)
      requires Valid() && iChng < nCol
      modifies this`current
      ensures Valid() && View() == old(View()).(current := Advance(old(current), iChng, true))
    {
      var i := 0;
      ghost var c, q := current, View();
      assert Shaped(c, nCol);
      while i < nCol
        modifies this`current
        invariant 0 <= i <= nCol && |current.eq| == nCol && current == c.(eq := current.eq)
        invariant forall k :: 0 <= k < nCol ==> current.eq[k] == if k < i then 1 else c.eq[k]
      {
        current := current.(eq := current.eq[i := 1]);
        i := i + 1;
      }
      assert current.eq == Advance(c, iChng, true).eq;
      assert View() == q.(current := current);
    }

    method NextCounters(iChng: nat)
      requires Valid() && iChng < nCol
      modifies this`current
      ensures Valid() && View() == old(View()).(current := Advance(old(current), iChng, false))
    {
      ghost var c, q := current, View();
      assert Shaped(c, nCol);
      var i := 0;
      while i < iChng
        modifies this`current
        invariant 0 <= i <= iChng && |current.eq| == nCol && current == c.(eq := current.eq)
        invariant forall k :: 0 <= k < nCol ==> current.eq[k] == if k < i then c.eq[k] + 1 else c.eq[k]
      {
        current := current.(eq := current.eq[i := current.eq[i] + 1]);
        i := i + 1;
      }
      while i < nCol
        modifies this`current
        invariant iChng <= i <= nCol && |current.eq| == |current.lt| == |current.dlt| == nCol
        invariant current == c.(eq := current.eq, lt := current.lt, dlt := current.dlt)
        invariant forall k :: 0 <= k < nCol ==>
          current.eq[k] == if k < iChng then c.eq[k] + 1 else if k < i then 1 else c.eq[k]
        invariant forall k :: 0 <= k < nCol ==> current.lt[k] == if iChng <= k < i then c.lt[k] + c.eq[k] else c.lt[k]
        invariant forall k :: 0 <= k < nCol ==> current.dlt[k] == if iChng <= k < i then c.dlt[k] + 1 else c.dlt[k]
      {
        var dlt, lt := current.dlt[i] + 1, current.lt[i] + current.eq[i];
        current := current.(dlt := current.dlt[i := dlt]);
        current := current.(lt := current.lt[i := lt]);
        current := current.(eq := current.eq[i := 1]);
        i := i + 1;
      }
      assert current.eq == Advance(c, iChng, false).eq;
      assert current.lt == Advance(c, iChng, false).lt;
      assert current.dlt == Advance(c, iChng, false).dlt;
      assert View() == q.(current := current);
    }

    method ConsiderPeriodic()
      requires Valid()
      modifies this`nMaxEqZero, this`nSample, this`iMin, this`current, a
      ensures Valid() && View() == Periodic(old(View()))
    {
      hide Insert;
      var nLt := current.lt[nCol - 1];
      if nLt / nPSample != (nLt + 1) / nPSample {
        current := current.(periodic := true);
        current := current.(col := 0);
        SampleInsert(current, nCol - 1);
        current := current.(periodic := false);
      }
    }

    method ConsiderCandidates(iChng: nat)
      requires Valid()
      modifies this`current, best
      ensures Valid() && View() == Select(old(View()), iChng)
    {
      ghost var p := View();
      var i := 0;
      while i < nCol - 1
        invariant 0 <= i && (i < nCol || nCol == 0)
        invariant current == p.current.(col := current.col) && (current.col == if i == 0 then p.current.col else i - 1)
        invariant forall k :: 0 <= k < nCol ==> best[k] == if k < i then Candidate(p, iChng, k) else p.best[k]
      {
        current := current.(col := i);
        assert Shaped(p.best[i], nCol) && Shaped(current, nCol);
        var copy := i >= iChng;
        if !copy { copy := SampleIsBetterPost(current, best[i]); }
        if copy { best[i] := current; }
        assert best[i] == Candidate(p, iChng, i);
        i := i + 1;
      }
      assert View() == Select(p, iChng);
    }

    // ----- stat_get

    /** STAT_GET_STAT1: the number of rows and an estimate per key column. */
    method GetStat1() returns (zRet: string)
      requires Valid() && nRow < COUNT_MODULUS
      requires forall i :: 0 <= i < nKeyCol ==> Estimates(nRow, current.dlt[..nKeyCol])[i] < COUNT_MODULUS
      ensures zRet == Joined([nRow] + Estimates(nRow, current.dlt[..nKeyCol]))
    {
      ghost var all := Estimates(nRow, current.dlt[..nKeyCol]);
      NumberFits(nRow);
      zRet := Snprintf(Decimal(nRow), 24);
      var i := 0;
      while i < nKeyCol
        invariant 0 <= i <= nKeyCol
        invariant zRet == Joined([nRow] + all[..i])
      {
        var nDistinct := current.dlt[i] + 1;
        var iVal := (nRow + nDistinct - 1) / nDistinct;
        assert iVal == all[i];
        NumberFits(iVal);
        JoinedSnoc([nRow] + all[..i], iVal);
        assert [nRow] + all[..i + 1] == [nRow] + all[..i] + [iVal];
        zRet := zRet + Snprintf(" " + Decimal(iVal), 24);
        i := i + 1;
      }
      assert all[..i] == all;
    }

    /** STAT_GET_ROWID: the first call closes the groups of the last row. */
    method GetRowid() returns (r: Answer)
      requires Valid()
      modifies this`nMaxEqZero, this`nSample, this`iMin, this`iGet, a, best
      ensures Valid() && View() == (if old(iGet) < 0 then Flush(old(View())) else old(View()))
      ensures iGet == if old(iGet) < 0 then 0 else old(iGet)
      ensures r == if iGet < nSample then Rowid(a[iGet].rowid) else None
    {
      if iGet < 0 {
        SamplePushPrevious(0);
        iGet := 0;
      }
      r := if iGet < nSample then Rowid(a[iGet].rowid) else None;
    }

    /** STAT_GET_NEQ, STAT_GET_NLT and STAT_GET_NDLT; the last one moves on to the next sample. */
    method GetCounts(which: Which) returns (zRet: string)
      requires Valid() && 0 <= iGet < nSample && Printable(a[iGet])
      modifies this`iGet
      ensures Valid() && View() == old(View()) && iGet == old(iGet) + if which.NDLt? then 1 else 0
      ensures zRet == Joined(Counts(a[old(iGet)], which))
    {
      assert a[iGet] == View().a[iGet];
      zRet := PrintCounts(Counts(a[iGet], which));
      if which.NDLt? { iGet := iGet + 1; }
    }
  }

  lemma InitIs(nCol: nat, c: nat, mxSample: nat, seed: nat, p: Accum)
    requires nCol > 0 && mxSample > 0
    requires p.nRow == 0 && p.nPSample == c / (mxSample / 3 + 1) + 1 && p.nCol == nCol && p.mxSample == mxSample
    requires p.prn == seed && p.a == [] && p.iMin == 0 && p.nMaxEqZero == 0
    requires var zeros := seq(nCol, _ => 0);
             var zero := Sample(zeros, zeros, zeros, IntegerKey(0), false, 0, 0);
             && p.current == zero && |p.best| == nCol
             && forall k :: 0 <= k < nCol ==> p.best[k] == zero.(col := k)
    ensures p == Init(nCol, c, mxSample, seed)
  {
    assert p.best == Init(nCol, c, mxSample, seed).best;
  }

  /** The stat1 estimates for the given numbers of distinct smaller prefixes. */
  function Estimates(nRow: nat, dlt: seq<nat>): (r: seq<nat>)
    ensures |r| == |dlt|
  {
    seq(|dlt|, i requires 0 <= i < |dlt| => Stat4Rows.Estimate(nRow, dlt[i]))
  }

  function Counts(s: Sample, which: Which): seq<nat> {
    match which
    case NEq => s.eq
    case NLt => s.lt
    case NDLt => s.dlt
  }

  /** All counts fit in 64 bits. */
  predicate Printable(s: Sample) {
    forall w: Which, i :: 0 <= i < |Counts(s, w)| ==> Counts(s, w)[i] < COUNT_MODULUS
  }
}
