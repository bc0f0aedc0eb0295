/** Which samples are kept: what closing a column does to the retained samples, that every group has one as
    long as there is room, that nothing preferred is lost when there is not, and that the candidate of an open
    group is its best row. */
module Stat4Kept {
  import opened Stat4Spec
  import opened Stat4Groups
  import opened Stat4Order
  import opened Stat4Proof

  // ----- The preference

  /** sampleIsBetter, spelled out: a larger count of the selected prefix; then a shorter prefix; then, in the
      first longer prefix whose counts differ, the larger one; then the larger hash. */
  lemma BetterExactly(x: Sample, y: Sample, nCol: nat)
    requires Shaped(x, nCol) && Shaped(y, nCol)
    ensures Better(x, y, nCol) <==>
            || x.eq[x.col] > y.eq[y.col]
            || (x.eq[x.col] == y.eq[y.col] && x.col < y.col)
            || (x.eq[x.col] == y.eq[y.col] && x.col == y.col && FirstDiffers(x, y, nCol, x.col + 1))
  {
    FirstDiffersIs(x, y, nCol, x.col + 1);
  }

  ghost predicate FirstDiffers(x: Sample, y: Sample, nCol: nat, k: nat)
    requires Shaped(x, nCol) && Shaped(y, nCol) && k <= nCol
  {
    || (exists j :: k <= j < nCol && x.eq[j] > y.eq[j] && x.eq[k..j] == y.eq[k..j])
    || (x.eq[k..] == y.eq[k..] && x.hash > y.hash)
  }

  lemma {:induction false} FirstDiffersIs(x: Sample, y: Sample, nCol: nat, k: nat)
    requires Shaped(x, nCol) && Shaped(y, nCol) && k <= nCol
    ensures BetterFrom(x, y, nCol, k) <==> FirstDiffers(x, y, nCol, k)
    decreases nCol - k
  {
    if k < nCol {
      FirstDiffersIs(x, y, nCol, k + 1);
      FirstDiffersStep(x, y, nCol, k);
    }
  }

  lemma FirstDiffersStep(x: Sample, y: Sample, nCol: nat, k: nat)
    requires Shaped(x, nCol) && Shaped(y, nCol) && k < nCol
    ensures FirstDiffers(x, y, nCol, k)
            <==> x.eq[k] > y.eq[k] || (x.eq[k] == y.eq[k] && FirstDiffers(x, y, nCol, k + 1))
  {
    var next := k + 1;
    forall j | next <= j <= nCol
      ensures x.eq[k..j] == y.eq[k..j] <==> x.eq[k] == y.eq[k] && x.eq[next..j] == y.eq[next..j]
    {
      SplitFirst(x.eq, k, j);
      SplitFirst(y.eq, k, j);
    }
    assert x.eq[k..] == x.eq[k..nCol] && y.eq[k..] == y.eq[k..nCol];
    assert x.eq[next..] == x.eq[next..nCol] && y.eq[next..] == y.eq[next..nCol];
    assert x.eq[k..k] == y.eq[k..k];
    if j :| next <= j < nCol && x.eq[j] > y.eq[j] && x.eq[next..j] == y.eq[next..j] && x.eq[k] == y.eq[k] {
      assert x.eq[k..j] == y.eq[k..j];
    }
  }

  lemma SplitFirst(z: seq<nat>, k: nat, j: nat)
    requires k < j <= |z|
    ensures z[k..j] == [z[k]] + z[k + 1..j]
  {
  }

  // ----- One column closed

  /** A sample in the group of column i that ends. */
  ghost predicate Shares(p: Accum, ch: seq<nat>, n: nat, i: nat, l: nat)
    requires 0 < n <= |ch| && l < |p.a|
  {
    InOpen(p.a[l], ch, n, i)
  }

  /** The candidate is stored behind the samples that remain. */
  ghost predicate Stored(p: Accum, r: seq<Sample>, i: nat)
    requires WellShaped(p) && i < p.nCol
  {
    r == Remaining(p) + [ZeroFront(Closed(p, i), i)]
  }

  /** Sample u takes over column i; no sample of the group is preferred over it. */
  ghost predicate Upgraded(p: Accum, ch: seq<nat>, n: nat, i: nat, u: nat, r: seq<Sample>)
    requires WellShaped(p) && 0 < n <= |ch| && i < p.nCol && u < |p.a|
  {
    && Shares(p, ch, n, i, u)
    && (forall l :: 0 <= l < |p.a| && Shares(p, ch, n, i, l) ==> !Better(p.a[l], p.a[u], p.nCol))
    && r == p.a[u := p.a[u].(col := i, eq := p.a[u].eq[i := p.current.eq[i]])]
  }

  /** What becomes of the samples when a group ends. With a periodic sample in the group, nothing changes. With
      others, the best of them is upgraded. With none, the candidate is stored when there is room or it is
      preferred over the least preferred sample, which then goes. */
  lemma ClosedExactly(p: Accum, ch: seq<nat>, n: nat, i: nat)
    requires Inv(p, ch, n, i + 1) && i < p.nCol - 1 && Led(p.a, ch, n, i + 1)
    ensures var r := CloseColumn(p, i).a;
            if exists l :: 0 <= l < |p.a| && Shares(p, ch, n, i, l) && p.a[l].periodic then r == p.a
            else if exists l :: 0 <= l < |p.a| && Shares(p, ch, n, i, l) then
              exists u :: 0 <= u < |p.a| && Upgraded(p, ch, n, i, u, r)
            else if |p.a| < p.mxSample || Better(Closed(p, i), p.a[p.iMin], p.nCol) then Stored(p, r, i)
            else r == p.a
  {
    hide SampleOk, CandidateOk, CurrentOk, Better, WithMin, Sharing, NoneZero, InOpen, Ordered, PeriodicOk, ZeroFront;
    SharingResult(p.a, p.nCol, i, |p.a|, Absent);
    ClosedCandidate(p, ch, n, i);
    forall l | 0 <= l < |p.a| ensures Shares(p, ch, n, i, l) <==> Unknown(p.a[l], i) {
      OpenAt(p, ch, n, i, l);
    }
    if |p.a| < p.mxSample || Better(Closed(p, i), p.a[p.iMin], p.nCol) {
      Inserted(p, ch, n, i);
    } else {
      PassedOver(p, ch, n, i);
    }
  }

  lemma Inserted(p: Accum, ch: seq<nat>, n: nat, i: nat)
    requires Inv(p, ch, n, i + 1) && i < p.nCol - 1
    requires |p.a| < p.mxSample || Better(Closed(p, i), p.a[p.iMin], p.nCol)
    requires forall l :: 0 <= l < |p.a| ==> (Shares(p, ch, n, i, l) <==> Unknown(p.a[l], i))
    ensures var r := CloseColumn(p, i).a;
            match Sharing(p.a, p.nCol, i, |p.a|, Absent)
            case Blocked => r == p.a && exists l :: 0 <= l < |p.a| && Shares(p, ch, n, i, l) && p.a[l].periodic
            case Upgrade(u) => && Upgraded(p, ch, n, i, u, r)
                               && forall l :: 0 <= l < |p.a| && Shares(p, ch, n, i, l) ==> !p.a[l].periodic
            case Absent => Stored(p, r, i) && forall l :: 0 <= l < |p.a| ==> !Shares(p, ch, n, i, l)
  {
    hide SampleOk, CandidateOk, CurrentOk, Better, Sharing, NoneZero, InOpen, Ordered, PeriodicOk, ZeroFront, MinOf,
         Shares;
    SharingResult(p.a, p.nCol, i, |p.a|, Absent);
    ClosedCandidate(p, ch, n, i);
  }

  lemma PassedOver(p: Accum, ch: seq<nat>, n: nat, i: nat)
    requires Inv(p, ch, n, i + 1) && i < p.nCol - 1
    requires |p.a| == p.mxSample && !Better(Closed(p, i), p.a[p.iMin], p.nCol)
    ensures CloseColumn(p, i).a == p.a
    ensures forall l :: 0 <= l < |p.a| && Shares(p, ch, n, i, l) ==> p.a[l].periodic
  {
    hide CandidateOk, CurrentOk, NoneZero, Better, Ordered, PeriodicOk;
    var b := Closed(p, i);
    ClosedCandidate(p, ch, n, i);
    forall l | 0 <= l < |p.a| && InOpen(p.a[l], ch, n, i) ensures p.a[l].periodic {
      OpenAt(p, ch, n, i, l);
      if !p.a[l].periodic {
        assert SampleOk(p.a[l], ch, n, i + 1) && Shaped(p.a[l], p.nCol);
        CandidateBetter(b, p.a[l], ch, n, i, p.nCol);
        BetterWeak(b, p.a[p.iMin], p.a[l], p.nCol);
        assert false;
      }
    }
  }

  /** When the array is full nothing preferred is lost: a candidate that is passed over is preferred over no
      sample that was not kept for its period, and a sample that is evicted over none that stays. */
  lemma NothingBetterLost(p: Accum, ch: seq<nat>, n: nat, i: nat, l: nat)
    requires Inv(p, ch, n, i + 1) && i < p.nCol - 1 && |p.a| == p.mxSample && l < |p.a| && !p.a[l].periodic
    ensures !Better(Closed(p, i), p.a[p.iMin], p.nCol) ==> !Better(Closed(p, i), p.a[l], p.nCol)
    ensures Better(Closed(p, i), p.a[p.iMin], p.nCol) ==>
              !Better(p.a[p.iMin], Closed(p, i), p.nCol) && !Better(p.a[p.iMin], p.a[l], p.nCol)
    ensures !p.a[p.iMin].periodic
  {
    hide CandidateOk, CurrentOk, SampleOk, NoneZero, Better, Ordered, PeriodicOk;
    var b := Closed(p, i);
    assert Shaped(p.a[l], p.nCol) && Shaped(p.a[p.iMin], p.nCol) && Shaped(b, p.nCol);
    BetterWeak(b, p.a[p.iMin], p.a[l], p.nCol);
    BetterWeak(b, p.a[l], p.a[p.iMin], p.nCol);
  }

  // ----- While there is room, every group has a sample

  /** Some sample is in the group of column i that row r is in. */
  ghost predicate Represented(a: seq<Sample>, ch: seq<nat>, i: nat, r: nat)
    requires r < |ch|
  {
    exists l :: 0 <= l < |a| && InGroup(a[l], ch, i, r)
  }

  ghost predicate InGroup(s: Sample, ch: seq<nat>, i: nat, r: nat)
    requires r < |ch|
  {
    RowOf(s) < |ch| && Start(ch, i, RowOf(s)) == Start(ch, i, r)
  }

  /** Every group that has ended, and of the open ones those of the columns from k on. */
  ghost predicate Covered(a: seq<Sample>, ch: seq<nat>, n: nat, k: nat, nCol: nat)
    requires 0 < n <= |ch|
  {
    forall i, r :: 0 <= i < nCol - 1 && 0 <= r < n && Ended(ch, n, k, i, r) ==> Represented(a, ch, i, r)
  }

  predicate Ended(ch: seq<nat>, n: nat, k: nat, i: nat, r: nat)
    requires 0 < n <= |ch|
  {
    i >= k || Start(ch, i, n - 1) > r
  }

  /** No row loses its sample. */
  ghost predicate KeepsRows(a: seq<Sample>, a': seq<Sample>) {
    forall l :: 0 <= l < |a| ==> HasRow(a', RowOf(a[l]))
  }

  ghost predicate HasRow(a: seq<Sample>, r: nat) {
    exists l :: 0 <= l < |a| && RowOf(a[l]) == r
  }

  lemma KeptRepresented(a: seq<Sample>, a': seq<Sample>, ch: seq<nat>, i: nat, r: nat)
    requires r < |ch| && KeepsRows(a, a') && Represented(a, ch, i, r)
    ensures Represented(a', ch, i, r)
  {
    hide RowOf;
    var l :| 0 <= l < |a| && InGroup(a[l], ch, i, r);
    assert HasRow(a', RowOf(a[l]));
    var l' :| 0 <= l' < |a'| && RowOf(a'[l']) == RowOf(a[l]);
    assert InGroup(a'[l'], ch, i, r);
  }

  lemma InsertKeeps(p: Accum, s: Sample, nEqZero: nat)
    requires WellShaped(p) && Shaped(s, p.nCol) && nEqZero <= p.nCol
    ensures |Insert(p, s, nEqZero).a| >= |p.a|
    ensures |p.a| < p.mxSample ==> KeepsRows(p.a, Insert(p, s, nEqZero).a)
  {
    hide Sharing, MinOf, ZeroFront, RowOf;
    var share := if s.periodic then Absent else Sharing(p.a, p.nCol, s.col, |p.a|, Absent);
    match share
    case Blocked =>
      SameRows(p.a, p.a);
    case Upgrade(k) =>
      var u := p.a[k].(col := s.col, eq := p.a[k].eq[s.col := s.eq[s.col]]);
      assert RowOf(u) == RowOf(p.a[k]) by { SameLt(u, p.a[k]); }
      SameRows(p.a, p.a[k := u]);
    case Absent =>
      if |p.a| < p.mxSample { MoreRows(p.a, ZeroFront(s, nEqZero)); }
  }

  lemma SameLt(x: Sample, y: Sample)
    requires x.lt == y.lt
    ensures RowOf(x) == RowOf(y)
  {
  }

  lemma SameRows(a: seq<Sample>, a': seq<Sample>)
    requires |a| == |a'| && forall l :: 0 <= l < |a| ==> RowOf(a'[l]) == RowOf(a[l])
    ensures KeepsRows(a, a')
  {
    forall l | 0 <= l < |a| ensures HasRow(a', RowOf(a[l])) {
      assert RowOf(a'[l]) == RowOf(a[l]);
    }
  }

  lemma MoreRows(a: seq<Sample>, s: Sample)
    ensures KeepsRows(a, a + [s])
  {
    forall l | 0 <= l < |a| ensures HasRow(a + [s], RowOf(a[l])) {
      assert (a + [s])[l] == a[l];
    }
  }

  /** A sample of the open group is one of every row in it. */
  lemma OpenRepresents(a: seq<Sample>, ch: seq<nat>, n: nat, i: nat, l: nat, r: nat)
    requires 0 < n <= |ch| && l < |a| && RowOf(a[l]) < n && InOpen(a[l], ch, n, i)
    requires Start(ch, i, n - 1) <= r < n
    ensures Represented(a, ch, i, r)
  {
    StartShared(ch, i, RowOf(a[l]), n - 1);
    StartShared(ch, i, r, n - 1);
    assert InGroup(a[l], ch, i, r);
  }

  /** Closing column i gives its open group a sample. */
  lemma CloseColumnCovers(p: Accum, ch: seq<nat>, n: nat, i: nat)
    requires Inv(p, ch, n, i + 1) && i < p.nCol - 1 && Led(p.a, ch, n, i + 1)
    requires Covered(p.a, ch, n, i + 1, p.nCol)
    requires |CloseColumn(p, i).a| < p.mxSample
    ensures Covered(CloseColumn(p, i).a, ch, n, i, p.nCol)
  {
    hide Inv, Led, Insert, Better, RowOf, InOpen, Start, Represented;
    InvShape(p, ch, n, i + 1);
    var a := CloseColumn(p, i).a;
    ClosedKeeps(p, ch, n, i);
    var l := OpenSample(p, ch, n, i);
    forall j, r | 0 <= j < p.nCol - 1 && 0 <= r < n && Ended(ch, n, i, j, r) ensures Represented(a, ch, j, r) {
      if j == i && Start(ch, i, n - 1) <= r {
        OpenRepresents(a, ch, n, i, l, r);
      } else {
        assert Ended(ch, n, i + 1, j, r);
        KeptRepresented(p.a, a, ch, j, r);
      }
    }
  }

  lemma ClosedKeeps(p: Accum, ch: seq<nat>, n: nat, i: nat)
    requires Inv(p, ch, n, i + 1) && i < p.nCol - 1
    ensures WellShaped(p) && 0 < n <= |ch| && |p.a| <= |CloseColumn(p, i).a|
    ensures |p.a| < p.mxSample ==> KeepsRows(p.a, CloseColumn(p, i).a)
  {
    hide SampleOk, CandidateOk, CurrentOk, Better, NoneZero, Ordered, PeriodicOk, Insert, RowOf;
    ClosedCandidate(p, ch, n, i);
    var b := Closed(p, i);
    var p1 := p.(best := p.best[i := b]);
    InsertKeeps(p1, b, i);
    SameRows(p.a, p.a);
  }

  lemma OpenSample(p: Accum, ch: seq<nat>, n: nat, i: nat) returns (l: nat)
    requires Inv(p, ch, n, i + 1) && i < p.nCol - 1 && Led(p.a, ch, n, i + 1)
    requires |p.a| < p.mxSample
    ensures var a := CloseColumn(p, i).a; l < |a| && RowOf(a[l]) < n && InOpen(a[l], ch, n, i)
  {
    ClosedExactly(p, ch, n, i);
    ClosedCandidate(p, ch, n, i);
    hide Led, CloseColumn, Better, NoneZero, Ordered, PeriodicOk, CandidateOk, CurrentOk, Closed, ZeroFront;
    var r := CloseColumn(p, i).a;
    if l' :| 0 <= l' < |p.a| && Shares(p, ch, n, i, l') && p.a[l'].periodic {
      l := l';
      RowBelow(p, ch, n, i, l);
    } else if exists l' :: 0 <= l' < |p.a| && Shares(p, ch, n, i, l') {
      var u :| 0 <= u < |p.a| && Upgraded(p, ch, n, i, u, r);
      l := u;
      RowBelow(p, ch, n, i, l);
      SameLt(r[u], p.a[u]);
    } else {
      l := |p.a|;
      SameBut(Closed(p, i), i);
      SameLt(r[l], Closed(p, i));
      CandidateBelow(p, ch, n, i);
    }
  }

  lemma RowBelow(p: Accum, ch: seq<nat>, n: nat, i: nat, l: nat)
    requires Inv(p, ch, n, i + 1) && l < |p.a|
    ensures RowOf(p.a[l]) < n
  {
    assert SampleOk(p.a[l], ch, n, i + 1);
  }

  lemma CandidateBelow(p: Accum, ch: seq<nat>, n: nat, i: nat)
    requires Inv(p, ch, n, i + 1) && i < p.nCol - 1
    ensures RowOf(Closed(p, i)) < n && i <= |Closed(p, i).eq|
  {
    assert CandidateOk(p.best[i], ch, n, i);
  }

  lemma {:induction false} CloseColumnsCovers(p: Accum, ch: seq<nat>, n: nat, chng: nat, k: nat)
    requires Inv(p, ch, n, k) && chng <= k && Led(p.a, ch, n, k)
    requires |p.a| < p.mxSample ==> Covered(p.a, ch, n, k, p.nCol)
    ensures var r := CloseColumns(p, chng, k); |r.a| < p.mxSample ==> Covered(r.a, ch, n, chng, p.nCol)
    decreases k
  {
    hide Inv, Led, CloseColumn, Covered;
    if k > chng {
      InvShape(p, ch, n, k);
      CloseColumnOk(p, ch, n, k - 1);
      var p1 := CloseColumn(p, k - 1);
      ClosedKeeps(p, ch, n, k - 1);
      if |p1.a| < p.mxSample { CloseColumnCovers(p, ch, n, k - 1); }
      CloseColumnsCovers(p1, ch, n, chng, k - 1);
    }
  }

  /** A new row ends the groups of the columns from its changed one on. */
  lemma CoveredNext(a: seq<Sample>, ch: seq<nat>, n: nat, nCol: nat)
    requires 0 < n < |ch| && nCol > 0 && Covered(a, ch, n, ch[n], nCol)
    ensures Covered(a, ch, n + 1, nCol - 1, nCol)
  {
    hide Represented;
    forall i, r | 0 <= i < nCol - 1 && 0 <= r < n + 1 && Ended(ch, n + 1, nCol - 1, i, r)
      ensures Represented(a, ch, i, r)
    {
      assert Ended(ch, n, ch[n], i, r);
    }
  }

  lemma CoveredKept(a: seq<Sample>, a': seq<Sample>, ch: seq<nat>, n: nat, k: nat, nCol: nat)
    requires 0 < n <= |ch| && Covered(a, ch, n, k, nCol) && KeepsRows(a, a')
    ensures Covered(a', ch, n, k, nCol)
  {
    hide Represented, KeepsRows;
    forall i, r | 0 <= i < nCol - 1 && 0 <= r < n && Ended(ch, n, k, i, r) ensures Represented(a', ch, i, r) {
      KeptRepresented(a, a', ch, i, r);
    }
  }

  lemma PatchRows(a: seq<Sample>, current: Sample, chng: nat)
    requires forall k :: 0 <= k < |a| ==> |a[k].eq| == |current.eq|
    ensures |PatchAll(a, current, chng)| == |a| && KeepsRows(a, PatchAll(a, current, chng))
  {
    SameRows(a, PatchAll(a, current, chng));
  }

  /** samplePushPrevious. */
  lemma PushPreviousCovers(p: Accum, ch: seq<nat>, n: nat)
    requires Stable(p, ch, n) && n < |ch| && ChangesOk(ch, p.nCol)
    requires |p.a| < p.mxSample ==> Covered(p.a, ch, n, p.nCol - 1, p.nCol)
    ensures var r := PushPrevious(p, ch[n]); |r.a| < p.mxSample ==> Covered(r.a, ch, n, ch[n], p.nCol)
  {
    hide CloseColumns, CandidateOk, CurrentOk, SampleOk, Better, Led, Ordered, PeriodicOk, NoneZero, Patch, Covered,
         KeepsRows, PatchAll, RowOf;
    StableLed(p, ch, n);
    CloseColumnsCovers(p, ch, n, ch[n], p.nCol - 1);
    var p1 := CloseColumns(p, ch[n], p.nCol - 1);
    PatchRows(p1.a, p1.current, ch[n]);
    if |p1.a| < p.mxSample { CoveredKept(p1.a, PatchAll(p1.a, p1.current, ch[n]), ch, n, ch[n], p.nCol); }
  }

  lemma PushCovers(p: Accum, ch: seq<nat>, n: nat, rowid: RowKey)
    requires Stable(p, ch, n) && n < |ch| && ChangesOk(ch, p.nCol)
    requires |p.a| < p.mxSample ==> Covered(p.a, ch, n, p.nCol - 1, p.nCol)
    ensures var r := Push(p, ch[n], rowid); |r.a| < p.mxSample ==> Covered(r.a, ch, n + 1, p.nCol - 1, p.nCol)
  {
    PushPreviousCovers(p, ch, n);
    StableShape(p, ch, n);
    var next, q := n + 1, Arrive(p, ch[n], rowid);
    PeriodicKeeps(q);
    hide Stable, Covered, PushPrevious, Insert, KeepsRows, Advance, IsPeriodic, Candidate, Periodic;
    var r := Periodic(q);
    if |r.a| < p.mxSample {
      CoveredNext(q.a, ch, n, p.nCol);
      CoveredKept(q.a, r.a, ch, next, p.nCol - 1, p.nCol);
    }
  }

  lemma PeriodicKeeps(p: Accum)
    requires WellShaped(p)
    ensures |Periodic(p).a| >= |p.a|
    ensures |p.a| < p.mxSample ==> KeepsRows(p.a, Periodic(p).a)
  {
    hide Insert, RowOf, IsPeriodic;
    var c := p.current.(periodic := true, col := 0);
    InsertKeeps(p.(current := c), c, p.nCol - 1);
    SameRows(p.a, p.a);
  }

  lemma {:induction false} RunCovers(nCol: nat, c: nat, mxSample: nat, seed: nat,
                                     ch: seq<nat>, rowids: seq<RowKey>, n: nat)
    requires nCol > 0 && mxSample > 0 && ValidRun(ch, nCol) && |rowids| == |ch| && 0 < n <= |ch| && n <= c
    ensures var p := Run(Init(nCol, c, mxSample, seed), ch[..n], rowids[..n]);
            |p.a| < mxSample ==> Covered(p.a, ch, n, nCol - 1, nCol)
    decreases n
  {
    hide Stable, Push, Init;
    var p0 := Init(nCol, c, mxSample, seed);
    InitPeriod(nCol, c, mxSample, seed);
    assert ch[..n][..n - 1] == ch[..n - 1] && rowids[..n][..n - 1] == rowids[..n - 1];
    if n == 1 {
      assert Start(ch, 0, 0) == 0;
    } else {
      RunStable(nCol, c, mxSample, seed, ch, rowids, n - 1);
      RunCovers(nCol, c, mxSample, seed, ch, rowids, n - 1);
      PushCovers(Run(p0, ch[..n - 1], rowids[..n - 1]), ch, n - 1, rowids[n - 1]);
    }
  }

  /** While the array has never been full, every group of every column but the last has a sample after the
      flush: every value of every proper prefix is represented. */
  lemma FlushCovers(nCol: nat, c: nat, mxSample: nat, seed: nat, ch: seq<nat>, rowids: seq<RowKey>, i: nat, r: nat)
    requires nCol > 0 && mxSample > 0 && ValidRun(ch, nCol) && |rowids| == |ch| <= c
    requires i < nCol - 1 && r < |ch|
    ensures var q := Flush(Run(Init(nCol, c, mxSample, seed), ch, rowids));
            |q.a| < mxSample ==> Represented(q.a, ch, i, r)
  {
    hide Run, Init, Stable, PushPrevious, RowOf, Start;
    var n, ch', ids := |ch|, ch + [0], rowids + [IntegerKey(0)];
    assert ch'[..n] == ch && ids[..n] == rowids;
    RunStable(nCol, c, mxSample, seed, ch', ids, n);
    RunCovers(nCol, c, mxSample, seed, ch', ids, n);
    InitPeriod(nCol, c, mxSample, seed);
    var p := Run(Init(nCol, c, mxSample, seed), ch, rowids);
    PushPreviousCovers(p, ch', n);
    var q := Flush(p);
    if |q.a| < mxSample {
      assert Ended(ch', n, 0, i, r);
      var l :| 0 <= l < |q.a| && InGroup(q.a[l], ch', i, r);
      FlushedBelow(nCol, c, mxSample, seed, ch, rowids, l);
      Extended(ch, i, r);
      Extended(ch, i, RowOf(q.a[l]));
      assert InGroup(q.a[l], ch, i, r);
    }
  }

  lemma FlushedBelow(nCol: nat, c: nat, mxSample: nat, seed: nat, ch: seq<nat>, rowids: seq<RowKey>, l: nat)
    requires nCol > 0 && mxSample > 0 && ValidRun(ch, nCol) && |rowids| == |ch| <= c
    requires l < |Flush(Run(Init(nCol, c, mxSample, seed), ch, rowids)).a|
    ensures RowOf(Flush(Run(Init(nCol, c, mxSample, seed), ch, rowids)).a[l]) < |ch|
  {
    hide Run, Init, Flush, RowOf, ExactAt;
    InitPeriod(nCol, c, mxSample, seed);
    FlushExact(nCol, c, mxSample, seed, ch, rowids);
    var q := Flush(Run(Init(nCol, c, mxSample, seed), ch, rowids));
    assert Exact(q.a[l], ch);
  }

  /** A row at the period is stored whatever is there; in a full array the least preferred sample goes. */
  lemma PeriodicExactly(p: Accum, ch: seq<nat>, n: nat)
    requires Arrived(p, ch, n)
    ensures var r := Periodic(p);
            && (n % p.nPSample == 0 ==> r.a == WithPeriodic(p))
            && (n % p.nPSample != 0 ==> r.a == p.a)
    ensures |p.a| == p.mxSample ==> Least(p.a, p.nCol, p.iMin)
  {
    hide Better, MinOf, ZeroFront, Ordered, PeriodicOk, SampleOk, NoneZero, CandidateOk, IsPeriodic;
    assert LocatedAt(p.current, ch, p.nCol - 1);
    PeriodicMultiple(n - 1, p.nPSample);
  }

  // ----- The candidate of an open group

  /** The pseudo-random number that row r gets. */
  function PrnAt(seed: nat, r: nat): nat {
    NextPrn(if r == 0 then seed else PrnAt(seed, r - 1))
  }

  /** Row r as a candidate for column i when it arrives: so many rows of its groups have been counted. */
  function Arrival(ch: seq<nat>, i: nat, r: nat, nCol: nat, seed: nat): Sample
    requires r < |ch| && i < nCol
  {
    var zeros := seq(nCol, _ => 0);
    var counts := seq(nCol, j requires 0 <= j => r + 1 - Start(ch, j, r));
    Sample(counts, zeros, zeros, IntegerKey(0), false, i, PrnAt(seed, r))
  }

  /** The candidate is a row of the open group over which no other one of it is preferred. */
  ghost predicate Best(c: Sample, ch: seq<nat>, n: nat, i: nat, nCol: nat, seed: nat)
    requires 0 < n <= |ch| && i < nCol && Shaped(c, nCol) && c.col == i
  {
    && RowOf(c) < |ch| && c.hash == PrnAt(seed, RowOf(c))
    && forall q :: Start(ch, i, n - 1) <= q < n ==> !Preferred(c, ch, i, q, nCol, seed)
  }

  ghost predicate Preferred(c: Sample, ch: seq<nat>, i: nat, q: nat, nCol: nat, seed: nat)
    requires q < |ch| && i < nCol && Shaped(c, nCol) && c.col == i
  {
    BetterPost(Arrival(ch, i, q, nCol, seed), c, nCol)
  }

  ghost predicate AllBest(p: Accum, ch: seq<nat>, n: nat, seed: nat)
    requires WellShaped(p) && 0 < n <= |ch|
  {
    && p.prn == PrnAt(seed, n - 1) && p.current.hash == p.prn
    && forall i :: 0 <= i < p.nCol - 1 ==> Best(p.best[i], ch, n, i, p.nCol, seed)
  }

  /** The current row is what its arrival says. */
  lemma CurrentArrives(c: Sample, ch: seq<nat>, n: nat, i: nat, nCol: nat, seed: nat, y: Sample)
    requires CurrentOk(c, ch, n) && 0 < n && i < nCol && Shaped(c, nCol) && c.hash == PrnAt(seed, n - 1)
    requires Shaped(y, nCol) && y.col == i
    ensures BetterPost(Arrival(ch, i, n - 1, nCol, seed), y, nCol) == BetterPost(c.(col := i), y, nCol)
  {
    BetterFromSame(c.(col := i), y, Arrival(ch, i, n - 1, nCol, seed), y, nCol, i + 1);
  }

  /** A new row against the candidate so far. */
  lemma CandidateBest(p: Accum, ch: seq<nat>, n: nat, i: nat, seed: nat)
    requires WellShaped(p) && 0 < n <= |ch| && i < p.nCol - 1 && CurrentOk(p.current, ch, n)
    requires p.current.hash == PrnAt(seed, n - 1)
    requires n > 1 && ch[n - 1] > i ==> Best(p.best[i], ch, n - 1, i, p.nCol, seed)
    requires n == 1 ==> ch[0] <= i
    ensures Best(Candidate(p, ch[n - 1], i), ch, n, i, p.nCol, seed)
  {
    hide BetterPost, WellShaped;
    ShapesOf(p, i);
    var c, b := p.current.(col := i), p.best[i];
    var r := Candidate(p, ch[n - 1], i);
    CurrentArrives(p.current, ch, n, i, p.nCol, seed, c);
    CurrentArrives(p.current, ch, n, i, p.nCol, seed, b);
    PostWeak(c, c, c, p.nCol);
    forall q | Start(ch, i, n - 1) <= q < n ensures !Preferred(r, ch, i, q, p.nCol, seed) {
      if q < n - 1 {
        assert !Preferred(b, ch, i, q, p.nCol, seed);
        PostWeak(Arrival(ch, i, q, p.nCol, seed), c, b, p.nCol);
      }
    }
    SameLt(c, p.current);
  }

  lemma ShapesOf(p: Accum, i: nat)
    requires WellShaped(p) && i < p.nCol
    ensures |p.best| == p.nCol && Shaped(p.best[i], p.nCol) && p.best[i].col == i && Shaped(p.current, p.nCol)
  {
  }

  lemma PostWeak(x: Sample, y: Sample, z: Sample, nCol: nat)
    requires Shaped(x, nCol) && Shaped(y, nCol) && Shaped(z, nCol) && x.col == y.col == z.col
    ensures BetterPost(x, y, nCol) ==> !BetterPost(y, x, nCol)
    ensures BetterPost(x, y, nCol) && BetterPost(y, z, nCol) ==> BetterPost(x, z, nCol)
  {
    BetterFromWeak(x, y, z, nCol, x.col + 1);
  }

  /** Closing columns from k on leaves the candidates of those below k alone. */
  lemma {:induction false} CandidatesBelow(p: Accum, chng: nat, n: nat)
    requires WellShaped(p) && n <= p.nCol
    ensures forall i :: 0 <= i < chng && i < p.nCol ==> CloseColumns(p, chng, n).best[i] == p.best[i]
    decreases n
  {
    hide Insert, Better;
    if n > chng {
      CandidatesBelow(CloseColumn(p, n - 1), chng, n - 1);
    }
  }

  /** What a push leaves of the counters and candidates: those of the closed columns are replaced. */
  lemma ArriveParts(p: Accum, chng: nat, rowid: RowKey)
    requires WellShaped(p) && chng < p.nCol
    ensures var q := Arrive(p, chng, rowid);
            && q.prn == NextPrn(p.prn) && q.current.hash == q.prn
            && forall i :: 0 <= i < chng ==> q.best[i] == p.best[i]
  {
    hide CloseColumns, PatchAll, Advance;
    CandidatesBelow(p, chng, p.nCol - 1);
  }

  lemma PeriodicParts(p: Accum)
    requires WellShaped(p)
    ensures var r := Periodic(p);
            r.prn == p.prn && r.best == p.best && r.current.hash == p.current.hash
  {
    hide Insert, IsPeriodic;
  }

  lemma SelectBest(p: Accum, ch: seq<nat>, n: nat, seed: nat)
    requires WellShaped(p) && 0 < n <= |ch| && CurrentOk(p.current, ch, n) && (n == 1 ==> ch[0] == 0)
    requires p.prn == PrnAt(seed, n - 1) && p.current.hash == p.prn
    requires n > 1 ==> forall i :: 0 <= i < p.nCol - 1 && ch[n - 1] > i ==> Best(p.best[i], ch, n - 1, i, p.nCol, seed)
    ensures AllBest(Select(p, ch[n - 1]), ch, n, seed)
  {
    hide Best, Candidate;
    var r := Select(p, ch[n - 1]);
    forall i | 0 <= i < p.nCol - 1 ensures Best(r.best[i], ch, n, i, p.nCol, seed) {
      CandidateBest(p, ch, n, i, seed);
    }
  }

  lemma PushBest(p: Accum, ch: seq<nat>, n: nat, rowid: RowKey, seed: nat)
    requires Stable(p, ch, n) && n < |ch| && ChangesOk(ch, p.nCol) && ch[0] == 0 && Room(p, n + 1)
    requires WellShaped(p) && 0 < n && AllBest(p, ch, n, seed)
    ensures AllBest(Push(p, ch[n], rowid), ch, n + 1, seed)
  {
    StableShape(p, ch, n);
    ArriveOk(p, ch, n, rowid);
    var q := Arrive(p, ch[n], rowid);
    PeriodicOkStep(q, ch, n + 1);
    ArriveParts(p, ch[n], rowid);
    PeriodicParts(q);
    hide Stable, Arrive, Periodic, Select, Best, CandidateOk, CurrentOk, SampleOk, Sampled, Arrived, NextPrn,
         WellShaped;
    SelectBest(Periodic(q), ch, n + 1, seed);
  }

  lemma FirstBest(nCol: nat, c: nat, mxSample: nat, seed: nat, ch: seq<nat>, rowid: RowKey)
    requires nCol > 0 && mxSample > 0 && |ch| > 0 && ch[0] == 0 && ChangesOk(ch, nCol)
    requires Room(Init(nCol, c, mxSample, seed), 1)
    ensures AllBest(Push(Init(nCol, c, mxSample, seed), ch[0], rowid), ch, 1, seed)
  {
    var p := Init(nCol, c, mxSample, seed);
    FirstOk(nCol, c, mxSample, seed, ch, rowid);
    var q := Arrive(p, ch[0], rowid);
    PeriodicOkStep(q, ch, 1);
    ArriveParts(p, ch[0], rowid);
    PeriodicParts(q);
    InitPrn(nCol, c, mxSample, seed);
    hide Init, Arrive, Periodic, Select, Best, CandidateOk, CurrentOk, SampleOk, Sampled, Arrived, NextPrn, WellShaped;
    SelectBest(Periodic(q), ch, 1, seed);
  }

  lemma InitPrn(nCol: nat, c: nat, mxSample: nat, seed: nat)
    requires nCol > 0 && mxSample > 0
    ensures Init(nCol, c, mxSample, seed).prn == seed && NextPrn(seed) == PrnAt(seed, 0)
  {
  }

  /** In every reachable state the candidate of a column is a best row of its open group: none of the group
      had larger counts for the longer prefixes when it arrived, or the same counts and a larger hash. */
  lemma {:induction false} RunBest(nCol: nat, c: nat, mxSample: nat, seed: nat,
                                   ch: seq<nat>, rowids: seq<RowKey>, n: nat)
    requires nCol > 0 && mxSample > 0 && ValidRun(ch, nCol) && |rowids| == |ch| && 0 < n <= |ch| && n <= c
    ensures AllBest(Run(Init(nCol, c, mxSample, seed), ch[..n], rowids[..n]), ch, n, seed)
    decreases n
  {
    hide Stable, Push, Init, AllBest;
    var p0 := Init(nCol, c, mxSample, seed);
    InitPeriod(nCol, c, mxSample, seed);
    PeriodFits(c, mxSample);
    assert ch[..n][..n - 1] == ch[..n - 1] && rowids[..n][..n - 1] == rowids[..n - 1];
    if n == 1 {
      assert ch[..1][..0] == [];
      assert Run(p0, ch[..1], rowids[..1]) == Push(p0, ch[0], rowids[0]);
      FirstBest(nCol, c, mxSample, seed, ch, rowids[0]);
    } else {
      RunBest(nCol, c, mxSample, seed, ch, rowids, n - 1);
      RunStable(nCol, c, mxSample, seed, ch, rowids, n - 1);
      RunKeepsPeriod(p0, ch[..n - 1], rowids[..n - 1]);
      PushBest(Run(p0, ch[..n - 1], rowids[..n - 1]), ch, n - 1, rowids[n - 1], seed);
    }
  }

  /** So it is in a largest group of the next longer prefix, as far as that was counted. */
  lemma LargestSubgroup(c: Sample, ch: seq<nat>, n: nat, i: nat, nCol: nat, seed: nat, q: nat)
    requires 0 < n <= |ch| && i < nCol - 1 && Shaped(c, nCol) && CandidateOk(c, ch, n, i)
    requires Best(c, ch, n, i, nCol, seed) && Start(ch, i, n - 1) <= q < n
    ensures q - Start(ch, i + 1, q) <= RowOf(c) - Start(ch, i + 1, RowOf(c))
  {
    var next := i + 1;
    assert !Preferred(c, ch, i, q, nCol, seed);
    assert c.eq[next] == RowOf(c) + 1 - Start(ch, next, RowOf(c));
  }
}
