/** What every run of the STAT4 accumulator keeps, and what it ends with: the retained samples are
    in row order, the periodic ones are all there, and every count is exact. */
module Stat4Proof {
  import opened Arith
  import opened Stat4Spec
  import opened Stat4Groups
  import opened Stat4Order

  /** The row a sample stands for: the number of rows before it. */
  function RowOf(s: Sample): nat {
    if |s.lt| == 0 then 0 else s.lt[|s.lt| - 1]
  }

  // ----- One sample

  /** The counts of smaller rows and smaller prefixes are those of row r. */
  ghost predicate Located(s: Sample, ch: seq<nat>, n: nat) {
    && RowOf(s) < n <= |ch| && |s.lt| == |s.eq| && |s.dlt| == |s.eq| && |s.eq| > 0
    && forall j :: 0 <= j < |s.lt| ==> LocatedAt(s, ch, j)
  }

  ghost predicate LocatedAt(s: Sample, ch: seq<nat>, j: nat)
    requires j < |s.lt| && |s.dlt| == |s.lt| && RowOf(s) < |ch|
  {
    s.lt[j] == Start(ch, j, RowOf(s)) && s.dlt[j] == Groups(ch, j, RowOf(s))
  }

  /** The count of column j after n rows: exact when the group has ended; otherwise unknown, or filled
      in already for columns from k on. */
  ghost predicate CountAt(s: Sample, ch: seq<nat>, n: nat, k: nat, j: nat)
    requires j < |s.eq| && RowOf(s) < n <= |ch|
  {
    if s.eq[j] == 0 then j < |s.eq| - 1 && Start(ch, j, n - 1) <= RowOf(s)
    else s.eq[j] == Size(ch, j, RowOf(s), n) && (Start(ch, j, n - 1) > RowOf(s) || j >= k)
  }

  ghost predicate SampleOk(s: Sample, ch: seq<nat>, n: nat, k: nat) {
    && Located(s, ch, n)
    && (forall j :: 0 <= j < |s.eq| ==> CountAt(s, ch, n, k, j))
    && (!s.periodic ==> s.col < |s.eq| - 1 && KnownFrom(s))
  }

  // ----- The candidates

  /** The candidate of column i: a row of the open group, the last one of its group of column i + 1. */
  ghost predicate CandidateOk(c: Sample, ch: seq<nat>, n: nat, i: nat) {
    && Located(c, ch, n) && !c.periodic && c.col == i && i < |c.eq| - 1
    && Start(ch, i, n - 1) <= RowOf(c)
    && (RowOf(c) == n - 1 || ch[RowOf(c) + 1] <= i + 1)
    && forall j :: i < j < |c.eq| ==> c.eq[j] == RowOf(c) + 1 - Start(ch, j, RowOf(c))
  }

  /** The counters of the last row. */
  ghost predicate CurrentOk(c: Sample, ch: seq<nat>, n: nat) {
    && Located(c, ch, n) && RowOf(c) == n - 1 && !c.periodic
    && forall j :: 0 <= j < |c.eq| ==> c.eq[j] == n - Start(ch, j, n - 1)
  }

  // ----- The whole state

  ghost predicate Ordered(a: seq<Sample>) {
    forall k, l :: 0 <= k < l < |a| ==> RowOf(a[k]) < RowOf(a[l])
  }

  ghost predicate HasPeriodic(a: seq<Sample>, r: nat) {
    exists k :: 0 <= k < |a| && a[k].periodic && RowOf(a[k]) == r
  }

  /** The periodic samples are exactly the rows at the period. */
  ghost predicate PeriodicOk(a: seq<Sample>, n: nat, nPSample: nat)
    requires nPSample > 0
  {
    && (forall r :: 0 <= r < n && IsPeriodic(r, nPSample) ==> HasPeriodic(a, r))
    && (forall k :: 0 <= k < |a| && a[k].periodic ==> IsPeriodic(RowOf(a[k]), nPSample))
  }

  ghost predicate NoneZero(s: Sample, m: nat) {
    forall j :: m <= j < |s.eq| ==> s.eq[j] > 0
  }

  ghost predicate MinOk(p: Accum)
    requires WellShaped(p)
  {
    |p.a| == p.mxSample ==> Least(p.a, p.nCol, p.iMin)
  }

  /** The period leaves room for a sample that is not periodic. */
  predicate Room(p: Accum, n: nat) {
    n < p.nPSample * (p.mxSample / 3 + 1)
  }

  /** The state while the columns from k on of row n - 1 have been closed. */
  ghost predicate Inv(p: Accum, ch: seq<nat>, n: nat, k: nat) {
    && WellShaped(p) && 0 < n <= |ch| && k < p.nCol && Room(p, n)
    && CurrentOk(p.current, ch, n)
    && (forall i :: 0 <= i < p.nCol - 1 ==> CandidateOk(p.best[i], ch, n, i))
    && (forall l :: 0 <= l < |p.a| ==> SampleOk(p.a[l], ch, n, k))
    && (forall l :: 0 <= l < |p.a| ==> NoneZero(p.a[l], p.nMaxEqZero))
    && Ordered(p.a) && PeriodicOk(p.a, n, p.nPSample) && MinOk(p)
  }

  /** Sample s is in the group of column k that the last row is in. */
  ghost predicate InOpen(s: Sample, ch: seq<nat>, n: nat, k: nat)
    requires 0 < n <= |ch|
  {
    Start(ch, k, n - 1) <= RowOf(s)
  }

  /** Of the samples in the open group of column k, either one is periodic, or one was chosen for
      column k and the others for longer prefixes, or there is none. */
  ghost predicate Led(a: seq<Sample>, ch: seq<nat>, n: nat, k: nat)
    requires 0 < n <= |ch|
  {
    || (exists l :: 0 <= l < |a| && InOpen(a[l], ch, n, k) && a[l].periodic)
    || (forall l :: 0 <= l < |a| ==> !InOpen(a[l], ch, n, k))
    || (exists u :: 0 <= u < |a| && InOpen(a[u], ch, n, k) && a[u].col == k
                    && forall l :: 0 <= l < |a| && l != u && InOpen(a[l], ch, n, k) ==> a[l].col > k)
  }

  // ----- Facts about a sample of the open group

  /** Unknown counts mark the samples of the open group. */
  lemma UnknownIsOpen(s: Sample, ch: seq<nat>, n: nat, i: nat)
    requires SampleOk(s, ch, n, i + 1) && i < |s.eq| - 1 && n > 0
    ensures s.eq[i] == 0 <==> InOpen(s, ch, n, i)
  {
    assert CountAt(s, ch, n, i + 1, i);
  }

  lemma SizeNested(ch: seq<nat>, i: nat, j: nat, r: nat, n: nat)
    requires i <= j && r < n <= |ch| && Start(ch, i, n - 1) <= r
    ensures Size(ch, j, r, n) <= n - Start(ch, i, n - 1)
  {
    StartShared(ch, i, r, n - 1);
    StartNested(ch, i, j, r);
  }

  /** The asserts of sampleInsert: a non-periodic sample of the open group of column i that has no
      count there was chosen for a longer prefix, and the candidate of column i is preferred. */
  lemma CandidateBetter(b: Sample, s: Sample, ch: seq<nat>, n: nat, i: nat, nCol: nat)
    requires Shaped(b, nCol) && Shaped(s, nCol) && SampleOk(s, ch, n, i + 1) && n > 0
    requires b.col == i && i < nCol - 1 && b.eq[i] == n - Start(ch, i, n - 1)
    requires !s.periodic && s.eq[i] == 0
    ensures s.col > i && Better(b, s, nCol)
  {
    UnknownIsOpen(s, ch, n, i);
    assert s.col > i;
    assert CountAt(s, ch, n, i + 1, s.col);
    SizeNested(ch, i, s.col, RowOf(s), n);
  }

  // ----- Inserting the candidate of column i

  /** The candidate with its count, as samplePushPrevious hands it to sampleInsert. */
  function Closed(p: Accum, i: nat): Sample
    requires WellShaped(p) && i < p.nCol
  {
    p.best[i].(eq := p.best[i].eq[i := p.current.eq[i]])
  }

  /** What is stored of the candidate is exact: it was the last row of its subgroups. */
  lemma StoredOk(p: Accum, ch: seq<nat>, n: nat, i: nat)
    requires Inv(p, ch, n, i + 1) && i < p.nCol - 1
    ensures SampleOk(ZeroFront(Closed(p, i), i), ch, n, i)
    ensures NoneZero(ZeroFront(Closed(p, i), i), i)
  {
    var c := p.best[i];
    assert CandidateOk(c, ch, n, i);
    var s := ZeroFront(Closed(p, i), i);
    var r := RowOf(c);
    assert RowOf(s) == r;
    forall j | 0 <= j < |s.lt| ensures LocatedAt(s, ch, j) {
      assert LocatedAt(c, ch, j);
    }
    forall j | 0 <= j < |s.eq| ensures CountAt(s, ch, n, i, j) && (j >= i ==> s.eq[j] > 0) {
      EndOpen(ch, j, r, n);
      if j < i {
        StartNested(ch, j, i, n - 1);
      } else if j == i {
        StartShared(ch, i, r, n - 1);
      } else if r < n - 1 {
        StartAfter(ch, j, r + 1, n - 1);
      }
    }
  }

  /** Invariant k + 1 gives invariant k for a sample that is not touched. */
  lemma Weaken(s: Sample, ch: seq<nat>, n: nat, k: nat, k': nat)
    requires SampleOk(s, ch, n, k) && k' <= k
    ensures SampleOk(s, ch, n, k')
  {
    forall j | 0 <= j < |s.eq| ensures CountAt(s, ch, n, k', j) {
      assert CountAt(s, ch, n, k, j);
    }
  }

  // ----- The search for samples that share the prefix

  predicate Unknown(s: Sample, col: nat) {
    col < |s.eq| && s.eq[col] == 0
  }

  /** No sample of a[n..] that shares the prefix is periodic or preferred over the one found. */
  ghost predicate FoundBest(a: seq<Sample>, nCol: nat, col: nat, n: nat, found: Scan)
    requires forall k :: 0 <= k < |a| ==> Shaped(a[k], nCol)
  {
    && (forall k :: n <= k < |a| && Unknown(a[k], col) ==> !a[k].periodic)
    && match found
       case Blocked => false
       case Absent => forall k :: n <= k < |a| ==> !Unknown(a[k], col)
       case Upgrade(u) => n <= u < |a| && Unknown(a[u], col)
                          && forall k :: n <= k < |a| && Unknown(a[k], col) ==> !Better(a[k], a[u], nCol)
  }

  lemma {:induction false} SharingResult(a: seq<Sample>, nCol: nat, col: nat, n: nat, found: Scan)
    requires n <= |a| && col < nCol && !found.Blocked?
    requires forall k :: 0 <= k < |a| ==> Shaped(a[k], nCol)
    requires FoundBest(a, nCol, col, n, found)
    ensures var r := Sharing(a, nCol, col, n, found);
            if r.Blocked? then exists k :: 0 <= k < |a| && Unknown(a[k], col) && a[k].periodic
            else FoundBest(a, nCol, col, 0, r)
    decreases n
  {
    if n > 0 {
      var s := a[n - 1];
      assert Shaped(s, nCol);
      if !Unknown(s, col) {
        SharingResult(a, nCol, col, n - 1, found);
      } else if !s.periodic {
        BetterWeak(s, s, s, nCol);
        if found.Absent? {
          SharingResult(a, nCol, col, n - 1, Upgrade(n - 1));
        } else if Better(s, a[found.k], nCol) {
          forall k | n - 1 <= k < |a| && Unknown(a[k], col) ensures !Better(a[k], s, nCol) {
            BetterWeak(a[k], s, a[found.k], nCol);
          }
          SharingResult(a, nCol, col, n - 1, Upgrade(n - 1));
        } else {
          SharingResult(a, nCol, col, n - 1, found);
        }
      }
    }
  }

  lemma MinAfter(p: Accum)
    requires p.nCol > 0 && forall k :: 0 <= k < |p.a| ==> Shaped(p.a[k], p.nCol)
    requires |p.a| >= p.mxSample ==> exists k :: 0 <= k < |p.a| && !p.a[k].periodic
    ensures |p.a| >= p.mxSample ==> Least(p.a, p.nCol, WithMin(p).iMin)
    ensures WithMin(p) == p.(iMin := WithMin(p).iMin)
  {
    MinIsLeast(p.a, p.nCol, |p.a|);
  }

  // ----- One column closed

  /** The parts of the invariant that do not concern the retained samples. */
  ghost predicate Frame(p: Accum, ch: seq<nat>, n: nat, k: nat) {
    && WellShaped(p) && 0 < n <= |ch| && k < p.nCol && Room(p, n)
    && CurrentOk(p.current, ch, n)
    && (forall i :: 0 <= i < p.nCol - 1 ==> CandidateOk(p.best[i], ch, n, i))
  }

  ghost predicate SamplesOk(a: seq<Sample>, ch: seq<nat>, n: nat, k: nat, m: nat, nPSample: nat)
    requires nPSample > 0
  {
    && (forall l :: 0 <= l < |a| ==> SampleOk(a[l], ch, n, k))
    && (forall l :: 0 <= l < |a| ==> NoneZero(a[l], m))
    && Ordered(a) && PeriodicOk(a, n, nPSample)
  }

  lemma InvParts(p: Accum, ch: seq<nat>, n: nat, k: nat)
    requires WellShaped(p)
    ensures Inv(p, ch, n, k) <==>
            Frame(p, ch, n, k) && SamplesOk(p.a, ch, n, k, p.nMaxEqZero, p.nPSample) && MinOk(p)
  {
    hide SampleOk, NoneZero, Ordered, PeriodicOk, CandidateOk, CurrentOk, WellShaped;
  }

  /** Giving the candidate its count changes nothing the invariant says of it. */
  lemma CandidateKept(c: Sample, ch: seq<nat>, n: nat, i: nat, x: nat)
    requires CandidateOk(c, ch, n, i) && i < |c.eq|
    ensures CandidateOk(c.(eq := c.eq[i := x]), ch, n, i)
  {
    var c' := c.(eq := c.eq[i := x]);
    forall j | 0 <= j < |c'.lt| ensures LocatedAt(c', ch, j) {
      assert LocatedAt(c, ch, j);
    }
  }

  /** A sample added behind all others. */
  lemma Added(a: seq<Sample>, s: Sample, ch: seq<nat>, n: nat, k: nat, m: nat, nPSample: nat)
    requires nPSample > 0
    requires SamplesOk(a, ch, n, k, m, nPSample) && SampleOk(s, ch, n, k) && NoneZero(s, m)
    requires a == [] || RowOf(a[|a| - 1]) < RowOf(s)
    requires s.periodic ==> IsPeriodic(RowOf(s), nPSample)
    ensures SamplesOk(a + [s], ch, n, k, m, nPSample)
  {
    hide SampleOk, NoneZero, RowOf, IsPeriodic;
    var a' := a + [s];
    forall r | 0 <= r < n && IsPeriodic(r, nPSample) ensures HasPeriodic(a', r) {
      var l :| 0 <= l < |a| && a[l].periodic && RowOf(a[l]) == r;
      assert a'[l] == a[l];
    }
  }

  /** A non-periodic sample removed. */
  lemma Removed(a: seq<Sample>, d: nat, ch: seq<nat>, n: nat, k: nat, m: nat, nPSample: nat)
    requires nPSample > 0 && d < |a| && !a[d].periodic
    requires SamplesOk(a, ch, n, k, m, nPSample)
    ensures SamplesOk(RemoveAt(a, d), ch, n, k, m, nPSample)
  {
    hide SampleOk, NoneZero, RowOf, IsPeriodic;
    var a' := RemoveAt(a, d);
    assert forall l :: 0 <= l < |a'| ==> a'[l] == if l < d then a[l] else a[l + 1];
    forall r | 0 <= r < n && IsPeriodic(r, nPSample) ensures HasPeriodic(a', r) {
      var l :| 0 <= l < |a| && a[l].periodic && RowOf(a[l]) == r;
      var l' := if l < d then l else l - 1;
      assert a'[l'] == a[l];
    }
  }

  /** A sample replaced by one for the same row and of the same kind. */
  lemma Replaced(a: seq<Sample>, d: nat, s: Sample, ch: seq<nat>, n: nat, k: nat, m: nat, nPSample: nat)
    requires nPSample > 0 && d < |a|
    requires SamplesOk(a, ch, n, k, m, nPSample) && SampleOk(s, ch, n, k) && NoneZero(s, m)
    requires RowOf(s) == RowOf(a[d]) && s.periodic == a[d].periodic
    ensures SamplesOk(a[d := s], ch, n, k, m, nPSample)
  {
    hide SampleOk, NoneZero, RowOf, IsPeriodic;
    var a' := a[d := s];
    forall r | 0 <= r < n && IsPeriodic(r, nPSample) ensures HasPeriodic(a', r) {
      var l :| 0 <= l < |a| && a[l].periodic && RowOf(a[l]) == r;
      assert a'[l].periodic && RowOf(a'[l]) == r;
    }
  }

  lemma Relaxed(a: seq<Sample>, ch: seq<nat>, n: nat, k: nat, k': nat, m: nat, m': nat, nPSample: nat)
    requires nPSample > 0 && k' <= k && m <= m'
    requires SamplesOk(a, ch, n, k, m, nPSample)
    ensures SamplesOk(a, ch, n, k', m', nPSample)
  {
    hide SampleOk, RowOf, IsPeriodic, Ordered, PeriodicOk;
    forall l | 0 <= l < |a| ensures SampleOk(a[l], ch, n, k') && NoneZero(a[l], m') {
      Weaken(a[l], ch, n, k, k');
    }
  }

  /** The sample whose priority is upgraded gets an exact count, and all counts behind it are known:
      it is the leader of the next longer prefix, or its own groups there have ended. */
  lemma UpgradedOk(p: Accum, ch: seq<nat>, n: nat, i: nat, u: nat)
    requires Inv(p, ch, n, i + 1) && i < p.nCol - 1 && u < |p.a| && Led(p.a, ch, n, i + 1)
    requires Unknown(p.a[u], i) && !p.a[u].periodic
    requires forall k :: 0 <= k < |p.a| && Unknown(p.a[k], i) ==> !p.a[k].periodic && !Better(p.a[k], p.a[u], p.nCol)
    ensures var s := p.a[u].(col := i, eq := p.a[u].eq[i := p.current.eq[i]]);
            SampleOk(s, ch, n, i) && RowOf(s) == RowOf(p.a[u])
            && forall m :: NoneZero(p.a[u], m) ==> NoneZero(s, m)
  {
    var x := p.a[u];
    var s := x.(col := i, eq := x.eq[i := p.current.eq[i]]);
    assert SampleOk(x, ch, n, i + 1);
    UnknownIsOpen(x, ch, n, i);
    var r := RowOf(x);
    EndOpen(ch, i, r, n);
    StartShared(ch, i, r, n - 1);
    UpgradedKnown(p, ch, n, i, u);
    forall j | 0 <= j < |s.lt| ensures LocatedAt(s, ch, j) {
      assert LocatedAt(x, ch, j);
    }
    forall j | 0 <= j < |s.eq| ensures CountAt(s, ch, n, i, j) {
      assert CountAt(x, ch, n, i + 1, j);
    }
    assert KnownFrom(s);
  }

  /** The sample chosen for an open group is preferred over those chosen for longer prefixes. */
  lemma LeaderBetter(x: Sample, y: Sample, ch: seq<nat>, n: nat, k: nat, nCol: nat)
    requires Shaped(x, nCol) && Shaped(y, nCol) && SampleOk(x, ch, n, k) && SampleOk(y, ch, n, k)
    requires InOpen(x, ch, n, k) && InOpen(y, ch, n, k) && !x.periodic && !y.periodic && y.col == k < x.col
    ensures Better(y, x, nCol)
  {
    assert CountAt(y, ch, n, k, k);
    EndOpen(ch, k, RowOf(y), n);
    StartShared(ch, k, RowOf(y), n - 1);
    assert CountAt(x, ch, n, k, x.col);
    SizeNested(ch, k, x.col, RowOf(x), n);
  }

  /** All counts behind the end of an open group of a sample are known. */
  lemma ClosedKnown(x: Sample, ch: seq<nat>, n: nat, k: nat)
    requires SampleOk(x, ch, n, k) && n > 0 && !InOpen(x, ch, n, k)
    ensures forall j :: k <= j < |x.eq| ==> x.eq[j] > 0
  {
    forall j | k <= j < |x.eq| ensures x.eq[j] > 0 {
      assert CountAt(x, ch, n, k, j);
      StartNested(ch, k, j, n - 1);
    }
  }

  lemma UpgradedKnown(p: Accum, ch: seq<nat>, n: nat, i: nat, u: nat)
    requires Inv(p, ch, n, i + 1) && i < p.nCol - 1 && u < |p.a| && Led(p.a, ch, n, i + 1)
    requires Unknown(p.a[u], i) && !p.a[u].periodic
    requires forall k :: 0 <= k < |p.a| && Unknown(p.a[k], i) ==> !p.a[k].periodic && !Better(p.a[k], p.a[u], p.nCol)
    ensures forall j :: i < j < p.nCol ==> p.a[u].eq[j] > 0
  {
    hide CandidateOk, CurrentOk, NoneZero, Better, Ordered, PeriodicOk, SampleOk, InOpen, MinOk;
    var x := p.a[u];
    var next := i + 1;
    assert SampleOk(x, ch, n, next) && Shaped(x, p.nCol);
    forall l | 0 <= l < |p.a| && InOpen(p.a[l], ch, n, next) ensures Unknown(p.a[l], i) {
      OpenBelow(p.a[l], ch, n, i);
      OpenAt(p, ch, n, i, l);
    }
    if InOpen(x, ch, n, next) {
      var v :| 0 <= v < |p.a| && InOpen(p.a[v], ch, n, next) && p.a[v].col == next
               && forall l :: 0 <= l < |p.a| && l != v && InOpen(p.a[l], ch, n, next) ==> p.a[l].col > next;
      assert SampleOk(p.a[v], ch, n, next) && Shaped(p.a[v], p.nCol);
      if v != u {
        LeaderBetter(x, p.a[v], ch, n, next, p.nCol);
        assert false;
      }
      SampleKnown(x, ch, n, next);
    } else {
      ClosedKnown(x, ch, n, next);
    }
  }

  lemma OpenBelow(s: Sample, ch: seq<nat>, n: nat, i: nat)
    requires 0 < n <= |ch| && InOpen(s, ch, n, i + 1)
    ensures InOpen(s, ch, n, i)
  {
    StartNested(ch, i, i + 1, n - 1);
  }

  /** The candidate lies behind all samples when none shares its prefix. */
  lemma CandidateLast(a: seq<Sample>, b: Sample, ch: seq<nat>, n: nat, i: nat)
    requires 0 < n <= |ch| && InOpen(b, ch, n, i)
    requires forall l :: 0 <= l < |a| ==> SampleOk(a[l], ch, n, i + 1) && i < |a[l].eq| - 1 && !Unknown(a[l], i)
    ensures forall l :: 0 <= l < |a| ==> !InOpen(a[l], ch, n, i) && RowOf(a[l]) < RowOf(b)
  {
    forall l | 0 <= l < |a| ensures !InOpen(a[l], ch, n, i) {
      UnknownIsOpen(a[l], ch, n, i);
    }
  }

  lemma RemoveLast(a: seq<Sample>, d: nat)
    requires d < |a|
    ensures |RemoveAt(a, d)| == |a| - 1
    ensures forall l :: 0 <= l < |a| - 1 ==> RemoveAt(a, d)[l] in a
  {
  }

  /** Inserting the candidate of column i. */
  lemma InsertCandidate(p: Accum, ch: seq<nat>, n: nat, i: nat)
    requires Inv(p, ch, n, i + 1) && i < p.nCol - 1 && Led(p.a, ch, n, i + 1)
    ensures var r := Insert(p.(best := p.best[i := Closed(p, i)]), Closed(p, i), i);
            SamplesOk(r.a, ch, n, i, r.nMaxEqZero, r.nPSample) && MinOk(r) && Led(r.a, ch, n, i)
  {
    hide SampleOk, SamplesOk, CandidateOk, CurrentOk, Better, WithMin, Sharing, NoneZero, InOpen, Ordered, PeriodicOk;
    var b := Closed(p, i);
    var p1 := p.(best := p.best[i := b]);
    var m := Max(p.nMaxEqZero, i);
    InvParts(p, ch, n, i + 1);
    SharingResult(p.a, p.nCol, i, |p.a|, Absent);
    ClosedCandidate(p, ch, n, i);
    match Sharing(p.a, p.nCol, i, |p.a|, Absent)
    case Blocked =>
      Relaxed(p.a, ch, n, i + 1, i, p.nMaxEqZero, m, p.nPSample);
      var l :| 0 <= l < |p.a| && Unknown(p.a[l], i) && p.a[l].periodic;
      OpenAt(p, ch, n, i, l);
    case Upgrade(u) =>
      UpgradeCase(p, ch, n, i, u);
      var s := p.a[u].(col := i, eq := p.a[u].eq[i := b.eq[i]]);
      MinKept(p1.(nMaxEqZero := m, a := p.a[u := s]), u);
    case Absent =>
      AbsentCase(p, ch, n, i);
      var a := if |p.a| >= p.mxSample then RemoveAt(p.a, p.iMin) else p.a;
      MinKept(p1.(nMaxEqZero := m, a := a + [ZeroFront(b, i)]), |a|);
  }

  /** find_new_min behind an insertion of, or an upgrade to, a non-periodic sample. */
  lemma MinKept(q: Accum, w: nat)
    requires q.nCol > 0 && (forall k :: 0 <= k < |q.a| ==> Shaped(q.a[k], q.nCol))
    requires w < |q.a| && !q.a[w].periodic
    ensures var r := WithMin(q);
            r == q.(iMin := r.iMin) && (|q.a| >= q.mxSample ==> Least(q.a, q.nCol, r.iMin))
  {
    hide MinOf, Better;
    MinAfter(q);
  }

  lemma ClosedCandidate(p: Accum, ch: seq<nat>, n: nat, i: nat)
    requires Inv(p, ch, n, i + 1) && i < p.nCol - 1
    ensures var b := Closed(p, i);
            Shaped(b, p.nCol) && !b.periodic && b.col == i && b.eq[i] == n - Start(ch, i, n - 1)
            && InOpen(b, ch, n, i) && b.eq[i] == p.current.eq[i]
  {
    assert CandidateOk(p.best[i], ch, n, i);
  }

  lemma OpenAt(p: Accum, ch: seq<nat>, n: nat, i: nat, l: nat)
    requires Inv(p, ch, n, i + 1) && i < p.nCol - 1 && l < |p.a|
    ensures Unknown(p.a[l], i) <==> InOpen(p.a[l], ch, n, i)
    ensures Unknown(p.a[l], i) && !p.a[l].periodic ==> p.a[l].col > i
  {
    assert SampleOk(p.a[l], ch, n, i + 1) && Shaped(p.a[l], p.nCol);
    UnknownIsOpen(p.a[l], ch, n, i);
  }

  lemma UpgradeCase(p: Accum, ch: seq<nat>, n: nat, i: nat, u: nat)
    requires Inv(p, ch, n, i + 1) && i < p.nCol - 1 && u < |p.a| && Led(p.a, ch, n, i + 1)
    requires Unknown(p.a[u], i)
    requires forall k :: 0 <= k < |p.a| && Unknown(p.a[k], i) ==> !p.a[k].periodic && !Better(p.a[k], p.a[u], p.nCol)
    ensures var s := p.a[u].(col := i, eq := p.a[u].eq[i := p.current.eq[i]]);
            SamplesOk(p.a[u := s], ch, n, i, Max(p.nMaxEqZero, i), p.nPSample) && Led(p.a[u := s], ch, n, i)
  {
    hide SampleOk, SamplesOk, CandidateOk, CurrentOk, Better, NoneZero, InOpen;
    InvParts(p, ch, n, i + 1);
    var m := Max(p.nMaxEqZero, i);
    Relaxed(p.a, ch, n, i + 1, i, p.nMaxEqZero, m, p.nPSample);
    UpgradedOk(p, ch, n, i, u);
    var s := p.a[u].(col := i, eq := p.a[u].eq[i := p.current.eq[i]]);
    NoneZeroOf(p.a, ch, n, i, m, p.nPSample, u);
    Replaced(p.a, u, s, ch, n, i, m, p.nPSample);
    var a' := p.a[u := s];
    forall l | 0 <= l < |a'| && l != u && InOpen(a'[l], ch, n, i) ensures a'[l].col > i {
      OpenAt(p, ch, n, i, l);
    }
    OpenAt(p, ch, n, i, u);
    SameRow(p.a[u], s, ch, n, i);
    assert InOpen(a'[u], ch, n, i) && a'[u].col == i;
  }

  lemma NoneZeroOf(a: seq<Sample>, ch: seq<nat>, n: nat, k: nat, m: nat, nPSample: nat, u: nat)
    requires nPSample > 0 && u < |a| && SamplesOk(a, ch, n, k, m, nPSample)
    ensures NoneZero(a[u], m)
  {
  }

  lemma SameRow(s: Sample, s': Sample, ch: seq<nat>, n: nat, k: nat)
    requires 0 < n <= |ch| && RowOf(s) == RowOf(s')
    ensures InOpen(s, ch, n, k) == InOpen(s', ch, n, k)
  {
  }

  lemma AbsentCase(p: Accum, ch: seq<nat>, n: nat, i: nat)
    requires Inv(p, ch, n, i + 1) && i < p.nCol - 1
    requires forall l :: 0 <= l < |p.a| ==> !Unknown(p.a[l], i)
    ensures var a := if |p.a| >= p.mxSample then RemoveAt(p.a, p.iMin) else p.a;
            var s := ZeroFront(Closed(p, i), i);
            SamplesOk(a + [s], ch, n, i, Max(p.nMaxEqZero, i), p.nPSample) && Led(a + [s], ch, n, i) && !s.periodic
  {
    hide SampleOk, SamplesOk, CandidateOk, CurrentOk, Better, NoneZero, InOpen, Led, ZeroFront, Max;
    InvParts(p, ch, n, i + 1);
    var m := Max(p.nMaxEqZero, i);
    AtLeastBoth(p.nMaxEqZero, i);
    Relaxed(p.a, ch, n, i + 1, i, p.nMaxEqZero, m, p.nPSample);
    var b := Closed(p, i);
    var s := ZeroFront(b, i);
    ClosedCandidate(p, ch, n, i);
    StoredOk(p, ch, n, i);
    SameBut(b, i);
    ZeroLater(s, i, m);
    SameRow(b, s, ch, n, i);
    SamplesAt(p, ch, n, i);
    CandidateLast(p.a, s, ch, n, i);
    var a := if |p.a| >= p.mxSample then RemoveAt(p.a, p.iMin) else p.a;
    if |p.a| >= p.mxSample {
      Removed(p.a, p.iMin, ch, n, i, m, p.nPSample);
      RemoveLast(p.a, p.iMin);
    }
    assert forall l :: 0 <= l < |a| ==> a[l] in p.a;
    Added(a, s, ch, n, i, m, p.nPSample);
    LedByLast(a, s, ch, n, i);
  }

  lemma AtLeastBoth(x: nat, y: nat)
    ensures Max(x, y) >= x && Max(x, y) >= y
  {
  }

  lemma SameBut(s: Sample, k: nat)
    requires k <= |s.eq|
    ensures var z := ZeroFront(s, k); z.lt == s.lt && z.col == s.col && z.periodic == s.periodic
  {
  }

  lemma LedByLast(a: seq<Sample>, s: Sample, ch: seq<nat>, n: nat, i: nat)
    requires 0 < n <= |ch| && InOpen(s, ch, n, i) && s.col == i
    requires forall l :: 0 <= l < |a| ==> !InOpen(a[l], ch, n, i)
    ensures Led(a + [s], ch, n, i)
  {
    hide InOpen;
    var a' := a + [s];
    assert a'[|a|] == s;
  }

  lemma ZeroLater(s: Sample, m: nat, m': nat)
    requires NoneZero(s, m) && m <= m'
    ensures NoneZero(s, m')
  {
  }

  lemma SamplesAt(p: Accum, ch: seq<nat>, n: nat, i: nat)
    requires Inv(p, ch, n, i + 1) && i < p.nCol - 1
    ensures forall l :: 0 <= l < |p.a| ==> SampleOk(p.a[l], ch, n, i + 1) && i < |p.a[l].eq| - 1
  {
    forall l | 0 <= l < |p.a| ensures SampleOk(p.a[l], ch, n, i + 1) && i < |p.a[l].eq| - 1 {
      assert Shaped(p.a[l], p.nCol);
    }
  }

  /** A candidate that is not inserted because the array is full of preferred samples shares its
      prefix with none of them, unless that one is periodic. */
  lemma NotInserted(p: Accum, ch: seq<nat>, n: nat, i: nat)
    requires Inv(p, ch, n, i + 1) && i < p.nCol - 1
    requires |p.a| == p.mxSample && !Better(Closed(p, i), p.a[p.iMin], p.nCol)
    ensures Led(p.a, ch, n, i)
  {
    hide CandidateOk, CurrentOk, NoneZero, Better, Ordered, PeriodicOk;
    var b := Closed(p, i);
    ClosedCandidate(p, ch, n, i);
    forall l | 0 <= l < |p.a| && InOpen(p.a[l], ch, n, i) ensures p.a[l].periodic {
      OpenAt(p, ch, n, i, l);
      if !p.a[l].periodic {
        assert SampleOk(p.a[l], ch, n, i + 1) && Shaped(p.a[l], p.nCol);
        CandidateBetter(b, p.a[l], ch, n, i, p.nCol);
        BetterWeak(b, p.a[p.iMin], p.a[l], p.nCol);
        assert false;
      }
    }
  }

  /** One step of the loop of samplePushPrevious keeps the invariant. */
  lemma CloseColumnOk(p: Accum, ch: seq<nat>, n: nat, i: nat)
    requires Inv(p, ch, n, i + 1) && i < p.nCol - 1 && Led(p.a, ch, n, i + 1)
    ensures Inv(CloseColumn(p, i), ch, n, i) && Led(CloseColumn(p, i).a, ch, n, i)
  {
    hide SamplesOk, CandidateOk, CurrentOk, Better, Led, Insert;
    InvParts(p, ch, n, i + 1);
    var b := Closed(p, i);
    var r := CloseColumn(p, i);
    FrameClosed(p, ch, n, i);
    if |p.a| < p.mxSample || Better(b, p.a[p.iMin], p.nCol) {
      InsertCandidate(p, ch, n, i);
    } else {
      Relaxed(p.a, ch, n, i + 1, i, p.nMaxEqZero, p.nMaxEqZero, p.nPSample);
      NotInserted(p, ch, n, i);
    }
    InvParts(r, ch, n, i);
  }

  lemma FrameClosed(p: Accum, ch: seq<nat>, n: nat, i: nat)
    requires Frame(p, ch, n, i + 1) && i < p.nCol - 1
    ensures Frame(CloseColumn(p, i), ch, n, i)
  {
    hide CandidateOk, CurrentOk, Better, Insert;
    var r := CloseColumn(p, i);
    assert r.best == p.best[i := Closed(p, i)];
    assert CandidateOk(p.best[i], ch, n, i);
    CandidateKept(p.best[i], ch, n, i, p.current.eq[i]);
    assert CandidateOk(r.best[i], ch, n, i);
  }

  lemma {:induction false} CloseColumnsOk(p: Accum, ch: seq<nat>, n: nat, chng: nat, k: nat)
    requires Inv(p, ch, n, k) && chng <= k && Led(p.a, ch, n, k)
    ensures Inv(CloseColumns(p, chng, k), ch, n, chng)
    decreases k
  {
    hide Inv, Led, CloseColumn;
    if k > chng {
      InvShape(p, ch, n, k);
      CloseColumnOk(p, ch, n, k - 1);
      CloseColumnsOk(CloseColumn(p, k - 1), ch, n, chng, k - 1);
    }
  }

  lemma InvShape(p: Accum, ch: seq<nat>, n: nat, k: nat)
    requires Inv(p, ch, n, k)
    ensures WellShaped(p) && k <= p.nCol - 1 && 0 < n <= |ch|
  {
  }

  // ----- The end of a row: unknown counts filled in

  /** The invariant between two calls: no group that is still open has a count. */
  ghost predicate Stable(p: Accum, ch: seq<nat>, n: nat) {
    && p.nCol > 0 && Inv(p, ch, n, p.nCol - 1) && p.nRow == n
    && forall l :: 0 <= l < |p.a| && !p.a[l].periodic ==> RowOf(p.a[l]) < n - 1
  }

  ghost predicate ChangesOk(ch: seq<nat>, nCol: nat) {
    forall t :: 0 <= t < |ch| ==> ch[t] < nCol
  }

  lemma StableLed(p: Accum, ch: seq<nat>, n: nat)
    requires Stable(p, ch, n) && ChangesOk(ch, p.nCol)
    ensures Led(p.a, ch, n, p.nCol - 1)
  {
    var k := p.nCol - 1;
    assert Start(ch, k, n - 1) == n - 1;
    forall l | 0 <= l < |p.a| && InOpen(p.a[l], ch, n, k) ensures p.a[l].periodic {
      assert SampleOk(p.a[l], ch, n, k);
    }
  }

  /** A retained sample when the groups of columns chng and up end with row n - 1. */
  lemma PatchedOk(s: Sample, current: Sample, ch: seq<nat>, n: nat)
    requires 0 < n < |ch| && ch[n] < |s.eq| && CurrentOk(current, ch, n) && |current.eq| == |s.eq|
    requires SampleOk(s, ch, n, ch[n])
    ensures SampleOk(Patch(s, current, ch[n]), ch, n + 1, |s.eq| - 1)
    ensures NoneZero(Patch(s, current, ch[n]), ch[n])
  {
    var s', next, r := Patch(s, current, ch[n]), n + 1, RowOf(s);
    forall j | 0 <= j < |s'.lt| ensures LocatedAt(s', ch, j) {
      assert LocatedAt(s, ch, j);
    }
    forall j | 0 <= j < |s'.eq|
      ensures CountAt(s', ch, next, |s.eq| - 1, j) && (s.eq[j] > 0 || j >= ch[n] ==> s'.eq[j] > 0)
    {
      assert CountAt(s, ch, n, ch[n], j);
      if Start(ch, j, n - 1) > r {
        EndStable(ch, j, r, n);
        StartShared(ch, j, n - 1, n);
      } else if j >= ch[n] {
        EndOpen(ch, j, r, n);
        EndNow(ch, j, r, n);
        StartShared(ch, j, r, n - 1);
      }
    }
  }

  /** samplePushPrevious skips the patch only when it would change nothing. */
  lemma PatchNothing(s: Sample, current: Sample, chng: nat)
    requires |current.eq| == |s.eq| && NoneZero(s, chng)
    ensures Patch(s, current, chng) == s
  {
  }

  lemma PushPreviousIs(p: Accum, chng: nat)
    requires WellShaped(p) && chng < p.nCol
    requires var p1 := CloseColumns(p, chng, p.nCol - 1);
             forall l :: 0 <= l < |p1.a| ==> NoneZero(p1.a[l], p1.nMaxEqZero)
    ensures var p1 := CloseColumns(p, chng, p.nCol - 1);
            PushPrevious(p, chng) ==
            p1.(a := PatchAll(p1.a, p1.current, chng),
                nMaxEqZero := if chng < p1.nMaxEqZero then chng else p1.nMaxEqZero)
  {
    hide CloseColumns;
    var p1 := CloseColumns(p, chng, p.nCol - 1);
    if chng >= p1.nMaxEqZero {
      forall l | 0 <= l < |p1.a| ensures Patch(p1.a[l], p1.current, chng) == p1.a[l] {
        ZeroLater(p1.a[l], p1.nMaxEqZero, chng);
        PatchNothing(p1.a[l], p1.current, chng);
      }
      assert PatchAll(p1.a, p1.current, chng) == p1.a;
    }
  }

  /** The samples after samplePushPrevious, seen with the new row n in place. */
  ghost predicate Ready(p: Accum, ch: seq<nat>, n: nat)
    requires WellShaped(p)
  {
    && (forall l :: 0 <= l < |p.a| ==> SampleOk(p.a[l], ch, n + 1, p.nCol - 1) && RowOf(p.a[l]) < n)
    && (forall l :: 0 <= l < |p.a| ==> NoneZero(p.a[l], p.nMaxEqZero))
    && Ordered(p.a) && PeriodicOk(p.a, n, p.nPSample) && MinOk(p)
  }

  lemma PatchKeepsOrder(a: seq<Sample>, current: Sample, chng: nat, n: nat, nPSample: nat)
    requires nPSample > 0 && forall k :: 0 <= k < |a| ==> |a[k].eq| == |current.eq|
    requires Ordered(a) && PeriodicOk(a, n, nPSample)
    ensures Ordered(PatchAll(a, current, chng)) && PeriodicOk(PatchAll(a, current, chng), n, nPSample)
  {
    var a' := PatchAll(a, current, chng);
    forall r | 0 <= r < n && IsPeriodic(r, nPSample) ensures HasPeriodic(a', r) {
      var l :| 0 <= l < |a| && a[l].periodic && RowOf(a[l]) == r;
      assert a'[l].periodic && RowOf(a'[l]) == r;
    }
  }

  lemma PatchKeepsMin(a: seq<Sample>, current: Sample, chng: nat, nCol: nat, m: nat)
    requires (forall k :: 0 <= k < |a| ==> Shaped(a[k], nCol)) && |current.eq| == nCol
    requires forall k :: 0 <= k < |a| ==> |a[k].eq| == |current.eq|
    requires forall k :: 0 <= k < |a| && !a[k].periodic ==> KnownFrom(a[k])
    requires Least(a, nCol, m)
    ensures Least(PatchAll(a, current, chng), nCol, m)
  {
    hide Better, KnownFrom, Patch;
    var a' := PatchAll(a, current, chng);
    PatchShape(a, current, chng, nCol);
    forall k | 0 <= k < |a'| && !a'[k].periodic ensures !Better(a'[m], a'[k], nCol) {
      assert !Better(a[m], a[k], nCol);
      BetterPatched(a[m], a[k], current, chng, nCol);
    }
  }

  lemma PatchShape(a: seq<Sample>, current: Sample, chng: nat, nCol: nat)
    requires (forall k :: 0 <= k < |a| ==> Shaped(a[k], nCol)) && |current.eq| == nCol
    requires forall k :: 0 <= k < |a| ==> |a[k].eq| == |current.eq|
    ensures forall k :: 0 <= k < |a| ==> Shaped(PatchAll(a, current, chng)[k], nCol)
                                         && PatchAll(a, current, chng)[k].periodic == a[k].periodic
  {
  }

  lemma PushPreviousOk(p: Accum, ch: seq<nat>, n: nat)
    requires Stable(p, ch, n) && n < |ch| && ChangesOk(ch, p.nCol)
    ensures Ready(PushPrevious(p, ch[n]), ch, n)
    ensures forall i :: 0 <= i < p.nCol - 1 ==> CandidateOk(PushPrevious(p, ch[n]).best[i], ch, n, i)
  {
    hide CloseColumns, CandidateOk, CurrentOk, SampleOk, Better, Led, Ordered, PeriodicOk, NoneZero, Patch;
    var chng := ch[n];
    StableLed(p, ch, n);
    CloseColumnsOk(p, ch, n, chng, p.nCol - 1);
    var p1 := CloseColumns(p, chng, p.nCol - 1);
    PushPreviousIs(p, chng);
    var r := PushPrevious(p, chng);
    PatchKeepsOrder(p1.a, p1.current, chng, n, p.nPSample);
    forall l | 0 <= l < |r.a|
      ensures SampleOk(r.a[l], ch, n + 1, p.nCol - 1) && RowOf(r.a[l]) < n && NoneZero(r.a[l], r.nMaxEqZero)
    {
      assert SampleOk(p1.a[l], ch, n, chng) && Shaped(p1.a[l], p.nCol) && NoneZero(p1.a[l], p1.nMaxEqZero);
      PatchedOk(p1.a[l], p1.current, ch, n);
      PatchedRow(p1.a[l], p1.current, ch, n, p1.nMaxEqZero);
    }
    if |p1.a| == p1.mxSample {
      forall l | 0 <= l < |p1.a| && !p1.a[l].periodic ensures KnownFrom(p1.a[l]) {
        assert SampleOk(p1.a[l], ch, n, chng);
        SampleKnown(p1.a[l], ch, n, chng);
      }
      PatchKeepsMin(p1.a, p1.current, chng, p.nCol, p1.iMin);
    }
  }

  lemma SampleKnown(s: Sample, ch: seq<nat>, n: nat, k: nat)
    requires SampleOk(s, ch, n, k) && !s.periodic
    ensures KnownFrom(s)
  {
  }

  lemma PatchedRow(s: Sample, current: Sample, ch: seq<nat>, n: nat, m: nat)
    requires n < |ch| && |current.eq| == |s.eq| && SampleOk(s, ch, n, ch[n])
    ensures RowOf(Patch(s, current, ch[n])) < n
    ensures NoneZero(s, m) ==> NoneZero(Patch(s, current, ch[n]), m)
  {
  }

  // ----- A new row

  /** The state once the counters of row n - 1 are in place. */
  ghost predicate Arrived(p: Accum, ch: seq<nat>, n: nat) {
    && WellShaped(p) && 0 < n <= |ch| && Room(p, n) && p.nRow == n
    && CurrentOk(p.current, ch, n)
    && Ready(p, ch, n - 1)
    && (n > 1 ==> forall i :: 0 <= i < p.nCol - 1 ==> CandidateOk(p.best[i], ch, n - 1, i))
  }

  lemma AdvancedOk(c: Sample, ch: seq<nat>, n: nat, rowid: RowKey, hash: nat)
    requires 0 < n < |ch| && CurrentOk(c, ch, n) && ch[n] < |c.eq|
    ensures CurrentOk(Advance(c, ch[n], false).(rowid := rowid, hash := hash), ch, n + 1)
  {
    var c' := Advance(c, ch[n], false).(rowid := rowid, hash := hash);
    assert LocatedAt(c, ch, |c.eq| - 1);
    assert RowOf(c') == n;
    forall j | 0 <= j < |c'.lt| ensures LocatedAt(c', ch, j) {
      assert LocatedAt(c, ch, j);
    }
  }

  lemma ArriveOk(p: Accum, ch: seq<nat>, n: nat, rowid: RowKey)
    requires Stable(p, ch, n) && n < |ch| && ChangesOk(ch, p.nCol) && Room(p, n + 1)
    ensures Arrived(Arrive(p, ch[n], rowid), ch, n + 1)
  {
    hide PushPrevious, Advance, CandidateOk, CurrentOk, SampleOk, Better, Ordered, PeriodicOk, NoneZero;
    PushPreviousOk(p, ch, n);
    AdvancedOk(p.current, ch, n, rowid, NextPrn(p.prn));
  }

  lemma FirstOk(nCol: nat, c: nat, mxSample: nat, seed: nat, ch: seq<nat>, rowid: RowKey)
    requires nCol > 0 && mxSample > 0 && |ch| > 0 && ch[0] < nCol
    requires Room(Init(nCol, c, mxSample, seed), 1)
    ensures Arrived(Arrive(Init(nCol, c, mxSample, seed), ch[0], rowid), ch, 1)
  {
    var p := Arrive(Init(nCol, c, mxSample, seed), ch[0], rowid);
    forall j | 0 <= j < |p.current.lt| ensures LocatedAt(p.current, ch, j) {
    }
  }

  // ----- Periodic samples

  lemma PeriodicMultiple(lt: nat, nPSample: nat)
    requires nPSample > 0
    ensures IsPeriodic(lt, nPSample) <==> (lt + 1) % nPSample == 0
  {
    var q, r := lt / nPSample, lt % nPSample;
    assert lt == nPSample * q + r;
    if r + 1 == nPSample {
      assert lt + 1 == nPSample * (q + 1) + 0;
      DivUnique(lt + 1, nPSample, q + 1, 0);
    } else {
      DivUnique(lt + 1, nPSample, q, r + 1);
    }
  }

  /** The k-th of the periodic samples in row order is at least k periods into the index. */
  lemma {:induction false} PeriodicSpread(a: seq<Sample>, n: nat, nPSample: nat, k: nat)
    requires nPSample > 0 && k < |a| && Ordered(a)
    requires forall l :: 0 <= l < |a| ==> a[l].periodic && IsPeriodic(RowOf(a[l]), nPSample)
    ensures RowOf(a[k]) + 1 >= nPSample * (k + 1)
  {
    hide IsPeriodic, RowOf;
    PeriodicMultiple(RowOf(a[k]), nPSample);
    var x := RowOf(a[k]) + 1;
    if k == 0 {
      MultipleAtLeast(x, nPSample, 0);
    } else {
      PeriodicSpread(a, n, nPSample, k - 1);
      assert RowOf(a[k - 1]) < RowOf(a[k]);
      MultipleAtLeast(x, nPSample, k);
    }
  }

  lemma MultipleAtLeast(x: nat, d: nat, k: nat)
    requires d > 0 && x % d == 0 && x > d * k
    ensures x >= d * (k + 1)
  {
    var q := x / d;
    assert x == d * q;
    if q <= k {
      Monotone(d, q, k);
      assert false;
    }
    Monotone(d, k + 1, q);
  }

  /** At most a third of the samples are periodic, so that one which is not can always be evicted. */
  lemma NotAllPeriodic(a: seq<Sample>, n: nat, nPSample: nat, mxSample: nat)
    requires nPSample > 0 && mxSample > 0 && |a| == mxSample && Ordered(a)
    requires forall l :: 0 <= l < |a| ==> RowOf(a[l]) < n
    requires forall l :: 0 <= l < |a| && a[l].periodic ==> IsPeriodic(RowOf(a[l]), nPSample)
    requires n < nPSample * (mxSample / 3 + 1)
    ensures exists l :: 0 <= l < |a| && !a[l].periodic
  {
    if forall l :: 0 <= l < |a| ==> a[l].periodic {
      PeriodicSpread(a, n, nPSample, mxSample - 1);
      Monotone(nPSample, mxSample / 3 + 1, mxSample);
      assert false;
    }
  }

  /** The current row as a periodic sample. */
  lemma CurrentStored(c: Sample, ch: seq<nat>, n: nat)
    requires CurrentOk(c, ch, n) && ChangesOk(ch, |c.eq|)
    ensures var s := ZeroFront(c.(periodic := true, col := 0), |c.eq| - 1);
            SampleOk(s, ch, n, |c.eq| - 1) && NoneZero(s, |c.eq| - 1) && RowOf(s) == n - 1
  {
    var k := |c.eq| - 1;
    var s := ZeroFront(c.(periodic := true, col := 0), k);
    forall j | 0 <= j < |s.lt| ensures LocatedAt(s, ch, j) {
      assert LocatedAt(c, ch, j);
    }
    forall j | 0 <= j < |s.eq| ensures CountAt(s, ch, n, k, j) {
      EndOpen(ch, j, n - 1, n);
    }
    assert Start(ch, k, n - 1) == n - 1;
  }

  lemma PeriodicOf(a: seq<Sample>, n: nat, nPSample: nat)
    requires nPSample > 0 && n > 0 && PeriodicOk(a, n - 1, nPSample) && !IsPeriodic(n - 1, nPSample)
    ensures PeriodicOk(a, n, nPSample)
  {
  }

  /** A periodic sample added behind all others. */
  lemma PeriodicAdded(a: seq<Sample>, s: Sample, n: nat, nPSample: nat)
    requires nPSample > 0 && n > 0 && PeriodicOk(a, n - 1, nPSample) && IsPeriodic(n - 1, nPSample)
    requires s.periodic && RowOf(s) == n - 1
    requires Ordered(a) && forall l :: 0 <= l < |a| ==> RowOf(a[l]) < n - 1
    ensures PeriodicOk(a + [s], n, nPSample) && Ordered(a + [s])
  {
    hide IsPeriodic, RowOf;
    var a' := a + [s];
    forall r | 0 <= r < n && IsPeriodic(r, nPSample) ensures HasPeriodic(a', r) {
      if r == n - 1 {
        assert a'[|a|] == s;
      } else {
        var l :| 0 <= l < |a| && a[l].periodic && RowOf(a[l]) == r;
        assert a'[l] == a[l];
      }
    }
  }

  lemma EvictedOk(a: seq<Sample>, d: nat, n: nat, nPSample: nat)
    requires nPSample > 0 && d < |a| && !a[d].periodic
    requires Ordered(a) && PeriodicOk(a, n, nPSample)
    ensures Ordered(RemoveAt(a, d)) && PeriodicOk(RemoveAt(a, d), n, nPSample)
  {
    hide IsPeriodic, RowOf;
    var a' := RemoveAt(a, d);
    assert forall l :: 0 <= l < |a'| ==> a'[l] == if l < d then a[l] else a[l + 1];
    forall r | 0 <= r < n && IsPeriodic(r, nPSample) ensures HasPeriodic(a', r) {
      var l :| 0 <= l < |a| && a[l].periodic && RowOf(a[l]) == r;
      var l' := if l < d then l else l - 1;
      assert a'[l'] == a[l];
    }
  }

  /** The samples once the current row has been considered as a periodic one. */
  ghost predicate Sampled(p: Accum, ch: seq<nat>, n: nat)
    requires WellShaped(p)
  {
    && (forall l :: 0 <= l < |p.a| ==> SampleOk(p.a[l], ch, n, p.nCol - 1))
    && (forall l :: 0 <= l < |p.a| ==> NoneZero(p.a[l], p.nMaxEqZero))
    && Ordered(p.a) && PeriodicOk(p.a, n, p.nPSample) && MinOk(p)
    && forall l :: 0 <= l < |p.a| && !p.a[l].periodic ==> RowOf(p.a[l]) < n - 1
  }

  lemma PeriodicOkStep(p: Accum, ch: seq<nat>, n: nat)
    requires Arrived(p, ch, n) && ChangesOk(ch, p.nCol)
    ensures Sampled(Periodic(p), ch, n) && CurrentOk(Periodic(p).current, ch, n)
  {
    hide CandidateOk, SampleOk, Better, Ordered, PeriodicOk, NoneZero, IsPeriodic, WithMin;
    assert LocatedAt(p.current, ch, p.nCol - 1);
    assert p.current.lt[p.nCol - 1] == n - 1;
    if IsPeriodic(n - 1, p.nPSample) {
      InsertPeriodic(p, ch, n);
    } else {
      PeriodicOf(p.a, n, p.nPSample);
    }
    CurrentCol(p.current, ch, n, 0);
  }

  lemma CurrentCol(c: Sample, ch: seq<nat>, n: nat, col: nat)
    requires CurrentOk(c, ch, n)
    ensures CurrentOk(c.(col := col), ch, n)
  {
    var c' := c.(col := col);
    forall j | 0 <= j < |c'.lt| ensures LocatedAt(c', ch, j) {
      assert LocatedAt(c, ch, j);
    }
  }

  lemma InsertPeriodic(p: Accum, ch: seq<nat>, n: nat)
    requires Arrived(p, ch, n) && ChangesOk(ch, p.nCol) && IsPeriodic(n - 1, p.nPSample)
    ensures var c := p.current.(periodic := true, col := 0);
            var r := Insert(p.(current := c), c, p.nCol - 1);
            Sampled(r, ch, n)
  {
    hide CandidateOk, SampleOk, Better, Ordered, PeriodicOk, NoneZero, IsPeriodic, WithMin, CurrentOk, RowOf, ZeroFront;
    var c := p.current.(periodic := true, col := 0);
    PeriodicSamples(p, ch, n);
    MinAfter(p.(current := c, nMaxEqZero := Max(p.nMaxEqZero, p.nCol - 1), a := WithPeriodic(p)));
  }

  /** The samples that stay when one more is to be added: the least preferred one may have to go. */
  function Remaining(p: Accum): seq<Sample>
    requires WellShaped(p)
  {
    if |p.a| >= p.mxSample then RemoveAt(p.a, p.iMin) else p.a
  }

  function WithPeriodic(p: Accum): seq<Sample>
    requires WellShaped(p)
  {
    Remaining(p) + [ZeroFront(p.current.(periodic := true, col := 0), p.nCol - 1)]
  }

  lemma RemainingOk(p: Accum, n: nat)
    requires WellShaped(p) && MinOk(p) && Ordered(p.a) && PeriodicOk(p.a, n, p.nPSample)
    ensures Ordered(Remaining(p)) && PeriodicOk(Remaining(p), n, p.nPSample)
    ensures |Remaining(p)| < p.mxSample && forall l :: 0 <= l < |Remaining(p)| ==> Remaining(p)[l] in p.a
  {
    hide Better, Ordered, PeriodicOk;
    if |p.a| >= p.mxSample {
      EvictedOk(p.a, p.iMin, n, p.nPSample);
      RemoveLast(p.a, p.iMin);
    }
  }

  lemma PeriodicSamples(p: Accum, ch: seq<nat>, n: nat)
    requires Arrived(p, ch, n) && ChangesOk(ch, p.nCol) && IsPeriodic(n - 1, p.nPSample)
    ensures var a := WithPeriodic(p);
            && (forall l :: 0 <= l < |a| ==> SampledOne(a[l], ch, n, p.nCol, Max(p.nMaxEqZero, p.nCol - 1)))
            && Ordered(a) && PeriodicOk(a, n, p.nPSample)
            && (|a| >= p.mxSample ==> exists l :: 0 <= l < |a| && !a[l].periodic)
  {
    hide CandidateOk, SampleOk, Ordered, PeriodicOk, NoneZero, IsPeriodic, CurrentOk, RowOf, MinOk,
         Remaining, SampledOne;
    var s := ZeroFront(p.current.(periodic := true, col := 0), p.nCol - 1);
    CurrentStored(p.current, ch, n);
    RemainingOk(p, n - 1);
    PeriodicBefore(p, n);
    PeriodicAdded(Remaining(p), s, n, p.nPSample);
    PeriodicEach(p, Remaining(p), s, ch, n);
    if |WithPeriodic(p)| >= p.mxSample {
      OneNotPeriodic(p, WithPeriodic(p), ch, n);
    }
  }

  lemma PeriodicBefore(p: Accum, n: nat)
    requires WellShaped(p) && n > 0 && forall l :: 0 <= l < |p.a| ==> RowOf(p.a[l]) < n - 1
    requires forall l :: 0 <= l < |Remaining(p)| ==> Remaining(p)[l] in p.a
    ensures forall l :: 0 <= l < |Remaining(p)| ==> RowOf(Remaining(p)[l]) < n - 1
  {
    hide Remaining, RowOf;
  }

  lemma OneNotPeriodic(p: Accum, a: seq<Sample>, ch: seq<nat>, n: nat)
    requires WellShaped(p) && Room(p, n) && Ordered(a) && PeriodicOk(a, n, p.nPSample) && |a| == p.mxSample
    requires forall l :: 0 <= l < |a| ==> SampledOne(a[l], ch, n, p.nCol, Max(p.nMaxEqZero, p.nCol - 1))
    ensures exists l :: 0 <= l < |a| && !a[l].periodic
  {
    hide SampleOk, NoneZero, RowOf, Ordered, PeriodicOk, IsPeriodic;
    forall l | 0 <= l < |a| ensures RowOf(a[l]) < n {
      assert SampledOne(a[l], ch, n, p.nCol, Max(p.nMaxEqZero, p.nCol - 1));
    }
    PeriodicRows(a, n, p.nPSample);
    NotAllPeriodic(a, n, p.nPSample, p.mxSample);
  }

  ghost predicate SampledOne(s: Sample, ch: seq<nat>, n: nat, nCol: nat, m: nat)
    requires nCol > 0
  {
    && SampleOk(s, ch, n, nCol - 1) && NoneZero(s, m) && Shaped(s, nCol)
    && (if s.periodic then RowOf(s) < n else RowOf(s) < n - 1)
  }

  lemma PeriodicEach(p: Accum, a: seq<Sample>, s: Sample, ch: seq<nat>, n: nat)
    requires WellShaped(p) && n > 0 && (forall l :: 0 <= l < |a| ==> a[l] in p.a)
    requires forall l :: 0 <= l < |p.a| ==> SampleOk(p.a[l], ch, n, p.nCol - 1) && RowOf(p.a[l]) < n - 1
                                            && NoneZero(p.a[l], p.nMaxEqZero)
    requires SampleOk(s, ch, n, p.nCol - 1) && NoneZero(s, p.nCol - 1)
    requires RowOf(s) == n - 1 && Shaped(s, p.nCol) && s.periodic
    ensures var a' := a + [s];
            forall l :: 0 <= l < |a'| ==> SampledOne(a'[l], ch, n, p.nCol, Max(p.nMaxEqZero, p.nCol - 1))
  {
    hide SampleOk, NoneZero, RowOf;
    var m := Max(p.nMaxEqZero, p.nCol - 1);
    ZeroLater(s, p.nCol - 1, m);
    forall l | 0 <= l < |a| ensures SampledOne(a[l], ch, n, p.nCol, m) {
      var k :| 0 <= k < |p.a| && p.a[k] == a[l];
      ZeroLater(p.a[k], p.nMaxEqZero, m);
    }
  }

  lemma PeriodicRows(a: seq<Sample>, n: nat, nPSample: nat)
    requires nPSample > 0 && PeriodicOk(a, n, nPSample)
    ensures forall l :: 0 <= l < |a| && a[l].periodic ==> IsPeriodic(RowOf(a[l]), nPSample)
  {
  }

  // ----- New candidates

  /** A candidate is kept only when it is the last row of its group of the next column: otherwise
      the new row joins that group and is preferred. */
  lemma CandidateStep(p: Accum, ch: seq<nat>, n: nat, i: nat)
    requires WellShaped(p) && 0 < n <= |ch| && i < p.nCol - 1 && ChangesOk(ch, p.nCol)
    requires CurrentOk(p.current, ch, n)
    requires n > 1 && ch[n - 1] > i ==> CandidateOk(p.best[i], ch, n - 1, i)
    requires n == 1 ==> ch[0] <= i
    ensures CandidateOk(Candidate(p, ch[n - 1], i), ch, n, i)
  {
    var c := p.current.(col := i);
    var b := p.best[i];
    CurrentCol(p.current, ch, n, i);
    if ch[n - 1] > i && RowOf(b) == n - 2 && ch[n - 1] > i + 1 {
      Joins(p.current, b, ch, n, i, p.nCol);
    }
  }

  /** A row that joins the candidate's group of the next column is preferred. */
  lemma Joins(current: Sample, b: Sample, ch: seq<nat>, n: nat, i: nat, nCol: nat)
    requires 1 < n <= |ch| && i < nCol - 1 && Shaped(current, nCol) && Shaped(b, nCol)
    requires CurrentOk(current, ch, n) && CandidateOk(b, ch, n - 1, i) && RowOf(b) == n - 2 && ch[n - 1] > i + 1
    ensures BetterPost(current.(col := i), b, nCol)
  {
    var next := i + 1;
    assert current.eq[next] == n - Start(ch, next, n - 1);
    assert b.eq[next] == n - 1 - Start(ch, next, n - 2);
  }

  lemma SelectOk(p: Accum, ch: seq<nat>, n: nat)
    requires WellShaped(p) && 0 < n <= |ch| && ChangesOk(ch, p.nCol) && ch[0] == 0 && Room(p, n) && p.nRow == n
    requires CurrentOk(p.current, ch, n) && Sampled(p, ch, n)
    requires n > 1 ==> forall i :: 0 <= i < p.nCol - 1 ==> CandidateOk(p.best[i], ch, n - 1, i)
    ensures Stable(Select(p, ch[n - 1]), ch, n)
  {
    hide CandidateOk, SampleOk, Better, Ordered, PeriodicOk, NoneZero, BetterPost, Candidate;
    var r := Select(p, ch[n - 1]);
    forall i | 0 <= i < p.nCol - 1 ensures CandidateOk(r.best[i], ch, n, i) {
      CandidateStep(p, ch, n, i);
    }
    CurrentCol(p.current, ch, n, r.current.col);
  }

  /** stat_push keeps the invariant. */
  lemma PushOk(p: Accum, ch: seq<nat>, n: nat, rowid: RowKey)
    requires Stable(p, ch, n) && n < |ch| && ChangesOk(ch, p.nCol) && ch[0] == 0 && Room(p, n + 1)
    ensures Stable(Push(p, ch[n], rowid), ch, n + 1)
  {
    hide Stable, Arrive, Periodic, Select, CandidateOk, CurrentOk, SampleOk, Sampled;
    StableShape(p, ch, n);
    ArriveOk(p, ch, n, rowid);
    var q := Arrive(p, ch[n], rowid);
    PeriodicOkStep(q, ch, n + 1);
    SelectOk(Periodic(q), ch, n + 1);
  }

  lemma StableShape(p: Accum, ch: seq<nat>, n: nat)
    requires Stable(p, ch, n)
    ensures WellShaped(p) && p.nRow == n && 0 < n <= |ch|
  {
  }

  // ----- Every run

  /** The changed columns that analyzeOneTable passes: column 0 is reported for the first row. */
  ghost predicate ValidRun(ch: seq<nat>, nCol: nat) {
    |ch| > 0 && ch[0] == 0 && ChangesOk(ch, nCol)
  }

  lemma PeriodFits(c: nat, mxSample: nat)
    ensures c < (c / (mxSample / 3 + 1) + 1) * (mxSample / 3 + 1)
  {
    var d := mxSample / 3 + 1;
    var q, r := c / d, c % d;
    assert c == d * q + r;
    assert (q + 1) * d == d * q + d;
  }

  /** Every reachable state meets the invariant: samples in row order and no more than fit, periodic
      ones complete, counts exact or marked unknown, and a least preferred sample to evict. */
  lemma {:induction false} RunStable(nCol: nat, c: nat, mxSample: nat, seed: nat,
                                     ch: seq<nat>, rowids: seq<RowKey>, n: nat)
    requires nCol > 0 && mxSample > 0 && ValidRun(ch, nCol) && |rowids| == |ch| && 0 < n <= |ch| && n <= c
    ensures Stable(Run(Init(nCol, c, mxSample, seed), ch[..n], rowids[..n]), ch, n)
    decreases n
  {
    hide Stable, Push, Arrived, Init;
    var p0 := Init(nCol, c, mxSample, seed);
    InitPeriod(nCol, c, mxSample, seed);
    PeriodFits(c, mxSample);
    assert ch[..n][..n - 1] == ch[..n - 1] && rowids[..n][..n - 1] == rowids[..n - 1];
    if n == 1 {
      assert ch[..1][..0] == [];
      assert Run(p0, ch[..1], rowids[..1]) == Push(p0, ch[0], rowids[0]);
      FirstPush(nCol, c, mxSample, seed, ch, rowids[0]);
    } else {
      RunStable(nCol, c, mxSample, seed, ch, rowids, n - 1);
      var p := Run(p0, ch[..n - 1], rowids[..n - 1]);
      RunKeepsPeriod(p0, ch[..n - 1], rowids[..n - 1]);
      PushOk(p, ch, n - 1, rowids[n - 1]);
    }
  }

  lemma InitPeriod(nCol: nat, c: nat, mxSample: nat, seed: nat)
    requires nCol > 0 && mxSample > 0
    ensures var p := Init(nCol, c, mxSample, seed);
            p.nPSample == c / (mxSample / 3 + 1) + 1 && p.nCol == nCol && p.mxSample == mxSample && p.nRow == 0
  {
  }

  lemma {:induction false} RunKeepsPeriod(p: Accum, ch: seq<nat>, rowids: seq<RowKey>)
    requires WellShaped(p) && |rowids| == |ch| && forall t :: 0 <= t < |ch| ==> ch[t] < p.nCol
    ensures Run(p, ch, rowids).nPSample == p.nPSample
  {
    hide Push;
    if ch != [] { RunKeepsPeriod(p, ch[..|ch| - 1], rowids[..|ch| - 1]); }
  }

  lemma FirstPush(nCol: nat, c: nat, mxSample: nat, seed: nat, ch: seq<nat>, rowid: RowKey)
    requires nCol > 0 && mxSample > 0 && |ch| > 0 && ch[0] == 0 && ChangesOk(ch, nCol)
    requires Room(Init(nCol, c, mxSample, seed), 1)
    ensures Stable(Push(Init(nCol, c, mxSample, seed), ch[0], rowid), ch, 1)
  {
    hide Stable, Periodic, Select, CandidateOk, CurrentOk, SampleOk, Sampled, Arrive, Init;
    var p := Init(nCol, c, mxSample, seed);
    InitPeriod(nCol, c, mxSample, seed);
    FirstOk(nCol, c, mxSample, seed, ch, rowid);
    var q := Arrive(p, ch[0], rowid);
    PeriodicOkStep(q, ch, 1);
    SelectOk(Periodic(q), ch, 1);
  }

  // ----- The flush

  lemma {:induction false} Extended(ch: seq<nat>, i: nat, r: nat)
    requires r < |ch|
    ensures Start(ch + [0], i, r) == Start(ch, i, r) && Groups(ch + [0], i, r) == Groups(ch, i, r)
  {
    assert (ch + [0])[r] == ch[r];
    if r > 0 { Extended(ch, i, r - 1); }
  }

  lemma {:induction false} Closes(ch: seq<nat>, i: nat, r: nat)
    requires r < |ch|
    ensures End(ch + [0], i, r, |ch| + 1) == End(ch, i, r, |ch|)
    decreases |ch| - r
  {
    if r + 1 < |ch| {
      assert (ch + [0])[r + 1] == ch[r + 1];
      Closes(ch, i, r + 1);
    }
  }

  /** All counts of a sample are those of the row it stands for in the whole index. */
  ghost predicate Exact(s: Sample, ch: seq<nat>) {
    && RowOf(s) < |ch| && |s.lt| == |s.eq| && |s.dlt| == |s.eq|
    && forall j :: 0 <= j < |s.eq| ==> ExactAt(s, ch, j)
  }

  ghost predicate ExactAt(s: Sample, ch: seq<nat>, j: nat)
    requires j < |s.eq| && |s.lt| == |s.eq| && |s.dlt| == |s.eq| && RowOf(s) < |ch|
  {
    var r := RowOf(s);
    s.eq[j] == Size(ch, j, r, |ch|) && s.lt[j] == Start(ch, j, r) && s.dlt[j] == Groups(ch, j, r)
  }

  lemma FlushedSample(s: Sample, ch: seq<nat>, k: nat)
    requires |ch| > 0 && SampleOk(s, ch + [0], |ch| + 1, k) && RowOf(s) < |ch| && NoneZero(s, 0)
    ensures Exact(s, ch)
  {
    var ch', next, r := ch + [0], |ch| + 1, RowOf(s);
    forall j | 0 <= j < |s.eq| ensures ExactAt(s, ch, j) {
      assert CountAt(s, ch', next, k, j) && LocatedAt(s, ch', j);
      Extended(ch, j, r);
      Closes(ch, j, r);
    }
  }

  /** STAT4 exactness: whatever the rows, once the last groups have been closed every retained sample
      has the exact counts of its row for every prefix; the samples are in row order, no more than
      there is room for, and all rows at the period are among them. */
  lemma FlushExact(nCol: nat, c: nat, mxSample: nat, seed: nat, ch: seq<nat>, rowids: seq<RowKey>)
    requires nCol > 0 && mxSample > 0 && ValidRun(ch, nCol) && |rowids| == |ch| <= c
    ensures var q := Flush(Run(Init(nCol, c, mxSample, seed), ch, rowids));
            && q.nPSample == c / (mxSample / 3 + 1) + 1
            && (forall l :: 0 <= l < |q.a| ==> Exact(q.a[l], ch) && |q.a[l].eq| == nCol)
            && Ordered(q.a) && |q.a| <= mxSample && PeriodicOk(q.a, |ch|, q.nPSample)
  {
    hide Run, Init, Flush, PushPrevious, SampleOk, Ordered, PeriodicOk, NoneZero, Exact, CandidateOk;
    var n := |ch|;
    var ch' := ch + [0];
    assert ch'[..n] == ch && (rowids + [IntegerKey(0)])[..n] == rowids;
    RunStable(nCol, c, mxSample, seed, ch', rowids + [IntegerKey(0)], n);
    var p0 := Init(nCol, c, mxSample, seed);
    InitPeriod(nCol, c, mxSample, seed);
    var p := Run(p0, ch, rowids);
    RunKeepsPeriod(p0, ch, rowids);
    StableShape(p, ch', n);
    FlushReady(p, ch');
    var q := Flush(p);
    forall l | 0 <= l < |q.a| ensures Exact(q.a[l], ch) && |q.a[l].eq| == nCol {
      ShapedAt(q, l);
      FlushedSample(q.a[l], ch, p.nCol - 1);
    }
  }

  lemma ShapedAt(q: Accum, l: nat)
    requires WellShaped(q) && l < |q.a|
    ensures |q.a[l].eq| == q.nCol
  {
  }

  lemma FlushReady(p: Accum, ch: seq<nat>)
    requires |ch| > 1 && Stable(p, ch, |ch| - 1) && ChangesOk(ch, p.nCol) && ch[|ch| - 1] == 0
    ensures WellShaped(p) && Ready(Flush(p), ch, |ch| - 1)
    ensures forall l :: 0 <= l < |Flush(p).a| ==> NoneZero(Flush(p).a[l], 0)
    ensures Flush(p).nCol == p.nCol && Flush(p).nPSample == p.nPSample && Flush(p).mxSample == p.mxSample
  {
    hide CloseColumns, CandidateOk, CurrentOk, SampleOk, Better, Led, Ordered, PeriodicOk, NoneZero, Patch;
    var n := |ch| - 1;
    PushPreviousOk(p, ch, n);
    StableLed(p, ch, n);
    CloseColumnsOk(p, ch, n, 0, p.nCol - 1);
    PushPreviousIs(p, 0);
  }

  // ----- The sample set

  /** The number of periodic ones among the first k samples. */
  function PeriodicCount(a: seq<Sample>, k: nat): nat
    requires k <= |a|
  {
    if k == 0 then 0 else PeriodicCount(a, k - 1) + if a[k - 1].periodic then 1 else 0
  }

  /** The periodic samples lie at least a period apart. */
  lemma {:induction false} PeriodicPacked(a: seq<Sample>, n: nat, nPSample: nat, k: nat) returns (last: nat)
    requires nPSample > 0 && k <= |a| && Ordered(a)
    requires forall l :: 0 <= l < |a| && a[l].periodic ==> IsPeriodic(RowOf(a[l]), nPSample)
    ensures if PeriodicCount(a, k) == 0 then last == 0
            else last < k && a[last].periodic && RowOf(a[last]) + 1 >= nPSample * PeriodicCount(a, k)
  {
    hide IsPeriodic, RowOf;
    last := 0;
    if k > 0 {
      last := PeriodicPacked(a, n, nPSample, k - 1);
      var s := a[k - 1];
      if s.periodic {
        var m := PeriodicCount(a, k - 1);
        PeriodicMultiple(RowOf(s), nPSample);
        if m > 0 { assert RowOf(a[last]) < RowOf(s); }
        MultipleAtLeast(RowOf(s) + 1, nPSample, m);
        last := k - 1;
      }
    }
  }

  lemma PeriodicThird(a: seq<Sample>, n: nat, nPSample: nat, mxSample: nat)
    requires nPSample > 0 && Ordered(a) && PeriodicOk(a, n, nPSample) && n < nPSample * (mxSample / 3 + 1)
    requires forall l :: 0 <= l < |a| ==> RowOf(a[l]) < n
    ensures PeriodicCount(a, |a|) <= mxSample / 3
  {
    hide Ordered, IsPeriodic, RowOf;
    PeriodicRows(a, n, nPSample);
    var last := PeriodicPacked(a, n, nPSample, |a|);
    if PeriodicCount(a, |a|) > 0 {
      Cancel(nPSample, PeriodicCount(a, |a|), mxSample / 3 + 1);
    }
  }

  /** The sample set in every reachable state: in row order; no count at or behind nMaxEqZero unknown;
      every row at the period retained for good, which are at most a third of the samples; and in a
      full set iMin names a non-periodic sample over which no other one is less preferred. */
  lemma SampleSet(nCol: nat, c: nat, mxSample: nat, seed: nat, ch: seq<nat>, rowids: seq<RowKey>, n: nat)
    requires nCol > 0 && mxSample > 0 && ValidRun(ch, nCol) && |rowids| == |ch| && 0 < n <= |ch| && n <= c
    ensures var p := Run(Init(nCol, c, mxSample, seed), ch[..n], rowids[..n]);
            && p.nPSample == c / (mxSample / 3 + 1) + 1
            && |p.a| <= p.mxSample == mxSample
            && (forall k, l :: 0 <= k < l < |p.a| ==> RowOf(p.a[k]) < RowOf(p.a[l]))
            && (forall k, j :: 0 <= k < |p.a| && p.nMaxEqZero <= j < nCol ==> |p.a[k].eq| == nCol && p.a[k].eq[j] > 0)
            && (forall r :: 0 <= r < n && IsPeriodic(r, p.nPSample) ==> HasPeriodic(p.a, r))
            && PeriodicCount(p.a, |p.a|) <= mxSample / 3
            && (|p.a| == mxSample ==> Least(p.a, nCol, p.iMin))
  {
    hide Run, Init, CandidateOk, CurrentOk, SampleOk, IsPeriodic, RowOf;
    var p0 := Init(nCol, c, mxSample, seed);
    InitPeriod(nCol, c, mxSample, seed);
    RunKeepsPeriod(p0, ch[..n], rowids[..n]);
    RunStable(nCol, c, mxSample, seed, ch, rowids, n);
    var p := Run(p0, ch[..n], rowids[..n]);
    forall k | 0 <= k < |p.a| ensures RowOf(p.a[k]) < n && |p.a[k].eq| == nCol && NoneZero(p.a[k], p.nMaxEqZero) {
      ShapedAt(p, k);
      RowWithin(p.a[k], ch, n, nCol - 1);
    }
    PeriodicThird(p.a, n, p.nPSample, mxSample);
  }

  lemma RowWithin(s: Sample, ch: seq<nat>, n: nat, k: nat)
    requires SampleOk(s, ch, n, k)
    ensures RowOf(s) < n
  {
  }
}
