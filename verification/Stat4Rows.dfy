/** The counts in terms of the rows themselves: what the changed columns of a sorted index say about
    the numbers of equal, smaller and distinct smaller prefixes, and the stat1 estimates. */
module Stat4Rows {
  import opened Arith
  import opened Stat4Spec
  import opened Stat4Groups
  import opened Stat4Proof

  /** The columns of an index entry, the rowid or primary key last; values are compared as numbers. */
  type Row = seq<int>

  /** The first column in which two rows differ. */
  function Diff(x: Row, y: Row): (d: nat)
    requires |x| == |y|
    ensures d <= |x| && x[..d] == y[..d]
    ensures d < |x| ==> x[d] != y[d]
  {
    if |x| == 0 then 0
    else if x[0] != y[0] then 0
    else
      var d := Diff(x[1..], y[1..]);
      assert x == [x[0]] + x[1..] && y == [y[0]] + y[1..];
      assert x[..d + 1] == [x[0]] + x[1..][..d] && y[..d + 1] == [y[0]] + y[1..][..d];
      d + 1
  }

  predicate Less(x: Row, y: Row)
    requires |x| == |y|
  {
    var d := Diff(x, y);
    d < |x| && x[d] < y[d]
  }

  /** Distinct rows in the order of the index. */
  ghost predicate SortedRows(rows: seq<Row>, nCol: nat) {
    && (forall t :: 0 <= t < |rows| ==> |rows[t]| == nCol)
    && forall t :: 0 < t < |rows| ==> Follows(rows, nCol, t)
  }

  ghost predicate Follows(rows: seq<Row>, nCol: nat, t: nat)
    requires 0 < t < |rows| && forall t :: 0 <= t < |rows| ==> |rows[t]| == nCol
  {
    Less(rows[t - 1], rows[t])
  }

  /** The argument C of stat_push: the first column that differs from the row before, 0 at first. */
  ghost function Changes(rows: seq<Row>, nCol: nat): (ch: seq<nat>)
    requires SortedRows(rows, nCol)
    ensures |ch| == |rows|
  {
    seq(|rows|, t requires 0 <= t < |rows| => if t == 0 then 0 else Diff(rows[t - 1], rows[t]))
  }

  // ----- Prefixes of sorted rows

  /** The first difference is the only column that agrees up to itself and differs in itself. */
  lemma {:induction false} DiffIs(x: Row, y: Row, d: nat)
    requires |x| == |y| && d <= |x| && x[..d] == y[..d] && (d < |x| ==> x[d] != y[d])
    ensures Diff(x, y) == d
  {
    if d > 0 {
      assert x[..d][0] == y[..d][0];
      assert x[1..][..d - 1] == x[..d][1..] && y[1..][..d - 1] == y[..d][1..];
      DiffIs(x[1..], y[1..], d - 1);
    }
  }

  lemma PrefixDiff(x: Row, y: Row, k: nat)
    requires |x| == |y| && k <= |x|
    ensures x[..k] == y[..k] <==> Diff(x, y) >= k
    ensures Less(x, y) && x[..k] != y[..k] ==> Less(x[..k], y[..k])
  {
    var d := Diff(x, y);
    if d >= k {
      assert x[..k] == x[..d][..k] && y[..k] == y[..d][..k];
    } else {
      assert x[..k][d] != y[..k][d];
      assert x[..k][..d] == x[..d] && y[..k][..d] == y[..d];
      DiffIs(x[..k], y[..k], d);
    }
  }

  lemma LessTransitive(x: Row, y: Row, z: Row)
    requires |x| == |y| == |z| && Less(x, y) && Less(y, z)
    ensures Less(x, z) && Diff(x, z) == if Diff(x, y) < Diff(y, z) then Diff(x, y) else Diff(y, z)
  {
    var d := if Diff(x, y) < Diff(y, z) then Diff(x, y) else Diff(y, z);
    PrefixDiff(x, y, d);
    PrefixDiff(y, z, d);
    if d < Diff(x, y) {
      assert x[d] == x[..Diff(x, y)][d] == y[..Diff(x, y)][d] == y[d];
    }
    if d < Diff(y, z) {
      assert y[d] == y[..Diff(y, z)][d] == z[..Diff(y, z)][d] == z[d];
    }
    DiffIs(x, z, d);
  }

  lemma LessAsymmetric(x: Row, y: Row)
    requires |x| == |y| && Less(x, y)
    ensures !Less(y, x) && x != y
  {
    DiffIs(y, x, Diff(x, y));
  }

  lemma Neighbours(rows: seq<Row>, nCol: nat, i: nat, r: nat)
    requires SortedRows(rows, nCol) && i < nCol && 0 < r < |rows|
    ensures |rows[r - 1]| == |rows[r]| == nCol && Less(rows[r - 1], rows[r])
    ensures Changes(rows, nCol)[r] == Diff(rows[r - 1], rows[r])
  {
    assert Follows(rows, nCol, r);
  }

  /** Two rows agree on i + 1 columns when no column up to i changes behind the first one. */
  lemma {:induction false} SamePrefix(rows: seq<Row>, nCol: nat, i: nat, q: nat, r: nat)
    requires SortedRows(rows, nCol) && i < nCol && q < r < |rows|
    ensures Less(rows[q], rows[r])
    ensures Diff(rows[q], rows[r]) > i <==> Start(Changes(rows, nCol), i, r) <= q
  {
    hide Follows, Changes, Less, Diff;
    Neighbours(rows, nCol, i, r);
    if q + 1 < r {
      SamePrefix(rows, nCol, i, q, r - 1);
      LessTransitive(rows[q], rows[r - 1], rows[r]);
    }
  }

  // ----- Numbers of rows

  predicate Between(a: nat, q: nat, b: nat) { a <= q < b }

  ghost function Interval(a: nat, b: nat): set<nat> { set q: nat | q < b && Between(a, q, b) }

  lemma IsInterval(q: set<nat>, a: nat, b: nat, n: nat)
    requires b <= n && (forall k :: k in q ==> k < n)
    requires forall k: nat :: k < n ==> (k in q <==> Between(a, k, b))
    ensures q == Interval(a, b)
  {
  }

  lemma {:induction false} IntervalSize(a: nat, b: nat)
    requires a <= b
    ensures |Interval(a, b)| == b - a
    decreases b - a
  {
    if a < b {
      IntervalSize(a, b - 1);
      assert Interval(a, b) == Interval(a, b - 1) + {b - 1};
    }
  }

  /** The rows of a group are those up to its end. */
  lemma {:induction false} EndCovers(ch: seq<nat>, i: nat, r: nat, q: nat, n: nat)
    requires r <= q < n <= |ch|
    ensures Start(ch, i, q) <= r <==> q < End(ch, i, r, n)
    decreases n - r
  {
    if r < q {
      if ch[r + 1] <= i {
        StartAfter(ch, i, r + 1, q);
      } else {
        EndCovers(ch, i, r + 1, q, n);
        StartNotAt(ch, i, r + 1, q);
      }
    }
  }

  /** The rows that agree with row r in the first k columns. */
  ghost function Equal(rows: seq<Row>, nCol: nat, k: nat, r: nat): set<nat>
    requires SortedRows(rows, nCol) && k <= nCol && r < |rows|
  {
    set q: nat | q < |rows| && rows[q][..k] == rows[r][..k]
  }

  /** The rows with a smaller prefix of k columns than row r. */
  ghost function Smaller(rows: seq<Row>, nCol: nat, k: nat, r: nat): set<nat>
    requires SortedRows(rows, nCol) && k <= nCol && r < |rows|
  {
    set q: nat | q < |rows| && Less(rows[q][..k], rows[r][..k])
  }

  /** The distinct prefixes of k columns among the first n rows. */
  ghost function Prefixes(rows: seq<Row>, nCol: nat, k: nat, n: nat): set<Row>
    requires SortedRows(rows, nCol) && k <= nCol && n <= |rows|
  {
    set q: nat | q < n :: rows[q][..k]
  }

  /** The distinct prefixes of k columns that are smaller than that of row r. */
  ghost function SmallerPrefixes(rows: seq<Row>, nCol: nat, k: nat, r: nat): set<Row>
    requires SortedRows(rows, nCol) && k <= nCol && r < |rows|
  {
    set q: nat | q < |rows| && Less(rows[q][..k], rows[r][..k]) :: rows[q][..k]
  }

  lemma Position(rows: seq<Row>, nCol: nat, i: nat, q: nat, r: nat)
    requires SortedRows(rows, nCol) && i < nCol && q < |rows| && r < |rows|
    ensures var ch := Changes(rows, nCol);
            && (rows[q][..i + 1] == rows[r][..i + 1] <==> Start(ch, i, r) <= q < End(ch, i, r, |rows|))
            && (Less(rows[q][..i + 1], rows[r][..i + 1]) <==> q < Start(ch, i, r))
  {
    var ch, k := Changes(rows, nCol), i + 1;
    if q < r {
      SamePrefix(rows, nCol, i, q, r);
      PrefixDiff(rows[q], rows[r], k);
      EndCovers(ch, i, r, r, |rows|);
    } else if r < q {
      SamePrefix(rows, nCol, i, r, q);
      PrefixDiff(rows[r], rows[q], k);
      EndCovers(ch, i, r, q, |rows|);
      if rows[q][..k] != rows[r][..k] { LessAsymmetric(rows[r][..k], rows[q][..k]); }
    }
  }

  lemma CountEqual(rows: seq<Row>, nCol: nat, i: nat, r: nat)
    requires SortedRows(rows, nCol) && i < nCol && r < |rows|
    ensures |Equal(rows, nCol, i + 1, r)| == Size(Changes(rows, nCol), i, r, |rows|)
    ensures |Smaller(rows, nCol, i + 1, r)| == Start(Changes(rows, nCol), i, r)
  {
    hide Follows, Changes, Less, Diff, Start, End;
    var ch := Changes(rows, nCol);
    var s, e := Start(ch, i, r), End(ch, i, r, |rows|);
    forall q: nat | q < |rows|
      ensures q in Equal(rows, nCol, i + 1, r) <==> Between(s, q, e)
      ensures q in Smaller(rows, nCol, i + 1, r) <==> Between(0, q, s)
    {
      Position(rows, nCol, i, q, r);
    }
    IntervalSize(s, e);
    IntervalSize(0, s);
    IsInterval(Equal(rows, nCol, i + 1, r), s, e, |rows|);
    IsInterval(Smaller(rows, nCol, i + 1, r), 0, s, |rows|);
  }

  lemma PrefixesGrow(rows: seq<Row>, nCol: nat, k: nat, r: nat)
    requires SortedRows(rows, nCol) && k <= nCol && r < |rows|
    ensures Prefixes(rows, nCol, k, r + 1) == Prefixes(rows, nCol, k, r) + {rows[r][..k]}
  {
    var all, below := Prefixes(rows, nCol, k, r + 1), Prefixes(rows, nCol, k, r);
    forall y | y in all ensures y in below + {rows[r][..k]} {
      var q: nat :| q < r + 1 && y == rows[q][..k];
    }
    assert rows[r][..k] in all;
  }

  /** A row has a new prefix exactly when one of its columns changes. */
  lemma NewPrefix(rows: seq<Row>, nCol: nat, i: nat, r: nat)
    requires SortedRows(rows, nCol) && i < nCol && 0 < r < |rows|
    ensures rows[r][..i + 1] in Prefixes(rows, nCol, i + 1, r) <==> Changes(rows, nCol)[r] > i
  {
    var k := i + 1;
    var below := Prefixes(rows, nCol, k, r);
    PrefixDiff(rows[r - 1], rows[r], k);
    if Changes(rows, nCol)[r] > i {
      assert rows[r - 1][..k] in below;
    } else {
      forall q: nat | q < r ensures rows[q][..k] != rows[r][..k] { Position(rows, nCol, i, q, r); }
    }
  }

  /** Groups counts distinct prefixes. */
  lemma {:induction false} CountPrefixes(rows: seq<Row>, nCol: nat, i: nat, r: nat)
    requires SortedRows(rows, nCol) && i < nCol && r < |rows|
    ensures |Prefixes(rows, nCol, i + 1, Start(Changes(rows, nCol), i, r))| == Groups(Changes(rows, nCol), i, r)
    ensures |Prefixes(rows, nCol, i + 1, r + 1)| == Groups(Changes(rows, nCol), i, r) + 1
  {
    hide Follows, Changes;
    PrefixesGrow(rows, nCol, i + 1, r);
    if r == 0 {
      assert Prefixes(rows, nCol, i + 1, 0) == {};
    } else {
      hide Prefixes;
      CountPrefixes(rows, nCol, i, r - 1);
      NewPrefix(rows, nCol, i, r);
      var below, x := Prefixes(rows, nCol, i + 1, r), rows[r][..i + 1];
      if x in below { assert below + {x} == below; }
    }
  }

  lemma CountSmaller(rows: seq<Row>, nCol: nat, i: nat, r: nat)
    requires SortedRows(rows, nCol) && i < nCol && r < |rows|
    ensures |SmallerPrefixes(rows, nCol, i + 1, r)| == Groups(Changes(rows, nCol), i, r)
  {
    var ch, k := Changes(rows, nCol), i + 1;
    var s := Start(ch, i, r);
    forall q: nat | q < |rows| ensures Less(rows[q][..k], rows[r][..k]) <==> q < s {
      Position(rows, nCol, i, q, r);
    }
    CountPrefixes(rows, nCol, i, r);
    assert SmallerPrefixes(rows, nCol, k, r) == Prefixes(rows, nCol, k, s);
  }

  // ----- Which row a sample is

  /** A sample carries the rowid of the row that its counts are those of. */
  ghost predicate Identified(s: Sample, rowids: seq<RowKey>) {
    RowOf(s) < |rowids| && s.rowid == rowids[RowOf(s)]
  }

  ghost predicate AllIdentified(p: Accum, rowids: seq<RowKey>) {
    && p.nCol > 0 && |p.best| == p.nCol && Identified(p.current, rowids)
    && (forall i :: 0 <= i < p.nCol - 1 ==> Identified(p.best[i], rowids))
    && forall k :: 0 <= k < |p.a| ==> Identified(p.a[k], rowids)
  }

  lemma InsertIdentified(p: Accum, s: Sample, nEqZero: nat, rowids: seq<RowKey>)
    requires WellShaped(p) && Shaped(s, p.nCol) && nEqZero <= p.nCol && Identified(s, rowids)
    requires forall k :: 0 <= k < |p.a| ==> Identified(p.a[k], rowids)
    ensures forall k :: 0 <= k < |Insert(p, s, nEqZero).a| ==> Identified(Insert(p, s, nEqZero).a[k], rowids)
  {
    hide Sharing, MinOf, Identified;
    var share := if s.periodic then Absent else Sharing(p.a, p.nCol, s.col, |p.a|, Absent);
    match share
    case Blocked =>
    case Upgrade(k) =>
      SameIdentity(p.a[k], p.a[k].(col := s.col, eq := p.a[k].eq[s.col := s.eq[s.col]]), rowids);
    case Absent =>
      SameIdentity(s, ZeroFront(s, nEqZero), rowids);
  }

  lemma {:induction false} CloseIdentified(p: Accum, chng: nat, n: nat, rowids: seq<RowKey>)
    requires WellShaped(p) && n < p.nCol && AllIdentified(p, rowids)
    ensures AllIdentified(CloseColumns(p, chng, n), rowids)
    decreases n
  {
    hide Insert, Better, Identified;
    if n > chng {
      var b := Closed(p, n - 1);
      assert Identified(b, rowids) by { SameIdentity(p.best[n - 1], b, rowids); }
      InsertIdentified(p.(best := p.best[n - 1 := b]), b, n - 1, rowids);
      CloseIdentified(CloseColumn(p, n - 1), chng, n - 1, rowids);
    }
  }

  lemma SameIdentity(s: Sample, s': Sample, rowids: seq<RowKey>)
    requires Identified(s, rowids) && s'.lt == s.lt && s'.rowid == s.rowid
    ensures Identified(s', rowids)
  {
  }

  lemma PushPreviousIdentified(p: Accum, chng: nat, rowids: seq<RowKey>)
    requires WellShaped(p) && chng < p.nCol && AllIdentified(p, rowids)
    ensures AllIdentified(PushPrevious(p, chng), rowids)
  {
    hide CloseColumns, Identified;
    CloseIdentified(p, chng, p.nCol - 1, rowids);
    var p1, r := CloseColumns(p, chng, p.nCol - 1), PushPrevious(p, chng);
    forall k | 0 <= k < |r.a| ensures Identified(r.a[k], rowids) {
      assert Identified(p1.a[k], rowids);
      SameIdentity(p1.a[k], r.a[k], rowids);
    }
  }

  ghost predicate SamplesIdentified(p: Accum, rowids: seq<RowKey>) {
    Identified(p.current, rowids) && forall k :: 0 <= k < |p.a| ==> Identified(p.a[k], rowids)
  }

  /** The part of stat_push behind the counters. */
  lemma SampleIdentified(p: Accum, chng: nat, rowids: seq<RowKey>)
    requires WellShaped(p) && SamplesIdentified(p, rowids)
    requires forall i :: 0 <= i < p.nCol - 1 && i < chng ==> Identified(p.best[i], rowids)
    ensures AllIdentified(Select(Periodic(p), chng), rowids)
  {
    hide Insert, IsPeriodic, BetterPost, Identified;
    var c := p.current.(periodic := true, col := 0);
    SameIdentity(p.current, c, rowids);
    InsertIdentified(p.(current := c), c, p.nCol - 1, rowids);
    var q := Periodic(p);
    SameIdentity(c, q.current, rowids);
    assert SamplesIdentified(q, rowids);
    var r := Select(q, chng);
    SameIdentity(q.current, r.current, rowids);
    forall i | 0 <= i < p.nCol - 1 ensures Identified(r.best[i], rowids) {
      SameIdentity(q.current, q.current.(col := i), rowids);
      assert r.best[i] == Candidate(q, chng, i);
    }
  }

  lemma ArriveIdentified(p: Accum, ch: seq<nat>, n: nat, rowids: seq<RowKey>)
    requires Stable(p, ch, n) && n < |ch| && ChangesOk(ch, p.nCol) && Room(p, n + 1) && n < |rowids|
    requires AllIdentified(p, rowids)
    ensures WellShaped(p) && SamplesIdentified(Arrive(p, ch[n], rowids[n]), rowids)
    ensures forall i :: 0 <= i < p.nCol - 1 ==> Identified(Arrive(p, ch[n], rowids[n]).best[i], rowids)
  {
    hide PushPrevious, Advance, CandidateOk, SampleOk, Ordered, PeriodicOk, MinOk, NoneZero;
    StableShape(p, ch, n);
    ArriveOk(p, ch, n, rowids[n]);
    PushPreviousIdentified(p, ch[n], rowids);
  }

  /** In every reachable state, samples, candidates and current row carry the rowid of their row. */
  lemma {:induction false} RunIdentified(nCol: nat, c: nat, mxSample: nat, seed: nat,
                                         ch: seq<nat>, rowids: seq<RowKey>, n: nat)
    requires nCol > 0 && mxSample > 0 && ValidRun(ch, nCol) && |rowids| == |ch| && 0 < n <= |ch| && n <= c
    ensures AllIdentified(Run(Init(nCol, c, mxSample, seed), ch[..n], rowids[..n]), rowids)
    decreases n
  {
    hide Stable, Init, Select, Periodic, Arrive, Identified;
    var p0 := Init(nCol, c, mxSample, seed);
    InitPeriod(nCol, c, mxSample, seed);
    PeriodFits(c, mxSample);
    assert ch[..n][..n - 1] == ch[..n - 1] && rowids[..n][..n - 1] == rowids[..n - 1];
    if n == 1 {
      assert Run(p0, ch[..1], rowids[..1]) == Push(p0, ch[0], rowids[0]);
      FirstIdentified(p0, nCol, c, mxSample, seed, ch, rowids);
      SampleIdentified(Arrive(p0, ch[0], rowids[0]), ch[0], rowids);
    } else {
      RunStable(nCol, c, mxSample, seed, ch, rowids, n - 1);
      RunIdentified(nCol, c, mxSample, seed, ch, rowids, n - 1);
      var p := Run(p0, ch[..n - 1], rowids[..n - 1]);
      RunKeepsPeriod(p0, ch[..n - 1], rowids[..n - 1]);
      ArriveIdentified(p, ch, n - 1, rowids);
      SampleIdentified(Arrive(p, ch[n - 1], rowids[n - 1]), ch[n - 1], rowids);
    }
  }

  lemma FirstIdentified(p: Accum, nCol: nat, c: nat, mxSample: nat, seed: nat, ch: seq<nat>, rowids: seq<RowKey>)
    requires nCol > 0 && mxSample > 0 && ValidRun(ch, nCol) && |rowids| == |ch| && p == Init(nCol, c, mxSample, seed)
    ensures SamplesIdentified(Arrive(p, ch[0], rowids[0]), rowids)
  {
  }

  // ----- The theorems about rows

  /** What stat_get returns of one sample: an existing row, its rowid, and for every prefix of it the
      numbers of rows with that prefix, of rows before it, and of distinct prefixes before it. */
  ghost predicate Describes(s: Sample, rows: seq<Row>, rowids: seq<RowKey>, nCol: nat)
    requires SortedRows(rows, nCol)
  {
    && Identified(s, rowids) && |rowids| == |rows| && |s.eq| == nCol && |s.lt| == nCol && |s.dlt| == nCol
    && forall i :: 0 <= i < nCol ==> DescribesColumn(s, rows, nCol, i)
  }

  ghost predicate DescribesColumn(s: Sample, rows: seq<Row>, nCol: nat, i: nat)
    requires SortedRows(rows, nCol) && i < nCol && RowOf(s) < |rows|
    requires |s.eq| == nCol && |s.lt| == nCol && |s.dlt| == nCol
  {
    && s.eq[i] == |Equal(rows, nCol, i + 1, RowOf(s))|
    && s.lt[i] == |Smaller(rows, nCol, i + 1, RowOf(s))|
    && s.dlt[i] == |SmallerPrefixes(rows, nCol, i + 1, RowOf(s))|
  }

  lemma ExactDescribes(s: Sample, rows: seq<Row>, rowids: seq<RowKey>, nCol: nat)
    requires SortedRows(rows, nCol) && Exact(s, Changes(rows, nCol)) && |s.eq| == nCol
    requires Identified(s, rowids) && |rowids| == |rows|
    ensures Describes(s, rows, rowids, nCol)
  {
    hide SortedRows, Changes, Equal, Smaller, SmallerPrefixes;
    forall i | 0 <= i < nCol ensures DescribesColumn(s, rows, nCol, i) {
      assert ExactAt(s, Changes(rows, nCol), i);
      CountEqual(rows, nCol, i, RowOf(s));
      CountSmaller(rows, nCol, i, RowOf(s));
    }
  }

  /** The changed columns of a non-empty sorted index of distinct rows form a run. */
  lemma RowsRun(rows: seq<Row>, nCol: nat)
    requires SortedRows(rows, nCol) && |rows| > 0 && nCol > 0
    ensures ValidRun(Changes(rows, nCol), nCol)
  {
    var ch := Changes(rows, nCol);
    forall t | 0 <= t < |ch| ensures ch[t] < nCol {
      if t > 0 { assert Follows(rows, nCol, t); }
    }
  }

  /** ANALYZE of a sorted index: every sample that stat_get reads describes its row exactly. */
  lemma SamplesDescribe(nCol: nat, c: nat, mxSample: nat, seed: nat, rows: seq<Row>, rowids: seq<RowKey>)
    requires nCol > 0 && mxSample > 0 && SortedRows(rows, nCol) && 0 < |rows| <= c && |rowids| == |rows|
    ensures ValidRun(Changes(rows, nCol), nCol)
    ensures var q := Flush(Run(Init(nCol, c, mxSample, seed), Changes(rows, nCol), rowids));
            forall k :: 0 <= k < |q.a| ==> Describes(q.a[k], rows, rowids, nCol)
  {
    hide SortedRows, Changes, Run, Init, Flush, Exact, Identified, Describes;
    var ch := Changes(rows, nCol);
    RowsRun(rows, nCol);
    FlushExact(nCol, c, mxSample, seed, ch, rowids);
    RunIdentified(nCol, c, mxSample, seed, ch, rowids, |ch|);
    assert ch[..|ch|] == ch && rowids[..|ch|] == rowids;
    InitPeriod(nCol, c, mxSample, seed);
    var p := Run(Init(nCol, c, mxSample, seed), ch, rowids);
    FlushIdentified(p, rowids);
    forall k | 0 <= k < |Flush(p).a| ensures Describes(Flush(p).a[k], rows, rowids, nCol) {
      ExactDescribes(Flush(p).a[k], rows, rowids, nCol);
    }
  }

  lemma FlushIdentified(p: Accum, rowids: seq<RowKey>)
    requires WellShaped(p) && AllIdentified(p, rowids)
    ensures forall k :: 0 <= k < |Flush(p).a| ==> Identified(Flush(p).a[k], rowids)
  {
    hide PushPrevious, Identified;
    PushPreviousIdentified(p, 0, rowids);
  }

  // ----- stat1

  /** After every row: equal and smaller rows are all rows so far, and one more than the number of
      distinct smaller prefixes is the number of distinct prefixes. */
  lemma PrefixStatistics(nCol: nat, c: nat, mxSample: nat, seed: nat,
                         rows: seq<Row>, rowids: seq<RowKey>, n: nat, i: nat)
    requires nCol > 0 && mxSample > 0 && SortedRows(rows, nCol) && 0 < n <= |rows| <= c
    requires |rowids| == |rows| && i < nCol
    ensures ValidRun(Changes(rows, nCol), nCol)
    ensures var p := Run(Init(nCol, c, mxSample, seed), Changes(rows, nCol)[..n], rowids[..n]);
            && p.nRow == n && |p.current.eq| == |p.current.lt| == |p.current.dlt| == nCol
            && p.current.lt[i] + p.current.eq[i] == p.nRow
            && p.current.dlt[i] + 1 == |Prefixes(rows, nCol, i + 1, n)|
  {
    hide SortedRows, Changes, Run, Init;
    var ch := Changes(rows, nCol);
    RowsRun(rows, nCol);
    RunStable(nCol, c, mxSample, seed, ch, rowids, n);
    InitPeriod(nCol, c, mxSample, seed);
    var p := Run(Init(nCol, c, mxSample, seed), ch[..n], rowids[..n]);
    assert LocatedAt(p.current, ch, i);
    CountPrefixes(rows, nCol, i, n - 1);
  }

  /** The stat1 estimate of stat_get: (K + D - 1) / D. */
  function Estimate(nRow: nat, dlt: nat): nat {
    (nRow + (dlt + 1) - 1) / (dlt + 1)
  }

  lemma EstimateParts(n: nat, dlt: nat) returns (r: nat)
    ensures n + dlt == (dlt + 1) * Estimate(n, dlt) + r && r <= dlt
  {
    r := (n + dlt) % (dlt + 1);
  }

  /** It is the quotient rounded up. */
  lemma EstimateRoundsUp(n: nat, dlt: nat)
    requires dlt < n
    ensures (Estimate(n, dlt) - 1) * (dlt + 1) < n <= Estimate(n, dlt) * (dlt + 1)
    ensures 1 <= Estimate(n, dlt) <= n
  {
    var r := EstimateParts(n, dlt);
    hide Estimate;
    var d, q := dlt + 1, Estimate(n, dlt);
    Distribute(d, q, -1);
    if q > n {
      Monotone(d, n + 1, q);
      Distribute(d, n, 1);
      AtLeast(n, d);
      assert false;
    }
  }

  /** More distinct prefixes, a smaller estimate. */
  lemma EstimateFalls(n: nat, dlt: nat, dlt': nat)
    requires dlt <= dlt' < n
    ensures Estimate(n, dlt') <= Estimate(n, dlt)
  {
    EstimateRoundsUp(n, dlt);
    EstimateRoundsUp(n, dlt');
    var e, e' := Estimate(n, dlt), Estimate(n, dlt');
    Monotone(e, dlt + 1, dlt' + 1);
    hide Estimate;
    Cancel(dlt' + 1, e' - 1, e);
  }

  lemma {:induction false} GroupsGrow(ch: seq<nat>, i: nat, j: nat, r: nat)
    requires i <= j && r < |ch|
    ensures Groups(ch, i, r) <= Groups(ch, j, r) <= r
  {
    if r > 0 { GroupsGrow(ch, i, j, r - 1); }
  }

  /** No two of the rows agree on the first k columns. */
  ghost predicate UniqueKey(rows: seq<Row>, nCol: nat, k: nat)
    requires SortedRows(rows, nCol) && k <= nCol
  {
    forall q, r :: 0 <= q < r < |rows| ==> rows[q][..k] != rows[r][..k]
  }

  lemma {:induction false} UniqueCount(rows: seq<Row>, nCol: nat, k: nat, n: nat)
    requires SortedRows(rows, nCol) && k <= nCol && n <= |rows|
    ensures |Prefixes(rows, nCol, k, n)| <= n
    ensures UniqueKey(rows, nCol, k) ==> |Prefixes(rows, nCol, k, n)| == n
  {
    hide Follows;
    if n == 0 {
      assert Prefixes(rows, nCol, k, 0) == {};
    } else {
      UniqueCount(rows, nCol, k, n - 1);
      PrefixesGrow(rows, nCol, k, n - 1);
    }
  }

  /** The stat1 estimates of an index: the rows per distinct prefix rounded up, between 1 and the
      number of rows, no larger for a longer prefix, and 1 for a unique one. */
  lemma Stat1Estimates(nCol: nat, c: nat, mxSample: nat, seed: nat, rows: seq<Row>, rowids: seq<RowKey>, i: nat, j: nat)
    requires nCol > 0 && mxSample > 0 && SortedRows(rows, nCol) && 0 < |rows| <= c && |rowids| == |rows|
    requires i <= j < nCol
    ensures ValidRun(Changes(rows, nCol), nCol)
    ensures var p := Run(Init(nCol, c, mxSample, seed), Changes(rows, nCol), rowids);
            var n := |rows|;
            && p.nRow == n && |p.current.dlt| == nCol
            && var e := Estimate(n, p.current.dlt[i]);
            && (e - 1) * |Prefixes(rows, nCol, i + 1, n)| < n <= e * |Prefixes(rows, nCol, i + 1, n)|
            && 1 <= e <= n && Estimate(n, p.current.dlt[j]) <= e
            && (UniqueKey(rows, nCol, i + 1) ==> e == 1)
  {
    hide SortedRows, Changes, Run, Init, UniqueKey, Prefixes, Estimate;
    var ch, n := Changes(rows, nCol), |rows|;
    assert ch[..n] == ch && rowids[..n] == rowids;
    PrefixStatistics(nCol, c, mxSample, seed, rows, rowids, n, i);
    PrefixStatistics(nCol, c, mxSample, seed, rows, rowids, n, j);
    CountPrefixes(rows, nCol, i, n - 1);
    CountPrefixes(rows, nCol, j, n - 1);
    GroupsGrow(ch, i, j, n - 1);
    UniqueCount(rows, nCol, i + 1, n);
    var d := Groups(ch, i, n - 1);
    EstimateRoundsUp(n, d);
    EstimateFalls(n, d, Groups(ch, j, n - 1));
    if d + 1 == n { EstimateOne(n); }
  }

  lemma EstimateOne(n: nat)
    requires n > 0
    ensures Estimate(n, n - 1) == 1
  {
    DivUnique(n + (n - 1 + 1) - 1, n, 1, n - 1);
  }
}
