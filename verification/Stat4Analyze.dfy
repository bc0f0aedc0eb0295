/** ANALYZE of one index from end to end: the scan that finds the changed column of every row, the
    accumulator, the texts it is read out in, and the loader that reads these texts back. */
module Stat4Analyze {
  import opened Arith
  import opened Stat4Spec
  import opened Stat4Groups
  import opened Stat4Proof
  import opened Stat4Rows
  import opened Stat4Text
  import opened Stat4Machine
  import Stat4Kept

  /** An IndexSample as the loader leaves it: the columns of its row, and its numbers. */
  datatype Loaded = Loaded(record: Row, eq: seq<nat>, lt: seq<nat>, dlt: seq<nat>)

  /** The numbers of a loaded sample. */
  function AsSample(x: Loaded): Sample {
    Sample(x.eq, x.lt, x.dlt, IntegerKey(0), false, 0, 0)
  }

  // ----- The scan

  /** The jumps of the scan: the first of the tested columns that differs from the registers of the
      previous row, or their number; these registers are then loaded from that column on. */
  method FirstChange(prev: array<int>, row: Row) returns (chng: nat)
    requires prev.Length <= |row|
    modifies prev
    ensures chng <= prev.Length && row[..chng] == old(prev[..chng])
    ensures chng < prev.Length ==> row[chng] != old(prev[chng])
    ensures prev[..] == row[..prev.Length]
  {
    chng := 0;
    while chng < prev.Length && row[chng] == prev[chng]
      invariant 0 <= chng <= prev.Length && row[..chng] == prev[..chng]
    {
      chng := chng + 1;
    }
    LoadFrom(prev, row, chng);
  }

  /** Registers chng and up are loaded. */
  method LoadFrom(prev: array<int>, row: Row, chng: nat)
    requires chng <= prev.Length <= |row| && row[..chng] == prev[..chng]
    modifies prev
    ensures prev[..] == row[..prev.Length]
  {
    var i := chng;
    while i < prev.Length
      invariant chng <= i <= prev.Length && row[..i] == prev[..i]
    {
      prev[i] := row[i];
      i := i + 1;
    }
  }

  /** Testing columns that make the rows unique, but for the last one of them, is enough. */
  lemma ChangeFound(rows: seq<Row>, nCol: nat, nColTest: nat, t: nat, chng: nat)
    requires SortedRows(rows, nCol) && nColTest < nCol && UniqueKey(rows, nCol, nColTest + 1)
    requires 0 < t < |rows| && chng <= nColTest && rows[t][..chng] == rows[t - 1][..chng]
    requires chng < nColTest ==> rows[t][chng] != rows[t - 1][chng]
    ensures Changes(rows, nCol)[t] == chng
  {
    var x, y := rows[t - 1], rows[t];
    if chng == nColTest {
      assert rows[t - 1][..chng + 1] != rows[t][..chng + 1];
      assert x[..chng + 1] == x[..chng] + [x[chng]] && y[..chng + 1] == y[..chng] + [y[chng]];
    }
    DiffIs(x, y, chng);
  }

  /** A unique index on one column: only nulls, which come first, are repeated. */
  ghost predicate UniqueButNull(rows: seq<Row>, nCol: nat, nullValue: int)
    requires SortedRows(rows, nCol) && nCol > 0
  {
    && (forall t :: 0 <= t < |rows| ==> nullValue <= rows[t][0])
    && forall q, r :: 0 <= q < r < |rows| && rows[q][0] == rows[r][0] ==> rows[q][0] == nullValue
  }

  /** Behind a value that is not null nothing needs to be tested. */
  lemma ShortcutFound(rows: seq<Row>, nCol: nat, nullValue: int, t: nat)
    requires SortedRows(rows, nCol) && nCol > 0 && UniqueButNull(rows, nCol, nullValue)
    requires 0 < t < |rows| && rows[t - 1][0] != nullValue
    ensures Changes(rows, nCol)[t] == 0 && rows[t][0] != nullValue
  {
    assert Follows(rows, nCol, t);
  }

  lemma RunStep(p: Accum, ch: seq<nat>, rowids: seq<RowKey>, t: nat)
    requires WellShaped(p) && |rowids| == |ch| && t < |ch| && forall u :: 0 <= u < |ch| ==> ch[u] < p.nCol
    ensures Run(p, ch[..t + 1], rowids[..t + 1]) == Push(Run(p, ch[..t], rowids[..t]), ch[t], rowids[t])
  {
    hide Push;
    assert ch[..t + 1][..t] == ch[..t] && rowids[..t + 1][..t] == rowids[..t];
  }

  /** The scan of the index pushes its rows with their changed columns. For a unique index on one column,
      neither the changed column nor the register is touched any more once the latter is not null. */
  method Scan(p: Stat4Accum, nColTest: nat, unique: bool, nullValue: int, rows: seq<Row>, rowids: seq<RowKey>)
    requires p.Valid() && SortedRows(rows, p.nCol) && |rowids| == |rows| > 0
    requires nColTest < p.nCol && UniqueKey(rows, p.nCol, nColTest + 1)
    requires unique ==> nColTest == 1 && UniqueButNull(rows, p.nCol, nullValue)
    modifies p, p.a, p.best
    ensures ValidRun(Changes(rows, p.nCol), p.nCol)
    ensures p.Valid() && p.View() == Run(old(p.View()), Changes(rows, p.nCol), rowids) && p.iGet == old(p.iGet)
  {
    hide Changes, Run, Push, UniqueKey, UniqueButNull, WellShaped, Diff, Follows;
    RowsRun(rows, p.nCol);
    ghost var ch, q := Changes(rows, p.nCol), p.View();
    var prev := new int[nColTest];
    var chng, t := 0, 0;
    LoadFrom(prev, rows[0], 0);
    RunNone(q, ch, rowids);
    while t < |rows|
      invariant 0 <= t <= |rows| && p.Valid() && p.iGet == old(p.iGet)
      invariant p.View() == Run(q, ch[..t], rowids[..t])
      invariant t < |rows| ==> chng == ch[t]
      invariant t < |rows| ==> if unique && prev[0] != nullValue then chng == 0 && rows[t][0] != nullValue
                               else prev[..] == rows[t][..nColTest]
    {
      RunStep(q, ch, rowids, t);
      p.StatPush(chng, rowids[t]);
      t := t + 1;
      if t < |rows| {
        if unique && prev[0] != nullValue {
          ShortcutFound(rows, p.nCol, nullValue, t);
        } else {
          ghost var was := prev[..];
          chng := FirstChange(prev, rows[t]);
          assert was[..chng] == rows[t - 1][..chng];
          ChangeFound(rows, p.nCol, nColTest, t, chng);
          if unique && chng == 1 { assert rows[t][..chng][0] == was[..chng][0]; }
        }
      }
    }
    assert ch[..t] == ch && rowids[..t] == rowids;
  }

  lemma RunNone(p: Accum, ch: seq<nat>, rowids: seq<RowKey>)
    requires WellShaped(p) && |rowids| == |ch| && forall u :: 0 <= u < |ch| ==> ch[u] < p.nCol
    ensures Run(p, ch[..0], rowids[..0]) == p
  {
  }

  // ----- Reading out and reading back

  /** The loader reads one of the texts of a sample into its zeroed array. */
  method Load(zCounts: string, nCol: nat, m: nat, ghost counts: seq<nat>) returns (r: seq<nat>)
    requires m > 0 && zCounts == Joined(counts) && |counts| == nCol
    requires forall i :: 0 <= i < |counts| ==> counts[i] < m
    ensures r == counts
  {
    hide Joined;
    var aOut := new nat[nCol](_ => 0);
    CountsRoundTrip(counts, m);
    DecodeIntArray(zCounts, m, aOut);
    r := aOut[..];
  }

  ghost predicate Within(s: Sample, n: nat) {
    forall w: Which, i :: 0 <= i < |Counts(s, w)| ==> Counts(s, w)[i] <= n
  }

  ghost predicate CountsWithin(a: seq<Sample>, n: nat) {
    forall k :: 0 <= k < |a| ==> Within(a[k], n)
  }

  /** No count exceeds the number of rows. */
  lemma ExactSmall(s: Sample, ch: seq<nat>)
    requires Exact(s, ch)
    ensures Within(s, |ch|)
  {
    forall i | 0 <= i < |s.eq| ensures s.eq[i] <= |ch| && s.lt[i] <= |ch| && s.dlt[i] <= |ch| {
      assert ExactAt(s, ch, i);
      GroupsGrow(ch, i, i, RowOf(s));
    }
  }

  /** The counts of the current sample as the loader reads them. */
  method ReadCounts(p: Stat4Accum, m: nat) returns (eq: seq<nat>, lt: seq<nat>, dlt: seq<nat>)
    requires p.Valid() && 0 <= p.iGet < p.nSample && 0 < m <= COUNT_MODULUS && Within(p.a[p.iGet], m - 1)
    modifies p`iGet
    ensures p.Valid() && p.View() == old(p.View()) && p.iGet == old(p.iGet) + 1
    ensures var s := p.a[old(p.iGet)]; eq == s.eq && lt == s.lt && dlt == s.dlt
  {
    ghost var s := p.a[p.iGet];
    assert s == p.View().a[p.iGet] && Shaped(s, p.nCol);
    hide Joined;
    var zEq := p.GetCounts(NEq);
    var zLt := p.GetCounts(NLt);
    var zDLt := p.GetCounts(NDLt);
    eq := Load(zEq, p.nCol, m, Counts(s, NEq));
    lt := Load(zLt, p.nCol, m, Counts(s, NLt));
    dlt := Load(zDLt, p.nCol, m, Counts(s, NDLt));
  }

  /** A sample with the columns of its row. */
  function Fetch(s: Sample, table: map<RowKey, Row>): Loaded
    requires s.rowid in table
  {
    Loaded(table[s.rowid], s.eq, s.lt, s.dlt)
  }

  /** The first n samples, without those whose row is not in the table. */
  function FetchAll(a: seq<Sample>, table: map<RowKey, Row>, n: nat): seq<Loaded>
    requires n <= |a|
  {
    if n == 0 then []
    else FetchAll(a, table, n - 1) + if a[n - 1].rowid in table then [Fetch(a[n - 1], table)] else []
  }

  /** The loop that stores the samples: a sample whose row is not found is passed over. */
  method ReadSamples(p: Stat4Accum, m: nat, table: map<RowKey, Row>) returns (xs: seq<Loaded>)
    requires p.Valid() && p.iGet == -1 && 0 < m <= COUNT_MODULUS && CountsWithin(Flush(p.View()).a, m - 1)
    modifies p, p.a, p.best
    ensures var a := Flush(old(p.View())).a; xs == FetchAll(a, table, |a|)
  {
    hide Flush, WellShaped;
    ghost var q := Flush(p.View());
    xs := [];
    var answer := p.GetRowid();
    while answer.Rowid?
      invariant p.Valid() && p.View() == q && 0 <= p.iGet <= p.nSample
      invariant answer == if p.iGet < p.nSample then Answer.Rowid(p.a[p.iGet].rowid) else Answer.None
      invariant xs == FetchAll(q.a, table, p.iGet)
      decreases p.nSample - p.iGet
    {
      assert p.a[p.iGet] == q.a[p.iGet];
      var eq, lt, dlt := ReadCounts(p, m);
      if answer.rowid in table { xs := xs + [Loaded(table[answer.rowid], eq, lt, dlt)]; }
      answer := p.GetRowid();
    }
  }

  // ----- The whole

  /** The estimates of stat1: rows per distinct prefix, rounded up. */
  ghost predicate RowsPerPrefix(e: seq<nat>, rows: seq<Row>, nCol: nat)
    requires SortedRows(rows, nCol) && |e| <= nCol
  {
    forall i :: 0 <= i < |e| ==>
      var d := |Prefixes(rows, nCol, i + 1, |rows|)|; (e[i] - 1) * d < |rows| <= e[i] * d
  }

  ghost predicate HasRow(xs: seq<Loaded>, r: nat) {
    exists k :: 0 <= k < |xs| && RowOf(AsSample(xs[k])) == r
  }

  /** The row a loaded sample was taken from, and the numbers of equal rows, smaller rows and distinct
      smaller prefixes for every prefix of it. */
  ghost predicate SampleOf(x: Loaded, rows: seq<Row>, nCol: nat)
    requires SortedRows(rows, nCol)
  {
    var s := AsSample(x);
    && RowOf(s) < |rows| && x.record == rows[RowOf(s)] && |s.eq| == nCol && |s.lt| == nCol && |s.dlt| == nCol
    && forall i :: 0 <= i < nCol ==> DescribesColumn(s, rows, nCol, i)
  }

  /** Some sample has the first i + 1 columns of row r. */
  ghost predicate PrefixSampled(xs: seq<Loaded>, rows: seq<Row>, i: nat, r: nat)
    requires r < |rows|
  {
    i < |rows[r]| && exists k :: 0 <= k < |xs| && rows[r][..i + 1] <= xs[k].record
  }

  /** The samples of an index: every one describes its row exactly, they are in row order and no more
      than there is room for, and every row at the period is among them; and as long as there is room, every
      value of every prefix that does not make its row unique is among them. */
  ghost predicate SamplesOf(xs: seq<Loaded>, rows: seq<Row>, nCol: nat, mxSample: nat)
    requires SortedRows(rows, nCol)
  {
    && |xs| <= mxSample
    && (forall k :: 0 <= k < |xs| ==> SampleOf(xs[k], rows, nCol))
    && (forall k, l :: 0 <= k < l < |xs| ==> RowOf(AsSample(xs[k])) < RowOf(AsSample(xs[l])))
    && (forall r :: 0 <= r < |rows| && IsPeriodic(r, |rows| / (mxSample / 3 + 1) + 1) ==> HasRow(xs, r))
    && (|xs| < mxSample ==>
          forall i, r :: 0 <= i < nCol - 1 && 0 <= r < |rows| ==> PrefixSampled(xs, rows, i, r))
  }

  /** The table holds the rows that the index lists, under their keys. */
  ghost predicate IndexOf(table: map<RowKey, Row>, rows: seq<Row>, rowids: seq<RowKey>)
    requires |rowids| == |rows|
  {
    forall t :: 0 <= t < |rows| ==> rowids[t] in table && table[rowids[t]] == rows[t]
  }

  lemma FetchedSample(s: Sample, table: map<RowKey, Row>, rows: seq<Row>, rowids: seq<RowKey>, nCol: nat)
    requires SortedRows(rows, nCol) && Describes(s, rows, rowids, nCol) && IndexOf(table, rows, rowids)
    ensures s.rowid in table && SampleOf(Fetch(s, table), rows, nCol)
    ensures RowOf(AsSample(Fetch(s, table))) == RowOf(s)
  {
    hide SortedRows, Equal, Smaller, SmallerPrefixes;
    var x := AsSample(Fetch(s, table));
    forall i | 0 <= i < nCol ensures DescribesColumn(x, rows, nCol, i) {
      assert DescribesColumn(s, rows, nCol, i);
    }
  }

  lemma RowLength(rows: seq<Row>, nCol: nat, r: nat)
    requires SortedRows(rows, nCol) && r < |rows|
    ensures |rows[r]| == nCol
  {
  }

  lemma {:induction false} FetchedAll(a: seq<Sample>, table: map<RowKey, Row>, n: nat)
    requires n <= |a| && forall k :: 0 <= k < n ==> a[k].rowid in table
    ensures |FetchAll(a, table, n)| == n
    ensures forall k :: 0 <= k < n ==> FetchAll(a, table, n)[k] == Fetch(a[k], table)
  {
    if n > 0 { FetchedAll(a, table, n - 1); }
  }

  /** The order and the periodic rows are those of the retained samples. */
  lemma RowsKept(a: seq<Sample>, xs: seq<Loaded>, n: nat, nPSample: nat)
    requires nPSample > 0 && |xs| == |a| && Ordered(a) && PeriodicOk(a, n, nPSample)
    requires forall k :: 0 <= k < |a| ==> RowOf(AsSample(xs[k])) == RowOf(a[k])
    ensures forall k, l :: 0 <= k < l < |xs| ==> RowOf(AsSample(xs[k])) < RowOf(AsSample(xs[l]))
    ensures forall r :: 0 <= r < n && IsPeriodic(r, nPSample) ==> HasRow(xs, r)
  {
    hide RowOf, AsSample, IsPeriodic;
    forall r | 0 <= r < n && IsPeriodic(r, nPSample) ensures HasRow(xs, r) {
      assert HasPeriodic(a, r);
      var k :| 0 <= k < |a| && a[k].periodic && RowOf(a[k]) == r;
      assert RowOf(AsSample(xs[k])) == r;
    }
  }

  /** Rows of one group agree on its columns. */
  lemma SameGroup(rows: seq<Row>, nCol: nat, i: nat, q: nat, r: nat)
    requires SortedRows(rows, nCol) && i < nCol && q < |rows| && r < |rows|
    requires Start(Changes(rows, nCol), i, q) == Start(Changes(rows, nCol), i, r)
    ensures rows[q][..i + 1] == rows[r][..i + 1]
  {
    hide Follows, Changes, Less, Diff;
    if q < r {
      SamePrefix(rows, nCol, i, q, r);
      PrefixDiff(rows[q], rows[r], i + 1);
    } else if r < q {
      SamePrefix(rows, nCol, i, r, q);
      PrefixDiff(rows[r], rows[q], i + 1);
    }
  }

  ghost predicate AllRepresented(a: seq<Sample>, ch: seq<nat>, nCol: nat) {
    forall i, r :: 0 <= i < nCol - 1 && 0 <= r < |ch| ==> Stat4Kept.Represented(a, ch, i, r)
  }

  /** A sample of every group is a row for every prefix. */
  lemma PrefixLoaded(a: seq<Sample>, xs: seq<Loaded>, nCol: nat, rows: seq<Row>, i: nat, r: nat)
    requires SortedRows(rows, nCol) && |xs| == |a| && i < nCol - 1 && r < |rows|
    requires Stat4Kept.Represented(a, Changes(rows, nCol), i, r)
    requires forall k :: 0 <= k < |a| ==> SampleOf(xs[k], rows, nCol) && RowOf(AsSample(xs[k])) == RowOf(a[k])
    ensures PrefixSampled(xs, rows, i, r)
  {
    var ch := Changes(rows, nCol);
    var k :| 0 <= k < |a| && Stat4Kept.InGroup(a[k], ch, i, r);
    hide SortedRows, Changes, DescribesColumn, RowOf, AsSample;
    RowLength(rows, nCol, r);
    SameGroup(rows, nCol, i, RowOf(a[k]), r);
    assert SampleOf(xs[k], rows, nCol);
    assert rows[r][..i + 1] <= xs[k].record;
  }

  /** Loading keeps all that is claimed of the samples. */
  lemma SamplesLoaded(a: seq<Sample>, table: map<RowKey, Row>, nCol: nat, mxSample: nat, rows: seq<Row>,
                      rowids: seq<RowKey>)
    requires SortedRows(rows, nCol) && |rowids| == |rows| && |a| <= mxSample && Ordered(a)
    requires PeriodicOk(a, |rows|, |rows| / (mxSample / 3 + 1) + 1)
    requires IndexOf(table, rows, rowids) && forall k :: 0 <= k < |a| ==> Describes(a[k], rows, rowids, nCol)
    requires |a| < mxSample ==> AllRepresented(a, Changes(rows, nCol), nCol)
    ensures SamplesOf(FetchAll(a, table, |a|), rows, nCol, mxSample)
  {
    hide SortedRows, Describes, IndexOf, SampleOf, IsPeriodic, FetchAll, Fetch, Ordered, PeriodicOk, RowOf, AsSample,
         HasRow, Changes, AllRepresented, PrefixSampled;
    forall k | 0 <= k < |a|
      ensures a[k].rowid in table && SampleOf(Fetch(a[k], table), rows, nCol)
      ensures RowOf(AsSample(Fetch(a[k], table))) == RowOf(a[k])
    {
      FetchedSample(a[k], table, rows, rowids, nCol);
    }
    FetchedAll(a, table, |a|);
    var xs := FetchAll(a, table, |a|);
    RowsKept(a, xs, |rows|, |rows| / (mxSample / 3 + 1) + 1);
    if |a| < mxSample {
      forall i, r | 0 <= i < nCol - 1 && 0 <= r < |rows| ensures PrefixSampled(xs, rows, i, r) {
        RepresentedAt(a, Changes(rows, nCol), nCol, i, r);
        PrefixLoaded(a, xs, nCol, rows, i, r);
      }
    }
  }

  lemma RepresentedAt(a: seq<Sample>, ch: seq<nat>, nCol: nat, i: nat, r: nat)
    requires AllRepresented(a, ch, nCol) && i < nCol - 1 && r < |ch|
    ensures Stat4Kept.Represented(a, ch, i, r)
  {
  }

  /** What the loader reads are the samples of the index. */
  lemma LoadedSamples(nCol: nat, mxSample: nat, seed: nat, table: map<RowKey, Row>, rows: seq<Row>,
                      rowids: seq<RowKey>)
    requires nCol > 0 && mxSample > 0 && SortedRows(rows, nCol) && |rowids| == |rows| > 0
    requires IndexOf(table, rows, rowids)
    ensures ValidRun(Changes(rows, nCol), nCol)
    ensures var q := Flush(Run(Init(nCol, |rows|, mxSample, seed), Changes(rows, nCol), rowids));
            SamplesOf(FetchAll(q.a, table, |q.a|), rows, nCol, mxSample) && CountsWithin(q.a, |rows|)
  {
    hide SortedRows, Changes, Run, Init, Flush, Exact, Describes, Counts, Ordered, PeriodicOk, SamplesOf, FetchAll,
         IndexOf;
    SamplesDescribe(nCol, |rows|, mxSample, seed, rows, rowids);
    FlushExact(nCol, |rows|, mxSample, seed, Changes(rows, nCol), rowids);
    InitPeriod(nCol, |rows|, mxSample, seed);
    var q := Flush(Run(Init(nCol, |rows|, mxSample, seed), Changes(rows, nCol), rowids));
    if |q.a| < mxSample {
      forall i, r | 0 <= i < nCol - 1 && 0 <= r < |rows|
        ensures Stat4Kept.Represented(q.a, Changes(rows, nCol), i, r)
      {
        Stat4Kept.FlushCovers(nCol, |rows|, mxSample, seed, Changes(rows, nCol), rowids, i, r);
      }
    }
    SamplesLoaded(q.a, table, nCol, mxSample, rows, rowids);
    forall k | 0 <= k < |q.a| ensures Within(q.a[k], |rows|) {
      ExactSmall(q.a[k], Changes(rows, nCol));
    }
  }

  /** Every estimate is that of its prefix, and fits in its place. */
  lemma GoodEstimates(nCol: nat, nKeyCol: nat, mxSample: nat, seed: nat, rows: seq<Row>, rowids: seq<RowKey>)
    requires 0 < nKeyCol <= nCol && mxSample > 0 && SortedRows(rows, nCol) && |rowids| == |rows| > 0
    ensures ValidRun(Changes(rows, nCol), nCol)
    ensures var p := Run(Init(nCol, |rows|, mxSample, seed), Changes(rows, nCol), rowids);
            && p.nRow == |rows| && |p.current.dlt| == nCol
            && var e := Estimates(p.nRow, p.current.dlt[..nKeyCol]);
            && RowsPerPrefix(e, rows, nCol)
            && forall i :: 0 <= i < nKeyCol ==> e[i] <= |rows|
  {
    hide SortedRows, Changes, Run, Init, UniqueKey, Prefixes, Estimate;
    Stat1Estimates(nCol, |rows|, mxSample, seed, rows, rowids, 0, 0);
    var p := Run(Init(nCol, |rows|, mxSample, seed), Changes(rows, nCol), rowids);
    forall i | 0 <= i < nKeyCol
      ensures var e, d := Estimate(|rows|, p.current.dlt[..nKeyCol][i]), |Prefixes(rows, nCol, i + 1, |rows|)|;
              e <= |rows| && (e - 1) * d < |rows| <= e * d
    {
      Stat1Estimates(nCol, |rows|, mxSample, seed, rows, rowids, i, i);
    }
  }

  /** ANALYZE of an index of distinct rows in index order, none of which agree on the columns tested and
      the next one: stat1 gets the number of rows and the rows per distinct prefix; what is loaded from
      stat4 are samples of the index with exact counts. `m` is the modulus of tRowcnt. An empty index
      leaves no statistics. */
  method Analyze(nCol: nat, nKeyCol: nat, nColTest: nat, unique: bool, nullValue: int, mxSample: nat, m: nat,
                 table: map<RowKey, Row>, rows: seq<Row>, rowids: seq<RowKey>)
    returns (stat1: string, ghost e: seq<nat>, xs: seq<Loaded>)
    requires 0 < nKeyCol <= nCol && mxSample > 0 && SortedRows(rows, nCol) && |rowids| == |rows| < m <= COUNT_MODULUS
    requires nColTest < nCol && UniqueKey(rows, nCol, nColTest + 1) && IndexOf(table, rows, rowids)
    requires unique ==> nColTest == 1 && UniqueButNull(rows, nCol, nullValue)
    ensures rows == [] ==> stat1 == "" && xs == []
    ensures rows != [] ==> |e| == nKeyCol && stat1 == Joined([|rows|] + e) && RowsPerPrefix(e, rows, nCol)
    ensures rows != [] ==> SamplesOf(xs, rows, nCol, mxSample)
  {
    hide SortedRows, Changes, Run, Init, Flush, UniqueKey, UniqueButNull, WellShaped, Estimates,
         RowsPerPrefix, SamplesOf, Joined, Counts, IndexOf, FetchAll;
    stat1, e, xs := "", [], [];
    if rows != [] {
      ghost var seed := Seed(nCol, |rows|);
      hide Seed;
      LoadedSamples(nCol, mxSample, seed, table, rows, rowids);
      GoodEstimates(nCol, nKeyCol, mxSample, seed, rows, rowids);
      var p := new Stat4Accum(nCol, nKeyCol, |rows|, mxSample);
      Scan(p, nColTest, unique, nullValue, rows, rowids);
      e := Estimates(p.nRow, p.current.dlt[..nKeyCol]);
      stat1 := p.GetStat1();
      xs := ReadSamples(p, m, table);
    }
  }
}
