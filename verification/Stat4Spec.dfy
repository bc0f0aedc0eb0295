/** The STAT4 accumulator of analyze.c as functions on values: what stat_push and the flush before
    stat_get do to the counters, the candidates and the retained samples. */
module Stat4Spec {

  /** The key of a row: its rowid, or the record of its primary key. */
  datatype RowKey = IntegerKey(i: int) | BlobKey(data: seq<int>)

  /** A Stat4Sample: counts per column prefix, the row it stands for, and why it was chosen. */
  datatype Sample = Sample(eq: seq<nat>, lt: seq<nat>, dlt: seq<nat>, rowid: RowKey,
                           periodic: bool, col: nat, hash: nat)

  /** A Stat4Accum; `a` holds the nSample retained samples. */
  datatype Accum = Accum(nRow: nat, nPSample: nat, nCol: nat, mxSample: nat, current: Sample, prn: nat,
                         best: seq<Sample>, a: seq<Sample>, iMin: nat, nMaxEqZero: nat)

  const PRN_MODULUS: nat := 0x1_0000_0000

  predicate Shaped(s: Sample, nCol: nat) {
    |s.eq| == nCol && |s.lt| == nCol && |s.dlt| == nCol && s.col < nCol
  }

  /** The sizes of all arrays. */
  predicate WellShaped(p: Accum) {
    && p.nCol > 0 && p.nPSample > 0 && p.mxSample > 0
    && Shaped(p.current, p.nCol)
    && |p.best| == p.nCol
    && (forall i :: 0 <= i < |p.best| ==> Shaped(p.best[i], p.nCol) && p.best[i].col == i)
    && (forall k :: 0 <= k < |p.a| ==> Shaped(p.a[k], p.nCol))
    && |p.a| <= p.mxSample
    && (|p.a| == p.mxSample ==> p.iMin < |p.a|)
    && p.nMaxEqZero <= p.nCol
  }

  /** The seed of the pseudo-random sequence: 32-bit products of the arguments of stat_init. */
  function Seed(nCol: nat, c: nat): (seed: nat)
    ensures seed < PRN_MODULUS
  {
    var x := (0x689e962d * nCol % PRN_MODULUS) as bv32;
    var y := (0xd0944565 * c % PRN_MODULUS) as bv32;
    (x ^ y) as nat
  }

  /** statInit: all counters zero; `c` is the number of rows of the index. */
  function Init(nCol: nat, c: nat, mxSample: nat, seed: nat): (p: Accum)
    requires nCol > 0 && mxSample > 0
    ensures WellShaped(p)
  {
    var zeros := seq(nCol, _ => 0);
    Accum(0, c / (mxSample / 3 + 1) + 1, nCol, mxSample, Sample(zeros, zeros, zeros, IntegerKey(0), false, 0, 0), seed,
          seq(nCol, i requires 0 <= i => if i < nCol then Sample(zeros, zeros, zeros, IntegerKey(0), false, i, 0)
                                          else Sample(zeros, zeros, zeros, IntegerKey(0), false, 0, 0)),
          [], 0, 0)
  }

  /** Lexicographic comparison of the counts from column j on, then of the hashes. */
  predicate BetterFrom(x: Sample, y: Sample, nCol: nat, j: nat)
    requires Shaped(x, nCol) && Shaped(y, nCol) && j <= nCol
    decreases nCol - j
  {
    if j == nCol then x.hash > y.hash
    else x.eq[j] > y.eq[j] || (x.eq[j] == y.eq[j] && BetterFrom(x, y, nCol, j + 1))
  }

  /** sampleIsBetterPost */
  predicate BetterPost(x: Sample, y: Sample, nCol: nat)
    requires Shaped(x, nCol) && Shaped(y, nCol)
  {
    BetterFrom(x, y, nCol, x.col + 1)
  }

  /** sampleIsBetter: more rows in the selected prefix, then a shorter prefix, then the rest. */
  predicate Better(x: Sample, y: Sample, nCol: nat)
    requires Shaped(x, nCol) && Shaped(y, nCol)
  {
    || x.eq[x.col] > y.eq[y.col]
    || (x.eq[x.col] == y.eq[y.col] && (x.col < y.col || (x.col == y.col && BetterPost(x, y, nCol))))
  }

  // ----- sampleInsert

  datatype Scan = Blocked | Upgrade(k: nat) | Absent

  /** The search, from the last sample down, for samples that share the prefix of the new one: their
      count for its column is still unknown. A periodic one makes the new sample superfluous. */
  function Sharing(a: seq<Sample>, nCol: nat, col: nat, n: nat, found: Scan): (r: Scan)
    requires n <= |a| && col < nCol && !found.Blocked?
    requires forall k :: 0 <= k < |a| ==> Shaped(a[k], nCol)
    requires found.Upgrade? ==> n <= found.k < |a|
    ensures r.Upgrade? ==> r.k < |a|
    decreases n
  {
    if n == 0 then found
    else
      var s := a[n - 1];
      assert Shaped(s, nCol);
      if s.eq[col] != 0 then Sharing(a, nCol, col, n - 1, found)
      else if s.periodic then Blocked
      else if found.Absent? || Better(s, a[found.k], nCol) then Sharing(a, nCol, col, n - 1, Upgrade(n - 1))
      else Sharing(a, nCol, col, n - 1, found)
  }

  /** find_new_min over the first n samples. */
  function MinOf(a: seq<Sample>, nCol: nat, n: nat): (r: int)
    requires n <= |a| && forall k :: 0 <= k < |a| ==> Shaped(a[k], nCol)
    ensures -1 <= r < n
  {
    if n == 0 then -1
    else
      var m := MinOf(a, nCol, n - 1);
      if a[n - 1].periodic then m
      else if m < 0 || Better(a[m], a[n - 1], nCol) then n - 1
      else m
  }

  function WithMin(p: Accum): Accum
    requires p.nCol > 0 && forall k :: 0 <= k < |p.a| ==> Shaped(p.a[k], p.nCol)
  {
    if |p.a| >= p.mxSample then
      var m := MinOf(p.a, p.nCol, |p.a|);
      p.(iMin := if m < 0 then 0 else m)
    else p
  }

  /** The first n counts of a sample set to zero, to be filled in later. */
  function ZeroFront(s: Sample, n: nat): (r: Sample)
    requires n <= |s.eq|
    ensures |r.eq| == |s.eq|
  {
    s.(eq := seq(|s.eq|, j requires 0 <= j < |s.eq| => if j < n then 0 else s.eq[j]))
  }

  function RemoveAt(a: seq<Sample>, k: nat): seq<Sample>
    requires k < |a|
  {
    a[..k] + a[k + 1..]
  }

  function Max(x: nat, y: nat): nat { if x > y then x else y }

  /** sampleInsert */
  function Insert(p: Accum, s: Sample, nEqZero: nat): (r: Accum)
    requires WellShaped(p) && Shaped(s, p.nCol) && nEqZero <= p.nCol
    ensures r.nCol == p.nCol && r.nPSample == p.nPSample && r.mxSample == p.mxSample && r.nRow == p.nRow
    ensures r.current == p.current && r.best == p.best && r.prn == p.prn
    ensures WellShaped(r)
  {
    var p1 := p.(nMaxEqZero := Max(p.nMaxEqZero, nEqZero));
    var share := if s.periodic then Absent else Sharing(p.a, p.nCol, s.col, |p.a|, Absent);
    match share
    case Blocked => p1
    case Upgrade(k) =>
      var u := p.a[k].(col := s.col, eq := p.a[k].eq[s.col := s.eq[s.col]]);
      WithMin(p1.(a := p.a[k := u]))
    case Absent =>
      var a := if |p.a| >= p.mxSample then RemoveAt(p.a, p.iMin) else p.a;
      WithMin(p1.(a := a + [ZeroFront(s, nEqZero)]))
  }

  // ----- samplePushPrevious

  /** Column i of the previous row ends a group: its candidate gets its count and is inserted when
      there is room for it or it is preferred over the least preferred sample. */
  function CloseColumn(p: Accum, i: nat): (r: Accum)
    requires WellShaped(p) && i < p.nCol
    ensures WellShaped(r)
    ensures r.nCol == p.nCol && r.nPSample == p.nPSample && r.mxSample == p.mxSample && r.nRow == p.nRow
    ensures r.current == p.current && r.prn == p.prn
  {
    var b := p.best[i].(eq := p.best[i].eq[i := p.current.eq[i]]);
    var p1 := p.(best := p.best[i := b]);
    if |p.a| < p.mxSample || Better(b, p.a[p.iMin], p.nCol) then Insert(p1, b, i) else p1
  }

  /** Columns n - 1 down to chng. */
  function CloseColumns(p: Accum, chng: nat, n: nat): (r: Accum)
    requires WellShaped(p) && n <= p.nCol
    ensures WellShaped(r)
    ensures r.nCol == p.nCol && r.nPSample == p.nPSample && r.mxSample == p.mxSample && r.nRow == p.nRow
    ensures r.current == p.current && r.prn == p.prn
    decreases n
  {
    if n <= chng then p else CloseColumns(CloseColumn(p, n - 1), chng, n - 1)
  }

  /** The unknown counts from column chng on are those of the group that ends now. */
  function Patch(s: Sample, current: Sample, chng: nat): (r: Sample)
    requires |current.eq| == |s.eq|
    ensures |r.eq| == |s.eq|
  {
    s.(eq := seq(|s.eq|, j requires 0 <= j < |s.eq| => if chng <= j && s.eq[j] == 0 then current.eq[j] else s.eq[j]))
  }

  function PatchAll(a: seq<Sample>, current: Sample, chng: nat): (r: seq<Sample>)
    requires forall k :: 0 <= k < |a| ==> |a[k].eq| == |current.eq|
    ensures |r| == |a|
  {
    seq(|a|, k requires 0 <= k < |a| => Patch(a[k], current, chng))
  }

  /** samplePushPrevious */
  function PushPrevious(p: Accum, chng: nat): (r: Accum)
    requires WellShaped(p) && chng < p.nCol
    ensures WellShaped(r)
    ensures r.nCol == p.nCol && r.nPSample == p.nPSample && r.mxSample == p.mxSample && r.nRow == p.nRow
    ensures r.current == p.current && r.prn == p.prn
  {
    var p1 := CloseColumns(p, chng, p.nCol - 1);
    if chng < p1.nMaxEqZero then p1.(a := PatchAll(p1.a, p1.current, chng), nMaxEqZero := chng) else p1
  }

  // ----- statPush

  /** The counters for the first row, or for a row that differs from its predecessor first in
      column chng. */
  function Advance(c: Sample, chng: nat, first: bool): (r: Sample)
    requires |c.lt| == |c.eq| && |c.dlt| == |c.eq|
    ensures |r.eq| == |c.eq| && |r.lt| == |c.eq| && |r.dlt| == |c.eq| && r.col == c.col
  {
    var n := |c.eq|;
    if first then c.(eq := seq(n, _ => 1))
    else
      c.(eq := seq(n, i requires 0 <= i < n => if i < chng then c.eq[i] + 1 else 1),
         lt := seq(n, i requires 0 <= i < n => if i < chng then c.lt[i] else c.lt[i] + c.eq[i]),
         dlt := seq(n, i requires 0 <= i < n => if i < chng then c.dlt[i] else c.dlt[i] + 1))
  }

  /** Whether the row after `lt` others is a periodic sample. */
  predicate IsPeriodic(lt: nat, nPSample: nat)
    requires nPSample > 0
  {
    lt / nPSample != (lt + 1) / nPSample
  }

  /** The candidate of column i after the current row: a new group starts with the row itself. */
  function Candidate(p: Accum, chng: nat, i: nat): (r: Sample)
    requires WellShaped(p) && i < p.nCol
    ensures Shaped(r, p.nCol) && r.col == i
  {
    var c := p.current.(col := i);
    if chng <= i || BetterPost(c, p.best[i], p.nCol) then c else p.best[i]
  }

  function NextPrn(prn: nat): nat { (prn * 1103515245 + 12345) % PRN_MODULUS }

  /** The counters and identity of the new row, before it is considered as a sample. */
  function Arrive(p: Accum, chng: nat, rowid: RowKey): (r: Accum)
    requires WellShaped(p) && chng < p.nCol
    ensures WellShaped(r)
    ensures r.nCol == p.nCol && r.nPSample == p.nPSample && r.mxSample == p.mxSample
  {
    var p1 := if p.nRow == 0 then p else PushPrevious(p, chng);
    var c := Advance(p1.current, chng, p.nRow == 0);
    var prn := NextPrn(p.prn);
    p1.(nRow := p.nRow + 1, prn := prn, current := c.(rowid := rowid, hash := prn))
  }

  /** The periodic sample, if the current row is one. */
  function Periodic(p: Accum): (r: Accum)
    requires WellShaped(p)
    ensures WellShaped(r)
    ensures r.nCol == p.nCol && r.nPSample == p.nPSample && r.mxSample == p.mxSample && r.nRow == p.nRow
    ensures r.best == p.best
  {
    if IsPeriodic(p.current.lt[p.nCol - 1], p.nPSample) then
      var c := p.current.(periodic := true, col := 0);
      Insert(p.(current := c), c, p.nCol - 1).(current := c.(periodic := false))
    else p
  }

  /** The candidates after the current row. The candidate of the last column is never used. */
  function Select(p: Accum, chng: nat): (r: Accum)
    requires WellShaped(p)
    ensures WellShaped(r)
  {
    p.(best := seq(p.nCol, i requires 0 <= i < p.nCol =>
         if i < p.nCol - 1 then Candidate(p, chng, i) else p.best[i]),
       current := p.current.(col := if p.nCol >= 2 then p.nCol - 2 else p.current.col))
  }

  /** statPush */
  function Push(p: Accum, chng: nat, rowid: RowKey): (r: Accum)
    requires WellShaped(p) && chng < p.nCol
    ensures WellShaped(r)
    ensures r.nCol == p.nCol && r.nPSample == p.nPSample && r.mxSample == p.mxSample && r.nRow == p.nRow + 1
  {
    Select(Periodic(Arrive(p, chng, rowid)), chng)
  }

  /** A run: one row after the other, each with its first changed column. */
  function Run(p: Accum, chngs: seq<nat>, rowids: seq<RowKey>): (r: Accum)
    requires WellShaped(p) && |rowids| == |chngs|
    requires forall t :: 0 <= t < |chngs| ==> chngs[t] < p.nCol
    ensures WellShaped(r) && r.nCol == p.nCol && r.nPSample == p.nPSample && r.mxSample == p.mxSample
  {
    if chngs == [] then p
    else
      var n := |chngs| - 1;
      Push(Run(p, chngs[..n], rowids[..n]), chngs[n], rowids[n])
  }

  /** The state that stat_get reads: the last row's groups are closed first. */
  function Flush(p: Accum): (r: Accum)
    requires WellShaped(p)
    ensures WellShaped(r) && r.nCol == p.nCol && r.mxSample == p.mxSample && r.nRow == p.nRow
  {
    PushPrevious(p, 0)
  }
}
