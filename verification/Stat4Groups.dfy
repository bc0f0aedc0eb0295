/** A sorted index seen through its changed columns: row t > 0 differs from row t - 1 first in column
    ch[t]. The rows that share their first i + 1 columns with row r form a group of column i. */
module Stat4Groups {

  /** The first row of the group of column i that row r is in. */
  function Start(ch: seq<nat>, i: nat, r: nat): (s: nat)
    requires r < |ch|
    ensures s <= r
  {
    if r == 0 || ch[r] <= i then r else Start(ch, i, r - 1)
  }

  /** The row behind that group, among the first n rows. */
  function End(ch: seq<nat>, i: nat, r: nat, n: nat): (e: nat)
    requires r < n <= |ch|
    ensures r < e <= n
    decreases n - r
  {
    if r + 1 == n || ch[r + 1] <= i then r + 1 else End(ch, i, r + 1, n)
  }

  /** The number of groups of column i before that of row r. */
  function Groups(ch: seq<nat>, i: nat, r: nat): nat
    requires r < |ch|
  {
    if r == 0 then 0 else Groups(ch, i, r - 1) + if ch[r] <= i then 1 else 0
  }

  /** The size of the group among the first n rows. */
  function Size(ch: seq<nat>, i: nat, r: nat, n: nat): (z: nat)
    requires r < n <= |ch|
    ensures z > 0
  {
    End(ch, i, r, n) - Start(ch, i, r)
  }

  lemma {:induction false} StartNested(ch: seq<nat>, i: nat, j: nat, r: nat)
    requires i <= j && r < |ch|
    ensures Start(ch, i, r) <= Start(ch, j, r)
  {
    if r > 0 && ch[r] > j { StartNested(ch, i, j, r - 1); }
  }

  /** Rows of one group have one start, rows of different groups different ones. */
  lemma {:induction false} StartShared(ch: seq<nat>, i: nat, q: nat, r: nat)
    requires q <= r < |ch|
    ensures Start(ch, i, r) <= q ==> Start(ch, i, q) == Start(ch, i, r)
    ensures Start(ch, i, q) <= Start(ch, i, r)
  {
    if q < r && ch[r] > i { StartShared(ch, i, q, r - 1); }
  }

  /** A change of column i or less behind r ends its group. */
  lemma {:induction false} StartAfter(ch: seq<nat>, i: nat, t: nat, r: nat)
    requires 0 < t <= r < |ch| && ch[t] <= i
    ensures Start(ch, i, r) >= t
  {
    if t < r && ch[r] > i { StartAfter(ch, i, t, r - 1); }
  }

  /** The group of the last row has no end yet. */
  lemma {:induction false} EndOpen(ch: seq<nat>, i: nat, r: nat, n: nat)
    requires r < n <= |ch|
    ensures Start(ch, i, n - 1) <= r ==> End(ch, i, r, n) == n
    ensures Start(ch, i, n - 1) > r ==> End(ch, i, r, n) <= Start(ch, i, n - 1)
    decreases n - r
  {
    if r + 1 < n {
      if ch[r + 1] <= i {
        StartAfter(ch, i, r + 1, n - 1);
      } else {
        EndOpen(ch, i, r + 1, n);
        StartNotAt(ch, i, r + 1, n - 1);
      }
    }
  }

  lemma {:induction false} StartNotAt(ch: seq<nat>, i: nat, t: nat, r: nat)
    requires 0 < t <= r < |ch| && ch[t] > i
    ensures Start(ch, i, r) != t
  {
    if t < r && ch[r] > i { StartNotAt(ch, i, t, r - 1); }
  }

  /** A group that has ended keeps its end when rows are added. */
  lemma {:induction false} EndStable(ch: seq<nat>, i: nat, r: nat, n: nat)
    requires r < n < |ch|
    requires Start(ch, i, n - 1) > r
    ensures End(ch, i, r, n + 1) == End(ch, i, r, n)
    decreases n - r
  {
    if r + 1 < n && ch[r + 1] > i {
      StartNotAt(ch, i, r + 1, n - 1);
      EndStable(ch, i, r + 1, n);
    }
  }

  /** The next row ends the group of the last one when it changes column i or less, and joins it
      otherwise. */
  lemma {:induction false} EndNow(ch: seq<nat>, i: nat, r: nat, n: nat)
    requires r < n < |ch| && Start(ch, i, n - 1) <= r && ch[n] <= i
    ensures End(ch, i, r, n + 1) == n
    decreases n - r
  {
    if r + 1 < n {
      if ch[r + 1] <= i { StartAfter(ch, i, r + 1, n - 1); }
      EndNow(ch, i, r + 1, n);
    }
  }
}
