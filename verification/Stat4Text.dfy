/** The text form of the statistics: the list of counts that stat_get prints and decodeIntArray reads. */
module Stat4Text {
  import opened Arith

  /** The printf conversion %llu. */
  function Decimal(v: nat): (s: string)
    ensures |s| > 0 && forall k :: 0 <= k < |s| ==> IsDigit(s[k])
  {
    if v < 10 then [Digit(v)] else Decimal(v / 10) + [Digit(v % 10)]
  }

  function Digit(d: nat): (c: char)
    requires d < 10
    ensures IsDigit(c)
  {
    ('0' as int + d) as char
  }

  predicate IsDigit(c: char) { '0' <= c <= '9' }

  function Pow10(k: nat): (p: nat)
    ensures p > 0
  {
    if k == 0 then 1 else 10 * Pow10(k - 1)
  }

  lemma {:induction false} DecimalLength(v: nat, k: nat)
    requires k > 0 && v < Pow10(k)
    ensures |Decimal(v)| <= k
  {
    if v >= 10 { DecimalLength(v / 10, k - 1); }
  }

  /** A number per count, a space between two numbers. */
  function Joined(counts: seq<nat>): string {
    if |counts| == 0 then ""
    else if |counts| == 1 then Decimal(counts[0])
    else Decimal(counts[0]) + " " + Joined(counts[1..])
  }

  /** The form of a list, for instance that of stat1. */
  lemma JoinedForm()
    ensures Joined([1000, 25, 7]) == "1000 25 7"
  {
    assert Decimal(1000) == "1000" by {
      assert Decimal(1) == "1" && Decimal(10) == "10" && Decimal(100) == "100";
    }
    assert Decimal(25) == "25" by { assert Decimal(2) == "2"; }
    assert Decimal(7) == "7";
    assert [1000, 25, 7][1..] == [25, 7] && [25, 7][1..] == [7];
    assert Joined([7]) == "7";
    assert Joined([25, 7]) == "25 7";
  }

  /** snprintf into a buffer of `size` bytes, the terminating zero included. */
  function Snprintf(s: string, size: nat): string
    requires size > 0
  {
    if |s| < size then s else s[..size - 1]
  }

  const COUNT_MODULUS: nat := 0x1_0000_0000_0000_0000

  /** No 64-bit count is cut off by the 24 bytes that stat_get allows it. */
  lemma NumberFits(v: nat)
    requires v < COUNT_MODULUS
    ensures Snprintf(Decimal(v) + " ", 24) == Decimal(v) + " "
    ensures Snprintf(" " + Decimal(v), 24) == " " + Decimal(v)
    ensures Snprintf(Decimal(v), 24) == Decimal(v)
  {
    assert Pow10(5) == 100000;
    assert Pow10(10) == 10000000000;
    assert Pow10(15) == 1000000000000000;
    assert Pow10(20) == 100000000000000000000;
    DecimalLength(v, 20);
  }

  lemma {:induction false} JoinedSnoc(counts: seq<nat>, v: nat)
    requires |counts| > 0
    ensures Joined(counts + [v]) == Joined(counts) + " " + Decimal(v)
  {
    var all := counts + [v];
    if |counts| == 1 {
      assert all[1..] == [v];
    } else {
      assert all[1..] == counts[1..] + [v];
      JoinedSnoc(counts[1..], v);
    }
  }

  /** The neq, nlt and ndlt texts of stat_get: every number is followed by a space, and the last
      space is overwritten by the terminating zero. */
  method PrintCounts(aCnt: seq<nat>) returns (zRet: string)
    requires |aCnt| > 0 && forall i :: 0 <= i < |aCnt| ==> aCnt[i] < COUNT_MODULUS
    ensures zRet == Joined(aCnt)
  {
    zRet := "";
    var i := 0;
    while i < |aCnt|
      invariant 0 <= i <= |aCnt|
      invariant zRet == if i == 0 then "" else Joined(aCnt[..i]) + " "
    {
      NumberFits(aCnt[i]);
      if i > 0 { JoinedSnoc(aCnt[..i], aCnt[i]); }
      assert aCnt[..i + 1] == aCnt[..i] + [aCnt[i]];
      zRet := zRet + Snprintf(Decimal(aCnt[i]) + " ", 24);
      i := i + 1;
    }
    assert aCnt[..i] == aCnt;
    zRet := zRet[..|zRet| - 1];
  }

  // ----- Reading

  /** The digits at the front of z, read on top of v; counts wrap around at m. */
  function ReadNumber(z: string, v: nat, m: nat): (r: (nat, string))
    requires m > 0
    ensures |r.1| <= |z|
    decreases |z|
  {
    if z == "" || !IsDigit(z[0]) then (v, z)
    else ReadNumber(z[1..], (v * 10 + (z[0] as int - '0' as int)) % m, m)
  }

  /** decodeIntArray: the numbers that fill the first slots of the array. */
  function Numbers(z: string, nOut: nat, m: nat): (r: seq<nat>)
    requires m > 0
    ensures |r| <= nOut
    decreases nOut
  {
    if z == "" || nOut == 0 then []
    else
      var (v, rest) := ReadNumber(z, 0, m);
      [v] + Numbers(SkipSpace(rest), nOut - 1, m)
  }

  function SkipSpace(z: string): string {
    if z != "" && z[0] == ' ' then z[1..] else z
  }

  lemma {:induction false} ReadDecimal(v: nat, rest: string, m: nat)
    requires v < m
    ensures ReadNumber(Decimal(v) + rest, 0, m) == ReadNumber(rest, v, m)
  {
    if v < 10 {
      ReadDigit(0, v, rest, m);
      assert Decimal(v) == [Digit(v)];
    } else {
      var w, d := v / 10, v % 10;
      var more := [Digit(d)] + rest;
      assert Decimal(v) + rest == Decimal(w) + more;
      ReadDecimal(w, more, m);
      ReadDigit(w, d, rest, m);
    }
  }

  lemma ReadDigit(w: nat, d: nat, rest: string, m: nat)
    requires d < 10 && w * 10 + d < m
    ensures ReadNumber([Digit(d)] + rest, w, m) == ReadNumber(rest, w * 10 + d, m)
  {
    var z := [Digit(d)] + rest;
    assert z[1..] == rest && z[0] as int - '0' as int == d;
    SmallMod(w * 10 + d, m);
  }

  lemma SmallMod(v: nat, m: nat)
    requires v < m
    ensures v % m == v
  {
    DivUnique(v, m, 0, v);
  }

  /** decodeIntArray reads back what stat_get printed. */
  lemma {:induction false} CountsRoundTrip(counts: seq<nat>, m: nat)
    requires m > 0 && forall i :: 0 <= i < |counts| ==> counts[i] < m
    ensures Numbers(Joined(counts), |counts|, m) == counts
  {
    if |counts| == 1 {
      ReadDecimal(counts[0], "", m);
      assert Decimal(counts[0]) + "" == Decimal(counts[0]);
    } else if |counts| > 1 {
      var rest := " " + Joined(counts[1..]);
      assert Joined(counts) == Decimal(counts[0]) + rest;
      ReadDecimal(counts[0], rest, m);
      CountsRoundTrip(counts[1..], m);
      assert SkipSpace(rest) == Joined(counts[1..]);
    }
  }

  /** The inner loop of decodeIntArray. */
  method ReadOne(z: string, m: nat) returns (v: nat, rest: string)
    requires m > 0
    ensures (v, rest) == ReadNumber(z, 0, m)
  {
    v, rest := 0, z;
    while rest != "" && IsDigit(rest[0])
      invariant ReadNumber(rest, v, m) == ReadNumber(z, 0, m)
      decreases |rest|
    {
      v := (v * 10 + (rest[0] as int - '0' as int)) % m;
      rest := rest[1..];
    }
  }

  lemma Regroup(x: seq<nat>, v: nat, y: seq<nat>)
    ensures x + ([v] + y) == (x + [v]) + y
  {
  }

  /** The loop of decodeIntArray for the slots of aOut. */
  method DecodeIntArray(zIntArray: string, m: nat, aOut: array<nat>)
    requires m > 0
    modifies aOut
    ensures var r := Numbers(zIntArray, aOut.Length, m);
            aOut[..] == r + old(aOut[..])[|r|..]
  {
    hide ReadNumber;
    var z, i := zIntArray, 0;
    while z != "" && i < aOut.Length
      invariant 0 <= i <= aOut.Length
      invariant i <= |Numbers(zIntArray, aOut.Length, m)|
      invariant Numbers(zIntArray, aOut.Length, m) == aOut[..i] + Numbers(z, aOut.Length - i, m)
      invariant aOut[i..] == old(aOut[..])[i..]
      decreases aOut.Length - i
    {
      ghost var done := aOut[..i];
      var v, rest := ReadOne(z, m);
      z := SkipSpace(rest);
      aOut[i] := v;
      Regroup(done, v, Numbers(z, aOut.Length - i - 1, m));
      assert aOut[..i + 1] == done + [v];
      i := i + 1;
    }
  }
}
