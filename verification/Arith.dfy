/** Facts of nonlinear arithmetic that the solver needs one at a time. */
module Arith {

  lemma Distribute(a: int, b: int, c: int)
    ensures a * (b + c) == a * b + a * c
  {
  }

  lemma AtLeast(d: nat, k: nat)
    requires k >= 1
    ensures d * k >= d
  {
  }

  lemma Monotone(d: nat, x: int, y: int)
    requires x <= y
    ensures d * x <= d * y
  {
  }

  lemma Cancel(d: nat, x: int, y: int)
    requires d * x < d * y
    ensures x < y
  {
    if y <= x {
      Monotone(d, y, x);
      assert false;
    }
  }

  lemma DivUnique(v: nat, d: nat, q: nat, r: nat)
    requires d > 0 && v == d * q + r && r < d
    ensures v / d == q && v % d == r
  {
    var q', r' := v / d, v % d;
    assert v == d * q' + r';
    Distribute(d, q, q' - q);
    assert d * (q' - q) == r - r';
    if q' > q {
      AtLeast(d, q' - q);
      assert false;
    } else if q' < q {
      AtLeast(d, q - q');
      Distribute(d, q' - q, q - q');
      assert false;
    }
  }
}
