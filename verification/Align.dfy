/** Rounding to multiples of a unit, as the block device layer does everywhere. */
module Align {

  lemma MulAtLeast(d: nat, k: nat)
    requires k >= 1
    ensures d * k >= d
  {
  }

  lemma MulDistributes(d: int, x: int, y: int)
    ensures d * (x - y) == d * x - d * y
  {
  }

  lemma DivModUnique(x: nat, d: nat, q: nat, r: nat)
    requires d > 0 && r < d && x == d * q + r
    ensures x / d == q && x % d == r
  {
    var q', r' := x / d, x % d;
    assert x == d * q' + r';
    if q < q' {
      MulDistributes(d, q', q);
      MulAtLeast(d, q' - q);
      assert false;
    } else if q' < q {
      MulDistributes(d, q, q');
      MulAtLeast(d, q - q');
      assert false;
    }
  }

  lemma Multiple(d: nat, q: nat)
    requires d > 0
    ensures d * q % d == 0 && d * q / d == q
  {
    DivModUnique(d * q, d, q, 0);
  }

  function AlignDown(a: nat, unit: nat): (r: nat)
    requires unit > 0
    ensures r <= a < r + unit && r % unit == 0
  {
    Multiple(unit, a / unit);
    a - a % unit
  }

  function AlignUp(a: nat, unit: nat): (r: nat)
    requires unit > 0
    ensures a <= r < a + unit && r % unit == 0
  {
    AlignDown(a + unit - 1, unit)
  }

  /** Two multiples of a unit differ by at least the unit. */
  lemma MultiplesApart(x: nat, y: nat, unit: nat)
    requires unit > 0 && x % unit == 0 && y % unit == 0 && x < y
    ensures x + unit <= y
  {
    var i, j := x / unit, y / unit;
    assert x == unit * i && y == unit * j;
    MulDistributes(unit, j, i);
    MulAtLeast(unit, j - i);
  }

  /** Aligning up stays within anything aligned. */
  lemma AlignUpWithin(a: nat, unit: nat, limit: nat)
    requires unit > 0 && a <= limit && limit % unit == 0
    ensures AlignUp(a, unit) <= limit
  {
    if limit < AlignUp(a, unit) {
      MultiplesApart(limit, AlignUp(a, unit), unit);
      assert false;
    }
  }
}
