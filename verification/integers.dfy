/** Integer facts shared by the interpreter's decoder, the line-of-sight
    geometry and the painting robot's grid. */
module Integers {

  /** A grid point (x, y); on both puzzle grids y grows downwards. */
  type Point = (int, int)

  function Abs(x: int): nat
  {
    if x < 0 then -x else x
  }

  lemma MulLeft(d: nat, a: int, b: int)
    requires a <= b
    ensures d * a <= d * b
  {
    var k := b - a;
    assert d * b == d * a + d * k;
  }

  /** Quotient and remainder are determined by `n == d * q + r` with
      `0 <= r < d`. */
  lemma DivisionUnique(n: int, d: int, q: int, r: int)
    requires d > 0 && n == d * q + r && 0 <= r < d
    ensures n / d == q && n % d == r
  {
    var q', r' := n / d, n % d;
    assert n == d * q' + r' && 0 <= r' < d;
    if q' > q {
      MulLeft(d, q + 1, q');
      assert false;
    } else if q' < q {
      MulLeft(d, q' + 1, q);
      assert false;
    }
  }
}
