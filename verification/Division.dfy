/** Products and quotients of unbounded integers. */
module Division {

  lemma ProductMonotone(a: int, b: int, d: int)
    requires a <= b && d >= 0
    ensures a * d <= b * d
  {
    assert (b - a) * d >= 0;
  }

  lemma MultipleApart(k: int, d: int)
    requires k != 0 && d > 0
    ensures k * d >= d || k * d <= -d
  {
    if k > 0 {
      ProductMonotone(1, k, d);
    } else {
      ProductMonotone(k, -1, d);
    }
  }

  lemma DivModUnique(x: int, d: int, q: int, r: int)
    requires d > 0 && 0 <= r < d && x == q * d + r
    ensures x / d == q && x % d == r
  {
    var k := q - x / d;
    assert x == (x / d) * d + x % d;
    assert k * d == x % d - r by { assert k * d == q * d - (x / d) * d; }
    if k != 0 {
      MultipleApart(k, d);
      assert false;
    }
  }

  lemma StrictProduct(a: int, b: int, d: int)
    requires a < b && d > 0
    ensures a * d < b * d
  {
    assert (b - a) * d > 0;
  }
}
