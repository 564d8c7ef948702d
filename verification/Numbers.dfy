/** The lesser and the greater of two integers, and the order of products and quotients. */
module Numbers {

  function Min(a: int, b: int): int {
    if a <= b then a else b
  }

  function Max(a: int, b: int): int {
    if a >= b then a else b
  }

  /** Multiplying by a positive number keeps the order. */
  lemma Scaled(n: real, a: real, b: real)
    requires n > 0.0
    ensures n * a < n * b <==> a < b
    ensures n * a <= n * b <==> a <= b
  {
  }

  /** Comparing a quotient is comparing products. */
  lemma QuotientOrder(a: real, b: real, c: real)
    requires b > 0.0
    ensures a / b <= c <==> a <= b * c
    ensures a / b < c <==> a < b * c
  {
    var r := a / b;
    assert a == b * r;
    Scaled(b, r, c);
  }
}
