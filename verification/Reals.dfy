/** Quotients of real numbers. */
module Reals {

  lemma Divided(a: real, m: real)
    requires m > 0.0
    ensures (a / m) * m == a
  {
  }

  lemma Scaled(a: real, b: real, m: real)
    requires m > 0.0
    ensures a <= b <==> a * m <= b * m
    ensures a == b <==> a * m == b * m
  {
    var d := b - a;
    assert d * m == b * m - a * m;
    if d > 0.0 {
      assert d * m > 0.0;
    } else if d < 0.0 {
      assert (-d) * m > 0.0;
    }
  }

  lemma DivideOrder(a: real, b: real, k: real)
    requires a <= b && k > 0.0
    ensures a / k <= b / k
  {
    assert b / k - a / k == (b - a) / k;
  }

  /** A larger divisor gives a smaller quotient. */
  lemma DivideLess(e: real, a: real, b: real)
    requires e >= 0.0 && a > 0.0 && b > 0.0
    ensures a <= b ==> e / b <= e / a
    ensures a < b && e > 0.0 ==> e / b < e / a
  {
    var x, y := e / a, e / b;
    Divided(e, a);
    Divided(e, b);
    Scaled(y, x, b);
    Scaled(0.0, x, a);
    assert x * b - y * b == x * (b - a);
    if a < b && e > 0.0 {
      assert x > 0.0;
      assert x * (b - a) > 0.0;
    }
  }

  lemma CastProduct(n: nat, q: nat)
    ensures (n * q) as real == n as real * q as real
  {
  }
}
