/** The few facts of nonlinear integer arithmetic that the number theory needs. */
module Nonlinear {

  lemma MulLe(a: int, x: int, y: int)
    requires a >= 0 && x <= y
    ensures a * x <= a * y
  {
  }

  lemma SmallMultiple(q: int, t: int)
    requires -q < q * t < q
    ensures t == 0
  {
    if t >= 1 { MulLe(q, 1, t); }
    if t <= -1 { MulLe(q, t, -1); }
  }

  lemma MulCancel(a: int, x: int, y: int)
    requires a > 0 && a * x == a * y
    ensures x == y
  {
    assert a * (x - y) == 0;
    SmallMultiple(a, x - y);
  }

  lemma DivModUnique(x: int, q: int, k: int, r: int)
    requires q > 0 && x == q * k + r && 0 <= r < q
    ensures x / q == k && x % q == r
  {
    var d, m := x / q, x % q;
    assert x == q * d + m;
    assert q * (k - d) == m - r;
    SmallMultiple(q, k - d);
  }

  lemma MultipleMod(q: int, k: int)
    requires q > 0
    ensures (q * k) % q == 0 && (q * k) / q == k
  {
    DivModUnique(q * k, q, k, 0);
  }

  lemma Assoc(a: int, b: int, c: int)
    ensures (a * b) * c == a * (b * c)
  {
  }

  lemma Distribute(a: int, b: int, c: int)
    ensures a * (b + c) == a * b + a * c && (b + c) * a == b * a + c * a
    ensures a * (b - c) == a * b - a * c && (b - c) * a == b * a - c * a
  {
  }

  lemma NestedDivision(x: int, a: int, b: int)
    requires a > 0 && b > 0 && x >= 0
    ensures a * b > 0 && x / (a * b) == (x / a) / b
  {
    var y := x / a;
    var q, r := y / b, y % b;
    assert x == a * y + x % a && y == b * q + r;
    MulLe(a, 1, b);
    MulLe(a, r + 1, b);
    Distribute(a, r, 1);
    Distribute(a, b * q, r);
    Assoc(a, b, q);
    MulLe(a, 0, r);
    DivModUnique(x, a * b, q, a * r + x % a);
  }
}
