/** The Mersenne prime field M31 = Z / (2^31 - 1).

  Every tool of the repository reduces with `% P` and inverts with Fermat's
  little theorem, so everything downstream rests on P being prime.  Nothing is
  taken on trust here: the certificate is that 7 is a primitive root, from
  which both "every nonzero residue has the Fermat inverse" and "there are no
  zero divisors" follow (module M31Field). */
module M31 {

  const P := 2147483647

  type Elem = x: int | 0 <= x < P

  function Mod(x: int): Elem { x % P }

  function Add(a: Elem, b: Elem): Elem { (a + b) % P }

  function Sub(a: Elem, b: Elem): Elem { (a - b) % P }

  function Neg(a: Elem): Elem { (P - a) % P }

  function Mul(a: Elem, b: Elem): Elem { (a * b) % P }

  function Pow(b: Elem, e: nat): Elem
  {
    if e == 0 then 1 else Mul(b, Pow(b, e - 1))
  }

  // ------------------------------------------------------------------ residues

  lemma ModShift(x: int, k: int)
    ensures (x + k * P) % P == x % P
  {
    var y := x + k * P;
    assert x == x / P * P + x % P;
    assert y == (x / P + k) * P + x % P;
    var d := y / P - (x / P + k);
    assert d * P == x % P - y % P;
  }

  lemma ModUnique(x: int, y: int, k: int)
    requires x == y + k * P
    ensures x % P == y % P
  {
    ModShift(y, k);
  }

  lemma ModMulLeft(x: int, y: int)
    ensures ((x % P) * y) % P == (x * y) % P
  {
    var q := x / P;
    assert x == q * P + x % P;
    assert x * y == (x % P) * y + (q * y) * P by {
      assert (q * P + x % P) * y == (q * y) * P + (x % P) * y;
    }
    ModShift((x % P) * y, q * y);
  }

  lemma ModMul(x: int, y: int)
    ensures ((x % P) * (y % P)) % P == (x * y) % P
  {
    ModMulLeft(x, y % P);
    ModMulLeft(y, x);
    assert x * (y % P) == (y % P) * x;
    assert x * y == y * x;
  }

  lemma ModAdd(x: int, y: int)
    ensures (x % P + y % P) % P == (x + y) % P
  {
  }

  lemma ModSub(x: int, y: int)
    ensures (x % P - y % P) % P == (x - y) % P
  {
  }

  // ----------------------------------------------------------------- ring laws

  lemma AddComm(a: Elem, b: Elem)
    ensures Add(a, b) == Add(b, a)
  {
  }

  lemma AddAssoc(a: Elem, b: Elem, c: Elem)
    ensures Add(Add(a, b), c) == Add(a, Add(b, c))
  {
  }

  lemma AddZero(a: Elem)
    ensures Add(a, 0) == a == Add(0, a)
  {
  }

  lemma AddNeg(a: Elem)
    ensures Add(a, Neg(a)) == 0
  {
  }

  lemma SubIsAddNeg(a: Elem, b: Elem)
    ensures Sub(a, b) == Add(a, Neg(b))
  {
  }

  lemma MulComm(a: Elem, b: Elem)
    ensures Mul(a, b) == Mul(b, a)
  {
  }

  lemma MulOne(a: Elem)
    ensures Mul(a, 1) == a == Mul(1, a)
  {
  }

  lemma MulZero(a: Elem)
    ensures Mul(a, 0) == 0 == Mul(0, a)
  {
  }

  lemma MulAssoc(a: Elem, b: Elem, c: Elem)
    ensures Mul(Mul(a, b), c) == Mul(a, Mul(b, c))
  {
    ModMulLeft(a * b, c);
    ModMulLeft(b * c, a);
    assert (a * b) * c == (b * c) * a;
    assert a * ((b * c) % P) == ((b * c) % P) * a;
  }

  lemma MulAdd(a: Elem, b: Elem, c: Elem)
    ensures Mul(a, Add(b, c)) == Add(Mul(a, b), Mul(a, c))
  {
    hide Mul, Add, Mod;
    ProductOfSum(a, b, c);
    MulIs(a, b);
    MulIs(a, c);
    SumOfResidues(a * b, a * c);
  }

  lemma MulIs(a: Elem, b: Elem)
    ensures Mul(a, b) == Mod(a * b)
  {
  }

  lemma SumOfResidues(x: int, y: int)
    ensures Add(Mod(x), Mod(y)) == Mod(x + y)
  {
    ModAdd(x, y);
  }

  lemma NegOne()
    ensures Neg(1) == P - 1
  {
  }

  lemma ProductOfSum(a: Elem, b: Elem, c: Elem)
    ensures Mul(a, Add(b, c)) == Mod(a * b + a * c)
  {
    ModMulLeft(b + c, a);
    assert a * Add(b, c) == ((b + c) % P) * a;
    assert (b + c) * a == a * b + a * c;
  }

  lemma MulNeg(a: Elem, b: Elem)
    ensures Mul(a, Neg(b)) == Neg(Mul(a, b))
  {
    hide Mul, Add;
    MulAdd(a, b, Neg(b));
    AddNeg(b);
    MulZero(a);
    NegUnique(Mul(a, b), Mul(a, Neg(b)));
  }

  lemma NegUnique(a: Elem, b: Elem)
    requires Add(a, b) == 0
    ensures b == Neg(a)
  {
  }

  lemma MulSub(a: Elem, b: Elem, c: Elem)
    ensures Mul(a, Sub(b, c)) == Sub(Mul(a, b), Mul(a, c))
  {
    hide Mul, Add;
    SubIsAddNeg(b, c);
    MulAdd(a, b, Neg(c));
    MulNeg(a, c);
    SubIsAddNeg(Mul(a, b), Mul(a, c));
  }

  // -------------------------------------------------------------------- powers

  lemma {:induction false} PowAdd(b: Elem, m: nat, n: nat)
    ensures Pow(b, m + n) == Mul(Pow(b, m), Pow(b, n))
  {
    hide Mul;
    if m == 0 {
      MulOne(Pow(b, n));
    } else {
      PowAdd(b, m - 1, n);
      MulAssoc(b, Pow(b, m - 1), Pow(b, n));
    }
  }

  lemma {:induction false} PowOne(n: nat)
    ensures Pow(1, n) == 1
  {
    if n > 0 { PowOne(n - 1); }
  }

  lemma {:induction false} PowMul(b: Elem, m: nat, n: nat)
    ensures Pow(Pow(b, m), n) == Pow(b, m * n)
  {
    hide Mul;
    if n == 0 {
      assert m * n == 0;
    } else {
      PowMul(b, m, n - 1);
      assert m * n == m + m * (n - 1);
      PowAdd(b, m, m * (n - 1));
    }
  }

  lemma {:induction false} PowProduct(a: Elem, b: Elem, n: nat)
    ensures Pow(Mul(a, b), n) == Mul(Pow(a, n), Pow(b, n))
  {
    hide Mul;
    if n == 0 {
      MulOne(1);
    } else {
      PowProduct(a, b, n - 1);
      MulSwap(a, b, Pow(a, n - 1), Pow(b, n - 1));
    }
  }

  lemma MulSwap(a: Elem, b: Elem, c: Elem, d: Elem)
    ensures Mul(Mul(a, b), Mul(c, d)) == Mul(Mul(a, c), Mul(b, d))
  {
    hide Mul;
    MulAssoc(a, b, Mul(c, d));
    MulAssoc(b, c, d);
    MulComm(b, c);
    MulAssoc(c, b, d);
    MulAssoc(a, c, Mul(b, d));
  }

  /** The square-and-multiply loop of every `pow`, `inv`, `inverse` and `minv`
      in the repository, for the modulus P. */
  method PowLoop(b: Elem, e: nat) returns (r: Elem)
    ensures r == Pow(b, e)
  {
    var value, exponent := b, e;
    r := 1;
    MulOne(Pow(b, e));
    while exponent != 0
      invariant Mul(r, Pow(value, exponent)) == Pow(b, e)
    {
      hide Mul;
      ghost var r0, v0, e0 := r, value, exponent;
      if exponent % 2 != 0 {
        r := Mul(r, value);
      }
      value := Mul(value, value);
      exponent := exponent / 2;
      PowHalf(v0, e0);
      if e0 % 2 != 0 {
        MulAssoc(r0, v0, Pow(value, exponent));
      }
    }
    MulOne(r);
  }

  lemma PowHalf(v: Elem, e: nat)
    ensures Pow(v, e) == if e % 2 == 0 then Pow(Mul(v, v), e / 2) else Mul(v, Pow(Mul(v, v), e / 2))
  {
    hide Mul;
    assert Pow(v, 2) == Mul(v, v) by { assert Pow(v, 1) == Mul(v, Pow(v, 0)); MulOne(v); }
    PowMul(v, 2, e / 2);
    if e % 2 == 1 {
      assert e == 1 + 2 * (e / 2);
    }
  }
}
