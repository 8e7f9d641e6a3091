/** P = 2^31 - 1 is prime and Fermat inversion is a true inverse.

  The proof is a primitive-root certificate: 7^(P-1) = 1 and 7^((P-1)/q) != 1
  for every prime q dividing P - 1 = 2 * 3^2 * 7 * 11 * 31 * 151 * 331.  So the
  powers of 7 are P - 1 distinct nonzero residues, hence all of them. */
module M31Field {
  import opened M31
  import opened Nonlinear
  import FiniteSets

  function Inv(a: Elem): Elem { Pow(a, P - 2) }

  // --------------------------------------------------- evaluating the certificate

  /** One base-32 digit of an exponent: five squarings and one product. */
  lemma Digit(b: Elem, e: nat, s: seq<Elem>, d: nat, t: Elem, w: Elem)
    requires |s| == 6 && Pow(b, e) == s[0] && Pow(b, d) == t
    requires (s[0] * s[0]) % P == s[1] && (s[1] * s[1]) % P == s[2] && (s[2] * s[2]) % P == s[3]
    requires (s[3] * s[3]) % P == s[4] && (s[4] * s[4]) % P == s[5] && (s[5] * t) % P == w
    ensures Pow(b, 32 * e + d) == w
  {
    hide Pow;
    PowAdd(b, e, e);
    PowAdd(b, 2 * e, 2 * e);
    PowAdd(b, 4 * e, 4 * e);
    PowAdd(b, 8 * e, 8 * e);
    PowAdd(b, 16 * e, 16 * e);
    PowAdd(b, 32 * e, d);
    assert e + e == 2 * e && 2 * e + 2 * e == 4 * e && 4 * e + 4 * e == 8 * e;
    assert 8 * e + 8 * e == 16 * e && 16 * e + 16 * e == 32 * e;
  }

  lemma Next(d: nat, t: Elem, w: Elem)
    requires Pow(7, d) == t && (7 * t) % P == w
    ensures Pow(7, d + 1) == w
  {
  }

  lemma SmallPowers()
    ensures Pow(7, 0) == 1
    ensures Pow(7, 2) == 49
    ensures Pow(7, 4) == 2401
    ensures Pow(7, 5) == 16807
    ensures Pow(7, 6) == 117649
    ensures Pow(7, 9) == 40353607
    ensures Pow(7, 10) == 282475249
    ensures Pow(7, 13) == 252246292
    ensures Pow(7, 18) == 370710466
    ensures Pow(7, 21) == 452154665
    ensures Pow(7, 25) == 1144108930
    ensures Pow(7, 26) == 1566311569
    ensures Pow(7, 31) == 1143995257
  {
    assert Pow(7, 1) == 7 by { assert Pow(7, 0) == 1; MulOne(7); }
    hide Mul, Pow;
    Next(1, 7, 49);
    Next(2, 49, 343);
    Next(3, 343, 2401);
    Next(4, 2401, 16807);
    Next(5, 16807, 117649);
    Next(6, 117649, 823543);
    Next(7, 823543, 5764801);
    Next(8, 5764801, 40353607);
    Next(9, 40353607, 282475249);
    Next(10, 282475249, 1977326743);
    Next(11, 1977326743, 956385319);
    Next(12, 956385319, 252246292);
    Next(13, 252246292, 1765724044);
    Next(14, 1765724044, 1622650073);
    Next(15, 1622650073, 621132276);
    Next(16, 621132276, 52958638);
    Next(17, 52958638, 370710466);
    Next(18, 370710466, 447489615);
    Next(19, 447489615, 984943658);
    Next(20, 984943658, 452154665);
    Next(21, 452154665, 1017599008);
    Next(22, 1017599008, 680742115);
    Next(23, 680742115, 470227511);
    Next(24, 470227511, 1144108930);
    Next(25, 1144108930, 1566311569);
    Next(26, 1566311569, 226762748);
    Next(27, 226762748, 1587339236);
    Next(28, 1587339236, 373956417);
    Next(29, 373956417, 470211272);
    Next(30, 470211272, 1143995257);
  }

  lemma PowerCofactor2()
    ensures Pow(7, 1073741823) == 2147483646
  {
    hide Mul, Pow;
    SmallPowers();
    Digit(7, 31, [1143995257, 969378910, 2100290206, 1158607371, 1900997419, 9011482], 31, 1143995257, 782353259);
    Digit(7, 1023, [782353259, 1723809692, 487592497, 1745106851, 230050902, 1585657862], 31, 1143995257, 1734770806);
    Digit(7, 32767, [1734770806, 1711636279, 1554931917, 1449262303, 689029392, 1659274020], 31, 1143995257, 433311905);
    Digit(7, 1048575, [433311905, 178397507, 1509980695, 629316034, 610237737, 871697972], 31, 1143995257, 1526357038);
    Digit(7, 33554431, [1526357038, 1135809429, 95152066, 54264830, 1395973207, 1628719398],
          31, 1143995257, 2147483646);
  }

  lemma PowerCofactor3()
    ensures Pow(7, 715827882) == 1513477735
  {
    hide Mul, Pow;
    SmallPowers();
    Digit(7, 21, [452154665, 567732671, 1739814366, 45906386, 1853303192, 828852397], 10, 282475249, 2144351583);
    Digit(7, 682, [2144351583, 119600600, 847038880, 95853357, 1145884298, 1023683565], 21, 452154665, 2031128932);
    Digit(7, 21845, [2031128932, 2039727126, 116374324, 73219355, 1280964757, 1854283047], 10, 282475249, 1275070073);
    Digit(7, 699050, [1275070073, 88730849, 1035570932, 1379893712, 453822165, 840798817], 21, 452154665, 787934656);
    Digit(7, 22369621, [787934656, 1527277373, 1009784801, 182934582, 1134076923, 684464586],
          10, 282475249, 1513477735);
  }

  lemma PowerCofactor7()
    ensures Pow(7, 306783378) == 1205362885
  {
    hide Mul, Pow;
    SmallPowers();
    Digit(7, 9, [40353607, 370710466, 707192808, 1490425411, 127621688, 1880041130], 4, 2401, 2115610783);
    Digit(7, 292, [2115610783, 1582930911, 1233233900, 1815357550, 512403647, 678482895], 18, 370710466, 1590871391);
    Digit(7, 9362, [1590871391, 1917208117, 306338461, 1872859178, 1935558874, 1489963519], 9, 40353607, 522534449);
    Digit(7, 299593, [522534449, 1859770966, 671250160, 528722786, 483024889, 392727077], 4, 2401, 192390844);
    Digit(7, 9586980, [192390844, 409426577, 895441803, 908549202, 1898990659, 971977321], 18, 370710466, 1205362885);
  }

  lemma PowerCofactor11()
    ensures Pow(7, 195225786) == 1969212174
  {
    hide Mul, Pow;
    SmallPowers();
    Digit(7, 5, [16807, 282475249, 984943658, 1457850878, 1137522503, 1636807826], 26, 1566311569, 920132265);
    Digit(7, 186, [920132265, 1668712169, 690914947, 553731614, 1676874670, 1071848018], 5, 16807, 1456807490);
    Digit(7, 5957, [1456807490, 1884245123, 1380123151, 1690057368, 737176218, 1480142803], 26, 1566311569, 1951423362);
    Digit(7, 190650, [1951423362, 195528275, 701801792, 710355745, 968067563, 1760706658], 5, 16807, 2019628993);
    Digit(7, 6100805, [2019628993, 1672254897, 821912738, 1652750237, 1791321970, 542184074],
          26, 1566311569, 1969212174);
  }

  lemma PowerCofactor31()
    ensures Pow(7, 69273666) == 512
  {
    hide Mul, Pow;
    SmallPowers();
    Digit(7, 2, [49, 2401, 5764801, 621132276, 1565515858, 254926356], 2, 49, 1753973209);
    Digit(7, 66, [1753973209, 1759884542, 72945244, 1558970347, 79492283, 885647061], 2, 49, 447033049);
    Digit(7, 2114, [447033049, 98083876, 1312981133, 622492898, 2039811377, 557088227], 2, 49, 1527519359);
    Digit(7, 67650, [1527519359, 1493385978, 893936989, 1151377580, 1084418009, 1631653150], 2, 49, 494109411);
    Digit(7, 2164802, [494109411, 1336153301, 1512527173, 1525432472, 1226983716, 876523948], 2, 49, 512);
  }

  lemma PowerCofactor151()
    ensures Pow(7, 14221746) == 535044134
  {
    hide Mul, Pow;
    SmallPowers();
    Digit(7, 13, [252246292, 1566311569, 1717883626, 1048427892, 1576978333, 238529403], 18, 370710466, 1146211578);
    Digit(7, 434, [1146211578, 1321894452, 482929059, 308494172, 58367958, 1071365083], 0, 1, 1071365083);
    Digit(7, 13888, [1071365083, 1550283642, 318234560, 182429425, 430434239, 2143048], 13, 252246292, 590536941);
    Digit(7, 444429, [590536941, 2044822179, 1866325011, 2028736767, 1501901118, 243306007], 18, 370710466, 535044134);
  }

  lemma PowerCofactor331()
    ensures Pow(7, 6487866) == 1761855083
  {
    hide Mul, Pow;
    SmallPowers();
    Digit(7, 6, [117649, 956385319, 470227511, 2144621485, 1468684586, 137683362], 5, 16807, 1204377315);
    Digit(7, 197, [1204377315, 540403296, 992718306, 660704952, 320758163, 1484768918], 31, 1143995257, 415825199);
    Digit(7, 6335, [415825199, 1755482411, 695466627, 172151963, 1833937397, 1432699779], 25, 1144108930, 641787029);
    Digit(7, 202745, [641787029, 1577609047, 1211856870, 82748712, 1092435329, 555775014], 26, 1566311569, 1761855083);
  }

  lemma FullPower()
    ensures Pow(7, P - 1) == 1
  {
    hide Pow;
    PowerCofactor2();
    PowAdd(7, 1073741823, 1073741823);
  }

  // -------------------------------------------------------- the order of 7 is P - 1

  predicate IsFactor(q: int)
  {
    q == 2 || q == 3 || q == 7 || q == 11 || q == 31 || q == 151 || q == 331
  }

  lemma CofactorNotOne(q: int)
    requires IsFactor(q)
    ensures Pow(7, (P - 1) / q) != 1
  {
    hide Pow;
    PowerCofactor2();
    PowerCofactor3();
    PowerCofactor7();
    PowerCofactor11();
    PowerCofactor31();
    PowerCofactor151();
    PowerCofactor331();
  }

  lemma FactorHasNoDivisor(q: int, r: int, s: int)
    requires IsFactor(q) && 2 <= r && 2 <= s
    ensures r * s != q
  {
    if r > 18 && s > 18 {
      assert r * s >= 19 * s >= 19 * 19;
    } else if r <= 18 {
      assert r == 2 || r == 3 || r == 4 || r == 5 || r == 6 || r == 7 || r == 8 || r == 9 || r == 10
          || r == 11 || r == 12 || r == 13 || r == 14 || r == 15 || r == 16 || r == 17 || r == 18;
    } else {
      FactorHasNoDivisor(q, s, r);
      assert r * s == s * r;
    }
  }

  lemma ProperRemainder(q: int, r: int)
    requires IsFactor(q) && 1 < r < q
    ensures 0 < q % r < r
  {
    var s := q / r;
    assert q == r * s + q % r;
    if s <= 1 { MulLe(r, s, 1); } else { FactorHasNoDivisor(q, r, s); }
  }

  lemma RemainderMul(q: int, r: int, d: int)
    requires 0 < r < q && (r * d) % q == 0
    ensures ((q % r) * d) % q == 0
  {
    RemainderStep(q, r, q / r, d);
    assert q - r * (q / r) == q % r;
  }

  lemma {:induction false} EuclidStep(q: int, r: int, d: int)
    requires IsFactor(q) && 0 < r < q && (r * d) % q == 0
    ensures d % q == 0
    decreases r
  {
    if r > 1 {
      ProperRemainder(q, r);
      RemainderMul(q, r, d);
      EuclidStep(q, q % r, d);
    }
  }

  lemma RemainderStep(q: int, r: int, s: int, d: int)
    requires q > 0 && (r * d) % q == 0
    ensures ((q - r * s) * d) % q == 0
  {
    var k := (r * d) / q;
    assert r * d == q * k;
    assert (q - r * s) * d == q * d - s * (r * d);
    assert s * (r * d) == s * (q * k) == q * (s * k);
    assert (q - r * s) * d == q * (d - s * k);
    MultipleMod(q, d - s * k);
  }

  lemma ReduceFactor(q: int, m: int, k: int, d: int)
    requires q > 0 && (m * d) % q == 0
    ensures ((m - q * k) * d) % q == 0
  {
    var z := (m * d) / q;
    assert m * d == q * z;
    assert (m - q * k) * d == m * d - q * (k * d);
    assert (m - q * k) * d == q * (z - k * d);
    MultipleMod(q, z - k * d);
  }

  lemma Euclid(q: int, m: int, d: int)
    requires IsFactor(q) && (m * d) % q == 0 && m % q != 0
    ensures d % q == 0
  {
    ReduceFactor(q, m, m / q, d);
    assert m - q * (m / q) == m % q;
    EuclidStep(q, m % q, d);
  }

  lemma Strip(q: int, m: int, d: int, rest: int) returns (d': int)
    requires IsFactor(q) && m % q != 0 && m * d == q * rest
    ensures m * d' == rest
  {
    MultipleMod(q, rest);
    Euclid(q, m, d);
    d' := d / q;
    assert d == q * d';
    assert m * d == q * (m * d');
    assert q * (m * d') == q * rest;
    MulCancel(q, m * d', rest);
  }

  /** A divisor of P - 1 other than 1 is divisible by one of the listed primes. */
  lemma HasFactor(m: int, d: int) returns (q: int)
    requires m > 1 && m * d == P - 1
    ensures IsFactor(q) && m % q == 0
  {
    q := 2;
    if m % 2 == 0 { return 2; }
    if m % 3 == 0 { return 3; }
    if m % 7 == 0 { return 7; }
    if m % 11 == 0 { return 11; }
    if m % 31 == 0 { return 31; }
    if m % 151 == 0 { return 151; }
    if m % 331 == 0 { return 331; }
    var e := Strip(2, m, d, 1073741823);
    e := Strip(3, m, e, 357913941);
    e := Strip(3, m, e, 119304647);
    e := Strip(7, m, e, 17043521);
    e := Strip(11, m, e, 1549411);
    e := Strip(31, m, e, 49981);
    e := Strip(151, m, e, 331);
    e := Strip(331, m, e, 1);
    OneFactor(m, e);
  }

  lemma OneFactor(m: int, e: int)
    requires m > 1
    ensures m * e != 1
  {
    if e >= 1 { MulLe(m, 1, e); } else { MulLe(m, e, 0); }
  }

  lemma NotAProperDivisor(m: nat, d: nat)
    requires 0 < d < P - 1 && m * d == P - 1
    ensures Pow(7, d) != 1
  {
    hide Mul, Pow;
    if m <= 1 { MulLe(d, m, 1); }
    var q := HasFactor(m, d);
    var c := m / q;
    assert m * d == q * (c * d) by { assert m == q * c; }
    MultipleMod(q, c * d);
    PowMul(7, d, c);
    PowOne(c);
    assert d * c == c * d;
    CofactorNotOne(q);
  }

  lemma PowerOfRemainder(d: nat)
    requires 0 < d && Pow(7, d) == 1
    ensures Pow(7, (P - 1) % d) == 1
  {
    hide Mul, Pow;
    var m, r := (P - 1) / d, (P - 1) % d;
    assert d * m + r == P - 1;
    PowMul(7, d, m);
    PowOne(m);
    PowAdd(7, d * m, r);
    MulOne(Pow(7, r));
    FullPower();
  }

  lemma {:induction false} NoSmallOrder(d: nat)
    requires 0 < d < P - 1
    ensures Pow(7, d) != 1
    decreases d
  {
    hide Mul, Pow;
    var m, r := (P - 1) / d, (P - 1) % d;
    if r == 0 {
      assert m * d == P - 1;
      NotAProperDivisor(m, d);
    } else if Pow(7, d) == 1 {
      PowerOfRemainder(d);
      NoSmallOrder(r);
    }
  }

  lemma PowersDistinct(i: nat, j: nat)
    requires i < j < P - 1
    ensures Pow(7, i) != Pow(7, j)
  {
    hide Mul, Pow;
    if Pow(7, i) == Pow(7, j) {
      var k := P - 1 - i;
      PowAdd(7, i, k);
      PowAdd(7, j, k);
      FullPower();
      assert j + k == (j - i) + (P - 1);
      PowAdd(7, j - i, P - 1);
      MulOne(Pow(7, j - i));
      NoSmallOrder(j - i);
    }
  }

  // ------------------------------------- so every nonzero residue is a power of 7

  ghost function Powers(n: nat): set<int>
  {
    if n == 0 then {} else Powers(n - 1) + {Pow(7, n - 1)}
  }

  ghost function Residues(n: nat): set<int>
  {
    if n == 0 then {} else Residues(n - 1) + {n}
  }

  lemma {:induction false} PowerIndex(n: nat, x: int) returns (i: nat)
    requires x in Powers(n)
    ensures i < n && Pow(7, i) == x
  {
    hide Pow;
    if x == Pow(7, n - 1) { i := n - 1; } else { i := PowerIndex(n - 1, x); }
  }

  lemma {:induction false} PowersSpec(n: nat)
    requires n <= P - 1
    ensures |Powers(n)| == n
    ensures forall x :: x in Powers(n) ==> 0 < x < P
  {
    hide Mul, Pow;
    if n > 0 {
      PowersSpec(n - 1);
      if Pow(7, n - 1) in Powers(n - 1) {
        var i := PowerIndex(n - 1, Pow(7, n - 1));
        PowersDistinct(i, n - 1);
      }
      PowAdd(7, n - 1, P - n);
      FullPower();
      MulZero(Pow(7, P - n));
    }
  }

  lemma {:induction false} ResiduesSpec(n: nat)
    ensures |Residues(n)| == n
    ensures forall x :: x in Residues(n) <==> 0 < x <= n
  {
    if n > 0 { ResiduesSpec(n - 1); }
  }

  /** 7 is a primitive root: every nonzero residue is one of its powers. */
  lemma PrimitiveRoot(x: Elem) returns (k: nat)
    requires x != 0
    ensures k < P - 1 && Pow(7, k) == x
  {
    hide Mul, Pow, Powers, Residues;
    var n := P - 1;
    PowersSpec(n);
    ResiduesSpec(n);
    forall x | x in Powers(n) ensures x in Residues(n) {}
    FiniteSets.SubsetSize(Powers(n), Residues(n));
    k := PowerIndex(n, x);
  }

  // --------------------------------------------------------------- consequences

  lemma Fermat(x: Elem)
    requires x != 0
    ensures Pow(x, P - 1) == 1
  {
    hide Mul, Pow;
    var k := PrimitiveRoot(x);
    PowMul(7, k, P - 1);
    PowMul(7, P - 1, k);
    assert k * (P - 1) == (P - 1) * k;
    FullPower();
    PowOne(k);
  }

  lemma MulInv(a: Elem)
    requires a != 0
    ensures Mul(a, Inv(a)) == 1 && Inv(a) != 0
  {
    hide Mul, Pow;
    Fermat(a);
    PowAdd(a, 1, P - 2);
    PowFirst(a);
    MulZero(a);
  }

  lemma PowFirst(a: Elem)
    ensures Pow(a, 1) == a
  {
    assert Pow(a, 1) == Mul(a, Pow(a, 0));
    MulOne(a);
  }

  lemma NoZeroDivisors(a: Elem, b: Elem)
    ensures Mul(a, b) == 0 <==> a == 0 || b == 0
  {
    hide Mul, Inv;
    MulZero(a);
    MulZero(b);
    if a != 0 && Mul(a, b) == 0 {
      MulInv(a);
      MulAssoc(Inv(a), a, b);
      MulComm(a, Inv(a));
      MulOne(b);
      MulZero(Inv(a));
    }
  }

  lemma PIsPrime(m: int)
    requires 2 <= m < P
    ensures P % m != 0
  {
    if P % m == 0 {
      var s := P / m;
      assert P == m * s;
      if s <= 0 { MulLe(m, s, 0); }
      if s >= P { MulLe(s, 2, m); }
      NoZeroDivisors(m, s);
    }
  }

  lemma Cancel(a: Elem, b: Elem, c: Elem)
    requires a != 0 && Mul(a, b) == Mul(a, c)
    ensures b == c
  {
    hide Mul, Inv;
    MulInv(a);
    MulComm(a, Inv(a));
    MulAssoc(Inv(a), a, b);
    MulAssoc(Inv(a), a, c);
    MulOne(b);
    MulOne(c);
  }

  // --------------------------------------------------------- quadratic residues

  const HALF := 1073741823

  lemma PowMinusOneOdd(k: nat)
    ensures Pow(P - 1, 2 * k + 1) == P - 1
  {
    hide Pow, Mul;
    PowMul(P - 1, 2, k);
    assert Pow(P - 1, 2) == 1 by {
      PowAdd(P - 1, 1, 1);
      PowFirst(P - 1);
      assert Mul(P - 1, P - 1) == 1 by { ModUnique((P - 1) * (P - 1), 1, P - 2); Unfold(P - 1, P - 1); }
    }
    PowOne(k);
    PowAdd(P - 1, 2 * k, 1);
    PowFirst(P - 1);
    MulOne(P - 1);
  }

  lemma Unfold(a: Elem, b: Elem)
    ensures Mul(a, b) == (a * b) % P
  {
  }

  lemma MinusOneNonResidue()
    ensures Pow(P - 1, HALF) == P - 1
  {
    hide Pow;
    PowMinusOneOdd(536870911);
  }

  lemma FiveNonResidue()
    ensures Pow(5, HALF) == P - 1
  {
    hide Pow, Mul;
    assert Pow(5, 0) == 1 by { PowZero(5); }
    PowFirst(5);
    Digit(5, 1, [5, 25, 625, 390625, 116551688, 1619494384], 0, 1, 1619494384);
    Digit(5, 32, [1619494384, 1375672677, 943831652, 121052136, 824369415, 1283853307], 0, 1, 1283853307);
    Digit(5, 1024, [1283853307, 1091781300, 19849525, 523043241, 184852018, 541363487], 0, 1, 541363487);
    Digit(5, 32768, [541363487, 241538311, 870690664, 1296694829, 850560125, 1786353027], 0, 1, 1786353027);
    Digit(5, 1048576, [1786353027, 28939304, 1200896415, 114773075, 780729395, 1401911815], 0, 1, 1401911815);
    Digit(5, 33554432, [1401911815, 1317625669, 1467893795, 479583087, 2041534867, 2147483642], 0, 1, 2147483642);
    PowAdd(5, 1, HALF);
    Unfold(5, P - 1);
    Cancel(5, Pow(5, HALF), P - 1);
  }

  lemma PowZero(b: Elem)
    ensures Pow(b, 0) == 1
  {
  }

  /** w times a nonzero square is never a square when w fails Euler's criterion. */
  lemma NonResidue(w: Elem, a: Elem, b: Elem)
    requires Pow(w, HALF) == P - 1
    requires Mul(a, a) == Mul(w, Mul(b, b))
    ensures a == 0 && b == 0
  {
    hide Pow, Mul;
    PowProduct(w, Mul(b, b), HALF);
    PowProduct(a, a, HALF);
    PowProduct(b, b, HALF);
    PowAdd(a, HALF, HALF);
    PowAdd(b, HALF, HALF);
    if b != 0 {
      Fermat(b);
      MulOne(P - 1);
      if a != 0 { Fermat(a); } else { PowAdd(0, 1, P - 2); PowFirst(0); MulZero(Pow(0, P - 2)); }
    } else {
      MulZero(0);
      MulZero(w);
      NoZeroDivisors(a, a);
    }
  }

  /** The Fermat inverse computed by square-and-multiply. */
  method InvLoop(a: Elem) returns (r: Elem)
    ensures r == Inv(a)
    ensures a != 0 ==> Mul(a, r) == 1
    ensures a == 0 ==> r == 0
  {
    r := PowLoop(a, P - 2);
    if a != 0 { MulInv(a); } else { MulZero(Pow(0, P - 3)); }
  }
}
