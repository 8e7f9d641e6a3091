/** What fixes the constants of SHA-256: the round constants are the first 32 fractional bits of the
    cube roots of the first sixty-four primes, the initial state those of the square roots of the
    first eight (sections 4.2.2 and 5.3.3 of FIPS 180-4). */
module Sha256Constants {
  import Nonlinear
  import opened Sha256

  // ------------------------------------------------------------------------ the primes

  predicate IsPrime(n: nat)
  {
    n >= 2 && forall d :: 2 <= d < n ==> n % d != 0
  }

  /** No divisor up to 17 other than the number itself. */
  predicate Sifted(n: nat)
  {
    && (n % 2 != 0 || n == 2) && (n % 3 != 0 || n == 3) && (n % 5 != 0 || n == 5) && (n % 7 != 0 || n == 7)
    && (n % 11 != 0 || n == 11) && (n % 13 != 0 || n == 13) && (n % 17 != 0 || n == 17)
  }

  lemma PrimeIsSifted(n: nat)
    requires IsPrime(n)
    ensures Sifted(n)
  {
    Sieve(n, 2);
    Sieve(n, 3);
    Sieve(n, 5);
    Sieve(n, 7);
    Sieve(n, 11);
    Sieve(n, 13);
    Sieve(n, 17);
  }

  lemma Sieve(n: nat, d: nat)
    requires IsPrime(n) && d >= 2
    ensures n % d != 0 || n == d
  {
    if n < d { Nonlinear.DivModUnique(n, d, 0, n); }
  }

  /** Below 18 * 18 a composite number has a prime divisor up to 17. */
  lemma SiftedIsPrime(n: nat)
    requires 2 <= n < 324 && Sifted(n)
    ensures IsPrime(n)
  {
    hide Sifted;
    forall d | 2 <= d < n ensures n % d != 0 {
      if n % d == 0 { NotSifted(n, d, n / d); }
    }
  }

  lemma NotSifted(n: nat, d: nat, e: nat)
    requires n == d * e && 2 <= d < n < 324
    ensures !Sifted(n)
  {
    hide Sifted;
    CoFactor(n, d, e);
    if d <= 17 { SmallDivisor(n, d, e); } else { SmallDivisor(n, e, d); }
  }

  lemma CoFactor(n: nat, d: nat, e: nat)
    requires n == d * e && 2 <= d < n < 324
    ensures 2 <= e < n && (d <= 17 || e <= 17)
  {
    if e <= 0 { Nonlinear.MulLe(d, e, 0); }
    if e >= n { Nonlinear.MulLe(d, n, e); Nonlinear.MulLe(n, 2, d); }
    if d >= 18 && e >= 18 { Nonlinear.MulLe(d, 18, e); }
  }

  /** A divisor up to 17 brings a prime divisor up to 17 with it. */
  lemma SmallDivisor(n: nat, d: nat, e: nat)
    requires n == d * e && 2 <= d <= 17 && d < n && e >= 2
    ensures !Sifted(n)
  {
    var p := if d % 2 == 0 then 2 else if d % 3 == 0 then 3 else if d % 5 == 0 then 5 else if d % 7 == 0 then 7 else d;
    var q := d / p;
    assert d == p * q && (p == 2 || p == 3 || p == 5 || p == 7 || p == 11 || p == 13 || p == 17);
    Nonlinear.Assoc(p, q, e);
    Nonlinear.MultipleMod(p, q * e);
  }

  lemma Sifted2()
    ensures forall n :: 2 <= n < 34 ==> (Sifted(n) <==> n in {2, 3, 5, 7, 11, 13, 17, 19, 23, 29, 31})
  {
    forall n | 2 <= n < 34 ensures Sifted(n) <==> n in {2, 3, 5, 7, 11, 13, 17, 19, 23, 29, 31} {
      assert n == 2 || n == 3 || n == 4 || n == 5 || n == 6 || n == 7 || n == 8 || n == 9 || n == 10 || n == 11 ||
        n == 12 || n == 13 || n == 14 || n == 15 || n == 16 || n == 17 || n == 18 || n == 19 || n == 20 ||
        n == 21 || n == 22 || n == 23 || n == 24 || n == 25 || n == 26 || n == 27 || n == 28 || n == 29 ||
        n == 30 || n == 31 || n == 32 || n == 33;
    }
  }

  lemma Sifted34()
    ensures forall n :: 34 <= n < 66 ==> (Sifted(n) <==> n in {37, 41, 43, 47, 53, 59, 61})
  {
    forall n | 34 <= n < 66 ensures Sifted(n) <==> n in {37, 41, 43, 47, 53, 59, 61} {
      assert n == 34 || n == 35 || n == 36 || n == 37 || n == 38 || n == 39 || n == 40 || n == 41 || n == 42 ||
        n == 43 || n == 44 || n == 45 || n == 46 || n == 47 || n == 48 || n == 49 || n == 50 || n == 51 ||
        n == 52 || n == 53 || n == 54 || n == 55 || n == 56 || n == 57 || n == 58 || n == 59 || n == 60 ||
        n == 61 || n == 62 || n == 63 || n == 64 || n == 65;
    }
  }

  lemma Sifted66()
    ensures forall n :: 66 <= n < 98 ==> (Sifted(n) <==> n in {67, 71, 73, 79, 83, 89, 97})
  {
    forall n | 66 <= n < 98 ensures Sifted(n) <==> n in {67, 71, 73, 79, 83, 89, 97} {
      assert n == 66 || n == 67 || n == 68 || n == 69 || n == 70 || n == 71 || n == 72 || n == 73 || n == 74 ||
        n == 75 || n == 76 || n == 77 || n == 78 || n == 79 || n == 80 || n == 81 || n == 82 || n == 83 ||
        n == 84 || n == 85 || n == 86 || n == 87 || n == 88 || n == 89 || n == 90 || n == 91 || n == 92 ||
        n == 93 || n == 94 || n == 95 || n == 96 || n == 97;
    }
  }

  lemma Sifted98()
    ensures forall n :: 98 <= n < 130 ==> (Sifted(n) <==> n in {101, 103, 107, 109, 113, 127})
  {
    forall n | 98 <= n < 130 ensures Sifted(n) <==> n in {101, 103, 107, 109, 113, 127} {
      assert n == 98 || n == 99 || n == 100 || n == 101 || n == 102 || n == 103 || n == 104 || n == 105 || n == 106 ||
        n == 107 || n == 108 || n == 109 || n == 110 || n == 111 || n == 112 || n == 113 || n == 114 ||
        n == 115 || n == 116 || n == 117 || n == 118 || n == 119 || n == 120 || n == 121 || n == 122 ||
        n == 123 || n == 124 || n == 125 || n == 126 || n == 127 || n == 128 || n == 129;
    }
  }

  lemma Sifted130()
    ensures forall n :: 130 <= n < 162 ==> (Sifted(n) <==> n in {131, 137, 139, 149, 151, 157})
  {
    forall n | 130 <= n < 162 ensures Sifted(n) <==> n in {131, 137, 139, 149, 151, 157} {
      assert n == 130 || n == 131 || n == 132 || n == 133 || n == 134 || n == 135 || n == 136 || n == 137 ||
        n == 138 || n == 139 || n == 140 || n == 141 || n == 142 || n == 143 || n == 144 || n == 145 ||
        n == 146 || n == 147 || n == 148 || n == 149 || n == 150 || n == 151 || n == 152 || n == 153 ||
        n == 154 || n == 155 || n == 156 || n == 157 || n == 158 || n == 159 || n == 160 || n == 161;
    }
  }

  lemma Sifted162()
    ensures forall n :: 162 <= n < 194 ==> (Sifted(n) <==> n in {163, 167, 173, 179, 181, 191, 193})
  {
    forall n | 162 <= n < 194 ensures Sifted(n) <==> n in {163, 167, 173, 179, 181, 191, 193} {
      assert n == 162 || n == 163 || n == 164 || n == 165 || n == 166 || n == 167 || n == 168 || n == 169 ||
        n == 170 || n == 171 || n == 172 || n == 173 || n == 174 || n == 175 || n == 176 || n == 177 ||
        n == 178 || n == 179 || n == 180 || n == 181 || n == 182 || n == 183 || n == 184 || n == 185 ||
        n == 186 || n == 187 || n == 188 || n == 189 || n == 190 || n == 191 || n == 192 || n == 193;
    }
  }

  lemma Sifted194()
    ensures forall n :: 194 <= n < 226 ==> (Sifted(n) <==> n in {197, 199, 211, 223})
  {
    forall n | 194 <= n < 226 ensures Sifted(n) <==> n in {197, 199, 211, 223} {
      assert n == 194 || n == 195 || n == 196 || n == 197 || n == 198 || n == 199 || n == 200 || n == 201 ||
        n == 202 || n == 203 || n == 204 || n == 205 || n == 206 || n == 207 || n == 208 || n == 209 ||
        n == 210 || n == 211 || n == 212 || n == 213 || n == 214 || n == 215 || n == 216 || n == 217 ||
        n == 218 || n == 219 || n == 220 || n == 221 || n == 222 || n == 223 || n == 224 || n == 225;
    }
  }

  lemma Sifted226()
    ensures forall n :: 226 <= n < 258 ==> (Sifted(n) <==> n in {227, 229, 233, 239, 241, 251, 257})
  {
    forall n | 226 <= n < 258 ensures Sifted(n) <==> n in {227, 229, 233, 239, 241, 251, 257} {
      assert n == 226 || n == 227 || n == 228 || n == 229 || n == 230 || n == 231 || n == 232 || n == 233 ||
        n == 234 || n == 235 || n == 236 || n == 237 || n == 238 || n == 239 || n == 240 || n == 241 ||
        n == 242 || n == 243 || n == 244 || n == 245 || n == 246 || n == 247 || n == 248 || n == 249 ||
        n == 250 || n == 251 || n == 252 || n == 253 || n == 254 || n == 255 || n == 256 || n == 257;
    }
  }

  lemma Sifted258()
    ensures forall n :: 258 <= n < 290 ==> (Sifted(n) <==> n in {263, 269, 271, 277, 281, 283})
  {
    forall n | 258 <= n < 290 ensures Sifted(n) <==> n in {263, 269, 271, 277, 281, 283} {
      assert n == 258 || n == 259 || n == 260 || n == 261 || n == 262 || n == 263 || n == 264 || n == 265 ||
        n == 266 || n == 267 || n == 268 || n == 269 || n == 270 || n == 271 || n == 272 || n == 273 ||
        n == 274 || n == 275 || n == 276 || n == 277 || n == 278 || n == 279 || n == 280 || n == 281 ||
        n == 282 || n == 283 || n == 284 || n == 285 || n == 286 || n == 287 || n == 288 || n == 289;
    }
  }

  lemma Sifted290()
    ensures forall n :: 290 <= n < 312 ==> (Sifted(n) <==> n in {293, 307, 311})
  {
    forall n | 290 <= n < 312 ensures Sifted(n) <==> n in {293, 307, 311} {
      assert n == 290 || n == 291 || n == 292 || n == 293 || n == 294 || n == 295 || n == 296 || n == 297 ||
        n == 298 || n == 299 || n == 300 || n == 301 || n == 302 || n == 303 || n == 304 || n == 305 ||
        n == 306 || n == 307 || n == 308 || n == 309 || n == 310 || n == 311;
    }
  }

  /** q is the prime that follows p. */
  predicate IsNext(p: nat, q: nat)
  {
    p < q && IsPrime(q) && forall n :: p < n < q ==> !IsPrime(n)
  }

  ghost predicate HasNext(p: nat)
  {
    exists q: nat :: IsNext(p, q)
  }

  ghost function NextPrime(p: nat): (q: nat)
    ensures HasNext(p) ==> IsNext(p, q)
  {
    if HasNext(p) then (var q: nat :| IsNext(p, q); q) else 0
  }

  /** The t-th prime, counted from zero. */
  ghost function NthPrime(t: nat): nat
  {
    if t == 0 then 2 else NextPrime(NthPrime(t - 1))
  }

  lemma NextUnique(p: nat, q: nat, r: nat)
    requires IsNext(p, q) && IsNext(p, r)
    ensures q == r
  {
  }

  lemma FirstPrime()
    ensures NthPrime(0) == 2 && IsPrime(2) && forall n: nat :: n < 2 ==> !IsPrime(n)
  {
  }

  lemma Successive(t: nat, p: nat, q: nat)
    requires NthPrime(t) == p && 2 <= p < q < 324 && Sifted(q) && forall n :: p < n < q ==> !Sifted(n)
    ensures NthPrime(t + 1) == q
  {
    hide Sifted, IsPrime;
    SiftedIsPrime(q);
    forall n | p < n < q ensures !IsPrime(n) {
      if IsPrime(n) { PrimeIsSifted(n); }
    }
    assert IsNext(p, q);
    NextUnique(p, q, NextPrime(p));
  }


  lemma Primes0()
    ensures NthPrime(0) == 2 && NthPrime(1) == 3 && NthPrime(2) == 5 && NthPrime(3) == 7 && NthPrime(4) == 11 &&
      NthPrime(5) == 13 && NthPrime(6) == 17 && NthPrime(7) == 19 && NthPrime(8) == 23 && NthPrime(9) == 29 &&
      NthPrime(10) == 31
  {
    hide Sifted, IsPrime, NthPrime;
    Sifted2();
    FirstPrime();
    Successive(0, 2, 3);
    Successive(1, 3, 5);
    Successive(2, 5, 7);
    Successive(3, 7, 11);
    Successive(4, 11, 13);
    Successive(5, 13, 17);
    Successive(6, 17, 19);
    Successive(7, 19, 23);
    Successive(8, 23, 29);
    Successive(9, 29, 31);
  }

  lemma Primes11()
    requires NthPrime(10) == 31
    ensures NthPrime(11) == 37 && NthPrime(12) == 41 && NthPrime(13) == 43 && NthPrime(14) == 47 &&
      NthPrime(15) == 53 && NthPrime(16) == 59 && NthPrime(17) == 61
  {
    hide Sifted, IsPrime, NthPrime;
    Sifted2();
    Sifted34();
    Successive(10, 31, 37);
    Successive(11, 37, 41);
    Successive(12, 41, 43);
    Successive(13, 43, 47);
    Successive(14, 47, 53);
    Successive(15, 53, 59);
    Successive(16, 59, 61);
  }

  lemma Primes18()
    requires NthPrime(17) == 61
    ensures NthPrime(18) == 67 && NthPrime(19) == 71 && NthPrime(20) == 73 && NthPrime(21) == 79 &&
      NthPrime(22) == 83 && NthPrime(23) == 89 && NthPrime(24) == 97
  {
    hide Sifted, IsPrime, NthPrime;
    Sifted34();
    Sifted66();
    Successive(17, 61, 67);
    Successive(18, 67, 71);
    Successive(19, 71, 73);
    Successive(20, 73, 79);
    Successive(21, 79, 83);
    Successive(22, 83, 89);
    Successive(23, 89, 97);
  }

  lemma Primes25()
    requires NthPrime(24) == 97
    ensures NthPrime(25) == 101 && NthPrime(26) == 103 && NthPrime(27) == 107 && NthPrime(28) == 109 &&
      NthPrime(29) == 113 && NthPrime(30) == 127
  {
    hide Sifted, IsPrime, NthPrime;
    Sifted66();
    Sifted98();
    Successive(24, 97, 101);
    Successive(25, 101, 103);
    Successive(26, 103, 107);
    Successive(27, 107, 109);
    Successive(28, 109, 113);
    Successive(29, 113, 127);
  }

  lemma Primes31()
    requires NthPrime(30) == 127
    ensures NthPrime(31) == 131 && NthPrime(32) == 137 && NthPrime(33) == 139 && NthPrime(34) == 149 &&
      NthPrime(35) == 151 && NthPrime(36) == 157
  {
    hide Sifted, IsPrime, NthPrime;
    Sifted98();
    Sifted130();
    Successive(30, 127, 131);
    Successive(31, 131, 137);
    Successive(32, 137, 139);
    Successive(33, 139, 149);
    Successive(34, 149, 151);
    Successive(35, 151, 157);
  }

  lemma Primes37()
    requires NthPrime(36) == 157
    ensures NthPrime(37) == 163 && NthPrime(38) == 167 && NthPrime(39) == 173 && NthPrime(40) == 179 &&
      NthPrime(41) == 181 && NthPrime(42) == 191 && NthPrime(43) == 193
  {
    hide Sifted, IsPrime, NthPrime;
    Sifted130();
    Sifted162();
    Successive(36, 157, 163);
    Successive(37, 163, 167);
    Successive(38, 167, 173);
    Successive(39, 173, 179);
    Successive(40, 179, 181);
    Successive(41, 181, 191);
    Successive(42, 191, 193);
  }

  lemma Primes44()
    requires NthPrime(43) == 193
    ensures NthPrime(44) == 197 && NthPrime(45) == 199 && NthPrime(46) == 211 && NthPrime(47) == 223
  {
    hide Sifted, IsPrime, NthPrime;
    Sifted162();
    Sifted194();
    Successive(43, 193, 197);
    Successive(44, 197, 199);
    Successive(45, 199, 211);
    Successive(46, 211, 223);
  }

  lemma Primes48()
    requires NthPrime(47) == 223
    ensures NthPrime(48) == 227 && NthPrime(49) == 229 && NthPrime(50) == 233 && NthPrime(51) == 239 &&
      NthPrime(52) == 241 && NthPrime(53) == 251 && NthPrime(54) == 257
  {
    hide Sifted, IsPrime, NthPrime;
    Sifted194();
    Sifted226();
    Successive(47, 223, 227);
    Successive(48, 227, 229);
    Successive(49, 229, 233);
    Successive(50, 233, 239);
    Successive(51, 239, 241);
    Successive(52, 241, 251);
    Successive(53, 251, 257);
  }

  lemma Primes55()
    requires NthPrime(54) == 257
    ensures NthPrime(55) == 263 && NthPrime(56) == 269 && NthPrime(57) == 271 && NthPrime(58) == 277 &&
      NthPrime(59) == 281 && NthPrime(60) == 283
  {
    hide Sifted, IsPrime, NthPrime;
    Sifted226();
    Sifted258();
    Successive(54, 257, 263);
    Successive(55, 263, 269);
    Successive(56, 269, 271);
    Successive(57, 271, 277);
    Successive(58, 277, 281);
    Successive(59, 281, 283);
  }

  lemma Primes61()
    requires NthPrime(60) == 283
    ensures NthPrime(61) == 293 && NthPrime(62) == 307 && NthPrime(63) == 311
  {
    hide Sifted, IsPrime, NthPrime;
    Sifted258();
    Sifted290();
    Successive(60, 283, 293);
    Successive(61, 293, 307);
    Successive(62, 307, 311);
  }

  // ---------------------------------------------------------------- fractional bits of roots

  /** a + k / 2^32, scaled by 2^32. */
  function Fraction(a: nat, k: Word): nat { a * 0x1_0000_0000 + k as nat }

  function Cube(x: nat): nat { x * x * x }

  /** k is the first 32 fractional bits of the cube root of p. */
  ghost predicate IsCubeWord(p: nat, k: Word)
  {
    exists a: nat ::
      Cube(Fraction(a, k)) <= p * 0x1_0000_0000_0000_0000_0000_0000 < Cube(Fraction(a, k) + 1)
  }

  /** k is the first 32 fractional bits of the square root of p. */
  ghost predicate IsSquareWord(p: nat, k: Word)
  {
    exists a: nat ::
      Fraction(a, k) * Fraction(a, k) <= p * 0x1_0000_0000_0000_0000 < (Fraction(a, k) + 1) * (Fraction(a, k) + 1)
  }

  lemma CubeRoot(p: nat, k: Word, a: nat)
    requires var x := a * 0x1_0000_0000 + k as nat;
      x * x * x <= p * 0x1_0000_0000_0000_0000_0000_0000 < (x + 1) * (x + 1) * (x + 1)
    ensures IsCubeWord(p, k)
  {
    assert Fraction(a, k) == a * 0x1_0000_0000 + k as nat;
  }

  lemma SquareRoot(p: nat, k: Word, a: nat)
    requires var x := a * 0x1_0000_0000 + k as nat; x * x <= p * 0x1_0000_0000_0000_0000 < (x + 1) * (x + 1)
    ensures IsSquareWord(p, k)
  {
    assert Fraction(a, k) == a * 0x1_0000_0000 + k as nat;
  }

  lemma Cubes0()
    ensures forall t :: 0 <= t < 8 ==> IsCubeWord(NthPrime(t), RoundConstant(t))
  {
    hide NthPrime, IsCubeWord;
    AllPrimes();
    CubeRoot(2, 0x428a2f98, 1);
    CubeRoot(3, 0x71374491, 1);
    CubeRoot(5, 0xb5c0fbcf, 1);
    CubeRoot(7, 0xe9b5dba5, 1);
    CubeRoot(11, 0x3956c25b, 2);
    CubeRoot(13, 0x59f111f1, 2);
    CubeRoot(17, 0x923f82a4, 2);
    CubeRoot(19, 0xab1c5ed5, 2);
  }

  lemma Cubes8()
    ensures forall t :: 8 <= t < 16 ==> IsCubeWord(NthPrime(t), RoundConstant(t))
  {
    hide NthPrime, IsCubeWord;
    AllPrimes();
    CubeRoot(23, 0xd807aa98, 2);
    CubeRoot(29, 0x12835b01, 3);
    CubeRoot(31, 0x243185be, 3);
    CubeRoot(37, 0x550c7dc3, 3);
    CubeRoot(41, 0x72be5d74, 3);
    CubeRoot(43, 0x80deb1fe, 3);
    CubeRoot(47, 0x9bdc06a7, 3);
    CubeRoot(53, 0xc19bf174, 3);
  }

  lemma Cubes16()
    ensures forall t :: 16 <= t < 24 ==> IsCubeWord(NthPrime(t), RoundConstant(t))
  {
    hide NthPrime, IsCubeWord;
    AllPrimes();
    CubeRoot(59, 0xe49b69c1, 3);
    CubeRoot(61, 0xefbe4786, 3);
    CubeRoot(67, 0x0fc19dc6, 4);
    CubeRoot(71, 0x240ca1cc, 4);
    CubeRoot(73, 0x2de92c6f, 4);
    CubeRoot(79, 0x4a7484aa, 4);
    CubeRoot(83, 0x5cb0a9dc, 4);
    CubeRoot(89, 0x76f988da, 4);
  }

  lemma Cubes24()
    ensures forall t :: 24 <= t < 32 ==> IsCubeWord(NthPrime(t), RoundConstant(t))
  {
    hide NthPrime, IsCubeWord;
    AllPrimes();
    CubeRoot(97, 0x983e5152, 4);
    CubeRoot(101, 0xa831c66d, 4);
    CubeRoot(103, 0xb00327c8, 4);
    CubeRoot(107, 0xbf597fc7, 4);
    CubeRoot(109, 0xc6e00bf3, 4);
    CubeRoot(113, 0xd5a79147, 4);
    CubeRoot(127, 0x06ca6351, 5);
    CubeRoot(131, 0x14292967, 5);
  }

  lemma Cubes32()
    ensures forall t :: 32 <= t < 40 ==> IsCubeWord(NthPrime(t), RoundConstant(t))
  {
    hide NthPrime, IsCubeWord;
    AllPrimes();
    CubeRoot(137, 0x27b70a85, 5);
    CubeRoot(139, 0x2e1b2138, 5);
    CubeRoot(149, 0x4d2c6dfc, 5);
    CubeRoot(151, 0x53380d13, 5);
    CubeRoot(157, 0x650a7354, 5);
    CubeRoot(163, 0x766a0abb, 5);
    CubeRoot(167, 0x81c2c92e, 5);
    CubeRoot(173, 0x92722c85, 5);
  }

  lemma Cubes40()
    ensures forall t :: 40 <= t < 48 ==> IsCubeWord(NthPrime(t), RoundConstant(t))
  {
    hide NthPrime, IsCubeWord;
    AllPrimes();
    CubeRoot(179, 0xa2bfe8a1, 5);
    CubeRoot(181, 0xa81a664b, 5);
    CubeRoot(191, 0xc24b8b70, 5);
    CubeRoot(193, 0xc76c51a3, 5);
    CubeRoot(197, 0xd192e819, 5);
    CubeRoot(199, 0xd6990624, 5);
    CubeRoot(211, 0xf40e3585, 5);
    CubeRoot(223, 0x106aa070, 6);
  }

  lemma Cubes48()
    ensures forall t :: 48 <= t < 56 ==> IsCubeWord(NthPrime(t), RoundConstant(t))
  {
    hide NthPrime, IsCubeWord;
    AllPrimes();
    CubeRoot(227, 0x19a4c116, 6);
    CubeRoot(229, 0x1e376c08, 6);
    CubeRoot(233, 0x2748774c, 6);
    CubeRoot(239, 0x34b0bcb5, 6);
    CubeRoot(241, 0x391c0cb3, 6);
    CubeRoot(251, 0x4ed8aa4a, 6);
    CubeRoot(257, 0x5b9cca4f, 6);
    CubeRoot(263, 0x682e6ff3, 6);
  }

  lemma Cubes56()
    ensures forall t :: 56 <= t < 64 ==> IsCubeWord(NthPrime(t), RoundConstant(t))
  {
    hide NthPrime, IsCubeWord;
    AllPrimes();
    CubeRoot(269, 0x748f82ee, 6);
    CubeRoot(271, 0x78a5636f, 6);
    CubeRoot(277, 0x84c87814, 6);
    CubeRoot(281, 0x8cc70208, 6);
    CubeRoot(283, 0x90befffa, 6);
    CubeRoot(293, 0xa4506ceb, 6);
    CubeRoot(307, 0xbef9a3f7, 6);
    CubeRoot(311, 0xc67178f2, 6);
  }

  lemma AllPrimes()
    ensures NthPrime(0) == 2 && NthPrime(1) == 3 && NthPrime(2) == 5 && NthPrime(3) == 7
    ensures NthPrime(4) == 11 && NthPrime(5) == 13 && NthPrime(6) == 17 && NthPrime(7) == 19
    ensures NthPrime(8) == 23 && NthPrime(9) == 29 && NthPrime(10) == 31 && NthPrime(11) == 37
    ensures NthPrime(12) == 41 && NthPrime(13) == 43 && NthPrime(14) == 47 && NthPrime(15) == 53
    ensures NthPrime(16) == 59 && NthPrime(17) == 61 && NthPrime(18) == 67 && NthPrime(19) == 71
    ensures NthPrime(20) == 73 && NthPrime(21) == 79 && NthPrime(22) == 83 && NthPrime(23) == 89
    ensures NthPrime(24) == 97 && NthPrime(25) == 101 && NthPrime(26) == 103 && NthPrime(27) == 107
    ensures NthPrime(28) == 109 && NthPrime(29) == 113 && NthPrime(30) == 127 && NthPrime(31) == 131
    ensures NthPrime(32) == 137 && NthPrime(33) == 139 && NthPrime(34) == 149 && NthPrime(35) == 151
    ensures NthPrime(36) == 157 && NthPrime(37) == 163 && NthPrime(38) == 167 && NthPrime(39) == 173
    ensures NthPrime(40) == 179 && NthPrime(41) == 181 && NthPrime(42) == 191 && NthPrime(43) == 193
    ensures NthPrime(44) == 197 && NthPrime(45) == 199 && NthPrime(46) == 211 && NthPrime(47) == 223
    ensures NthPrime(48) == 227 && NthPrime(49) == 229 && NthPrime(50) == 233 && NthPrime(51) == 239
    ensures NthPrime(52) == 241 && NthPrime(53) == 251 && NthPrime(54) == 257 && NthPrime(55) == 263
    ensures NthPrime(56) == 269 && NthPrime(57) == 271 && NthPrime(58) == 277 && NthPrime(59) == 281
    ensures NthPrime(60) == 283 && NthPrime(61) == 293 && NthPrime(62) == 307 && NthPrime(63) == 311
  {
    hide NthPrime;
    Primes0();
    Primes11();
    Primes18();
    Primes25();
    Primes31();
    Primes37();
    Primes44();
    Primes48();
    Primes55();
    Primes61();
  }

  /** Every round constant: the first 32 fractional bits of the cube root of its prime. */
  lemma RoundConstants(t: nat)
    requires t < 64
    ensures IsCubeWord(NthPrime(t), RoundConstant(t))
  {
    hide NthPrime, IsCubeWord, RoundConstant;
    Cubes0();
    Cubes8();
    Cubes16();
    Cubes24();
    Cubes32();
    Cubes40();
    Cubes48();
    Cubes56();
  }

  /** The initial state: the first 32 fractional bits of the square roots of the first eight primes. */
  lemma InitialState()
    ensures IsSquareWord(NthPrime(0), INITIAL.a)
    ensures IsSquareWord(NthPrime(1), INITIAL.b)
    ensures IsSquareWord(NthPrime(2), INITIAL.c)
    ensures IsSquareWord(NthPrime(3), INITIAL.d)
    ensures IsSquareWord(NthPrime(4), INITIAL.e)
    ensures IsSquareWord(NthPrime(5), INITIAL.f)
    ensures IsSquareWord(NthPrime(6), INITIAL.g)
    ensures IsSquareWord(NthPrime(7), INITIAL.h)
  {
    hide NthPrime, IsSquareWord;
    Primes0();
    SquareRoot(2, 0x6a09e667, 1);
    SquareRoot(3, 0xbb67ae85, 1);
    SquareRoot(5, 0x3c6ef372, 2);
    SquareRoot(7, 0xa54ff53a, 2);
    SquareRoot(11, 0x510e527f, 3);
    SquareRoot(13, 0x9b05688c, 3);
    SquareRoot(17, 0x1f83d9ab, 4);
    SquareRoot(19, 0x5be0cd19, 4);
  }
}
