/** Positional notation with preserved leading zeros, and Base58 as its instance. */
module Base58 {
  import opened Options
  import opened Nonlinear
  import opened Bits

  type Octet = x: int | 0 <= x < 256
  type Bytes = seq<Octet>

  // ----------------------------------------------------------------- positional notation

  predicate Digits(base: nat, ds: seq<nat>) { forall i :: 0 <= i < |ds| ==> ds[i] < base }

  /** Big-endian value. */
  function ToNat(base: nat, ds: seq<nat>): nat
  {
    if ds == [] then 0 else ToNat(base, ds[..|ds| - 1]) * base + ds[|ds| - 1]
  }

  /** Big-endian digits without leading zeros. */
  function ToDigits(base: nat, n: nat): (ds: seq<nat>)
    requires base >= 2
    ensures Digits(base, ds)
    ensures ds != [] ==> ds[0] != 0
    ensures ds == [] <==> n == 0
    decreases n
  {
    if n == 0 then [] else Shrinks(base, n); ToDigits(base, n / base) + [n % base]
  }

  lemma Shrinks(base: nat, n: nat)
    requires base >= 2 && n > 0
    ensures 0 <= n / base < n && 0 <= n % base < base && n == (n / base) * base + n % base
  {
    var q := n / base;
    assert n == base * q + n % base;
    if q >= n { MulLe(base, n, q); }
    if q < 0 { MulLe(base, q, -1); }
  }

  lemma {:induction false} ValueOfDigits(base: nat, n: nat)
    requires base >= 2
    ensures ToNat(base, ToDigits(base, n)) == n
    decreases n
  {
    if n > 0 {
      Shrinks(base, n);
      ValueOfDigits(base, n / base);
      var ds := ToDigits(base, n);
      assert ds[..|ds| - 1] == ToDigits(base, n / base);
    }
  }

  lemma AppendDigit(base: nat, q: nat, r: nat)
    requires base >= 2 && r < base && (q > 0 || r > 0)
    ensures ToDigits(base, q * base + r) == ToDigits(base, q) + [r]
  {
    var n := q * base + r;
    MulLe(base, 0, q);
    if q > 0 { MulLe(base, 1, q); }
    DivModUnique(n, base, q, r);
  }

  /** Digits that do not start with zero are the ones recovered from their value. */
  lemma {:induction false} DigitsOfValue(base: nat, ds: seq<nat>)
    requires base >= 2 && Digits(base, ds) && (ds == [] || ds[0] != 0)
    ensures ToDigits(base, ToNat(base, ds)) == ds
  {
    hide ToDigits, ToNat;
    NoDigits(base);
    if ds != [] {
      var init, last := ds[..|ds| - 1], ds[|ds| - 1];
      assert ds == init + [last];
      assert init == [] || init[0] == ds[0];
      DigitsOfValue(base, init);
      AppendValue(base, ds);
      AppendDigit(base, ToNat(base, init), last);
    }
  }

  lemma AppendValue(base: nat, ds: seq<nat>)
    requires ds != []
    ensures ToNat(base, ds) == ToNat(base, ds[..|ds| - 1]) * base + ds[|ds| - 1]
  {
  }

  lemma NoDigits(base: nat)
    requires base >= 2
    ensures ToDigits(base, 0) == [] && ToNat(base, []) == 0
  {
  }

  function Zeros(k: nat): (z: seq<nat>)
    ensures |z| == k
  {
    seq(k, _ => 0)
  }

  function LeadingZeros(ds: seq<nat>): (k: nat)
    ensures k <= |ds| && ds[..k] == Zeros(k) && (k == |ds| || ds[k] != 0)
  {
    if ds == [] || ds[0] != 0 then 0
    else
      var k := LeadingZeros(ds[1..]);
      assert ds[..k + 1] == [ds[0]] + ds[1..][..k];
      1 + k
  }

  lemma {:induction false} ZerosDropOut(base: nat, k: nat, ds: seq<nat>)
    ensures ToNat(base, Zeros(k) + ds) == ToNat(base, ds)
    decreases |ds|, k
  {
    var all := Zeros(k) + ds;
    if ds == [] {
      assert all == Zeros(k);
      if k > 0 {
        assert all[..k - 1] == Zeros(k - 1) + [];
        ZerosDropOut(base, k - 1, []);
      }
    } else {
      assert all[..|all| - 1] == Zeros(k) + ds[..|ds| - 1];
      ZerosDropOut(base, k, ds[..|ds| - 1]);
    }
  }

  lemma {:induction false} LeadingZerosIs(k: nat, ds: seq<nat>)
    requires ds == [] || ds[0] != 0
    ensures LeadingZeros(Zeros(k) + ds) == k
  {
    var all := Zeros(k) + ds;
    if k == 0 {
      assert all == ds;
    } else {
      assert all[1..] == Zeros(k - 1) + ds;
      LeadingZerosIs(k - 1, ds);
    }
  }

  /** Change of base, one leading zero for each leading zero. */
  function Convert(from: nat, to: nat, ds: seq<nat>): (r: seq<nat>)
    requires to >= 2
    ensures Digits(to, r)
  {
    Zeros(LeadingZeros(ds)) + ToDigits(to, ToNat(from, ds))
  }

  /** Changing base and back is the identity, leading zeros included. */
  lemma ConvertBack(from: nat, to: nat, ds: seq<nat>)
    requires from >= 2 && to >= 2 && Digits(from, ds)
    ensures Convert(to, from, Convert(from, to, ds)) == ds
  {
    hide ToNat, ToDigits;
    var k := LeadingZeros(ds);
    var core := ds[k..];
    assert ds == Zeros(k) + core;
    ZerosDropOut(from, k, core);
    var n := ToNat(from, core);
    var out := ToDigits(to, n);
    LeadingZerosIs(k, out);
    ZerosDropOut(to, k, out);
    ValueOfDigits(to, n);
    DigitsOfValue(from, core);
  }

  // --------------------------------------------------------------------------- alphabet

  /** The 58 characters in order: digits and letters without 0, I, O and l. */
  function CharOf(d: nat): (c: char)
    requires d < 58
  {
    if d < 9 then '1' + d as char
    else if d < 17 then 'A' + (d - 9) as char
    else if d < 22 then 'J' + (d - 17) as char
    else if d < 33 then 'P' + (d - 22) as char
    else if d < 44 then 'a' + (d - 33) as char
    else 'm' + (d - 44) as char
  }

  function DigitOf(c: char): (r: Option<nat>)
    ensures r.Some? ==> r.value < 58
  {
    if '1' <= c <= '9' then Some((c - '1') as nat)
    else if 'A' <= c <= 'H' then Some((c - 'A') as nat + 9)
    else if 'J' <= c <= 'N' then Some((c - 'J') as nat + 17)
    else if 'P' <= c <= 'Z' then Some((c - 'P') as nat + 22)
    else if 'a' <= c <= 'k' then Some((c - 'a') as nat + 33)
    else if 'm' <= c <= 'z' then Some((c - 'm') as nat + 44)
    else None
  }

  lemma AlphabetInverse(d: nat, c: char)
    ensures d < 58 ==> DigitOf(CharOf(d)) == Some(d)
    ensures DigitOf(c).Some? ==> CharOf(DigitOf(c).value) == c
    ensures DigitOf(c) == Some(0) <==> c == '1'
  {
  }

  /** The alphabet is in character order. */
  lemma AlphabetOrder(d: nat, e: nat)
    requires d < e < 58
    ensures CharOf(d) < CharOf(e)
  {
  }

  /** Accepted are exactly the alphanumeric characters other than 0, I, O and l. */
  lemma AlphabetExactly(c: char)
    ensures DigitOf(c).Some?
       <==> ('0' <= c <= '9' || 'A' <= c <= 'Z' || 'a' <= c <= 'z') && c !in {'0', 'I', 'O', 'l'}
  {
  }

  function Chars(ds: seq<nat>): (s: string)
    requires Digits(58, ds)
    ensures |s| == |ds|
  {
    seq(|ds|, i requires 0 <= i < |ds| => CharOf(ds[i]))
  }

  predicate IsBase58(s: string) { forall i :: 0 <= i < |s| ==> DigitOf(s[i]).Some? }

  function Values(s: string): (ds: seq<nat>)
    requires IsBase58(s)
    ensures |ds| == |s| && Digits(58, ds)
  {
    seq(|s|, i requires 0 <= i < |s| => DigitOf(s[i]).value)
  }

  lemma CharsInverse(ds: seq<nat>)
    requires Digits(58, ds)
    ensures IsBase58(Chars(ds)) && Values(Chars(ds)) == ds
  {
    hide CharOf, DigitOf;
    forall i | 0 <= i < |ds| ensures DigitOf(Chars(ds)[i]) == Some(ds[i]) { AlphabetInverse(ds[i], '1'); }
  }

  lemma ValuesInverse(s: string)
    requires IsBase58(s)
    ensures Chars(Values(s)) == s
  {
    hide CharOf, DigitOf;
    forall i | 0 <= i < |s| ensures CharOf(DigitOf(s[i]).value) == s[i] { AlphabetInverse(0, s[i]); }
  }

  // ------------------------------------------------------------------ encode and decode

  function Naturals(raw: Bytes): (ds: seq<nat>)
    ensures |ds| == |raw| && Digits(256, ds)
  {
    seq(|raw|, i requires 0 <= i < |raw| => raw[i])
  }

  function Octets(ds: seq<nat>): (raw: Bytes)
    requires Digits(256, ds)
    ensures |raw| == |ds|
  {
    seq(|ds|, i requires 0 <= i < |ds| => ds[i])
  }

  lemma OctetsInverse(raw: Bytes, ds: seq<nat>)
    ensures Octets(Naturals(raw)) == raw
    ensures Digits(256, ds) ==> Naturals(Octets(ds)) == ds
  {
  }

  function Encode(raw: Bytes): (s: string)
  {
    Chars(Convert(256, 58, Naturals(raw)))
  }

  function Decode(s: string): (raw: Option<Bytes>)
    ensures raw.Some? <==> IsBase58(s)
  {
    if IsBase58(s) then Some(Octets(Convert(58, 256, Values(s)))) else None
  }

  /** Every byte string survives, leading zeros included. */
  lemma DecodeEncode(raw: Bytes)
    ensures Decode(Encode(raw)) == Some(raw)
  {
    hide Convert, Chars, IsBase58, Values, Digits, Naturals, Octets;
    var ds := Naturals(raw);
    CharsInverse(Convert(256, 58, ds));
    ConvertBack(256, 58, ds);
    OctetsInverse(raw, ds);
  }

  /** Every string over the alphabet is the encoding of what it decodes to. */
  lemma EncodeDecode(s: string)
    requires IsBase58(s)
    ensures Encode(Decode(s).value) == s
  {
    hide Convert, Chars, IsBase58, Values, Digits, Naturals, Octets;
    var ds := Values(s);
    OctetsInverse([], Convert(58, 256, ds));
    ConvertBack(58, 256, ds);
    ValuesInverse(s);
  }

  // ------------------------------------------------------------------------ the programs

  method CountLeading(ds: seq<nat>) returns (k: nat)
    ensures k == LeadingZeros(ds)
  {
    k := 0;
    while k < |ds| && ds[k] == 0
      invariant k <= |ds| && ds[..k] == Zeros(k)
    {
      assert ds[..k + 1] == ds[..k] + [0];
      k := k + 1;
    }
    assert ds == Zeros(k) + ds[k..];
    LeadingZerosIs(k, ds[k..]);
  }

  /** `base58_encode`: repeated division, reversed. */
  method EncodeLoop(raw: Bytes) returns (s: string)
    ensures s == Encode(raw)
  {
    hide ToNat, CharOf, LeadingZeros;
    var ds := Naturals(raw);
    var zeroes := CountLeading(ds);
    var number := FromBytes(ds);
    ghost var n := number;
    var encoded: seq<nat> := [];
    while number > 0
      invariant Digits(58, encoded)
      invariant ToDigits(58, n) == ToDigits(58, number) + Reverse(encoded)
      decreases number
    {
      Shrinks(58, number);
      ghost var before := number;
      var remainder := number % 58;
      number := number / 58;
      ReverseSnoc(encoded, remainder);
      assert ToDigits(58, before) + Reverse(encoded) == ToDigits(58, number) + ([remainder] + Reverse(encoded));
      encoded := encoded + [remainder];
    }
    ReverseDigits(encoded);
    assert [] + Reverse(encoded) == Reverse(encoded);
    s := Chars(Zeros(zeroes) + Reverse(encoded));
  }

  function Reverse(ds: seq<nat>): (r: seq<nat>)
    ensures |r| == |ds|
  {
    seq(|ds|, i requires 0 <= i < |ds| => ds[|ds| - 1 - i])
  }

  lemma ReverseSnoc(ds: seq<nat>, d: nat)
    ensures Reverse(ds + [d]) == [d] + Reverse(ds)
  {
  }

  lemma ReverseDigits(ds: seq<nat>)
    requires Digits(58, ds)
    ensures Digits(58, Reverse(ds))
  {
  }

  /** `int.from_bytes(raw, "big")`. */
  method FromBytes(ds: seq<nat>) returns (n: nat)
    ensures n == ToNat(256, ds)
  {
    n := 0;
    for i := 0 to |ds|
      invariant n == ToNat(256, ds[..i])
    {
      assert ds[..i + 1][..i] == ds[..i];
      n := n * 256 + ds[i];
    }
    assert ds[..|ds|] == ds;
  }

  /** The byte count the decoder asks for is exactly the number of base-256 digits. */
  lemma {:induction false} ByteCount(n: nat)
    ensures (BitLength(n) + 7) / 8 == |ToDigits(256, n)|
    decreases n
  {
    if n >= 256 {
      ByteCount(n / 256);
      EightBits(n);
    } else if n > 0 {
      ShortLength(n);
      assert n / 256 == 0;
      assert ToDigits(256, 0) == [];
    }
  }

  lemma TwoBits(n: nat)
    requires n >= 4
    ensures BitLength(n) == 2 + BitLength(n / 4)
  {
    hide BitLength;
    HalfBit(n);
    HalfBit(n / 2);
    assert n / 2 / 2 == n / 4;
  }

  lemma FourBits(n: nat)
    requires n >= 16
    ensures BitLength(n) == 4 + BitLength(n / 16)
  {
    hide BitLength;
    TwoBits(n);
    TwoBits(n / 4);
    assert n / 4 / 4 == n / 16;
  }

  lemma EightBits(n: nat)
    requires n >= 256
    ensures BitLength(n) == 8 + BitLength(n / 256)
  {
    hide BitLength;
    FourBits(n);
    FourBits(n / 16);
    assert n / 16 / 16 == n / 256;
  }

  lemma HalfBit(n: nat)
    requires n > 0
    ensures BitLength(n) == 1 + BitLength(n / 2)
  {
  }

  lemma {:induction false} BitLengthAtMost(n: nat, k: nat)
    requires n < Pow2(k)
    ensures BitLength(n) <= k
  {
    if n > 0 { BitLengthAtMost(n / 2, k - 1); }
  }

  lemma ShortLength(n: nat)
    requires 0 < n < 256
    ensures 1 <= BitLength(n) <= 8
  {
    assert Pow2(8) == 256;
    BitLengthAtMost(n, 8);
  }

  /** `int.to_bytes(length, "big")`. */
  method ToBytes(n: nat, length: nat) returns (ds: seq<nat>)
    requires length == |ToDigits(256, n)|
    ensures ds == ToDigits(256, n)
  {
    ds := [];
    var rest := n;
    for i := 0 to length
      invariant ToDigits(256, n) == ToDigits(256, rest) + ds && |ds| == i
    {
      Shrinks(256, if rest == 0 then 1 else rest);
      assert ToDigits(256, rest) + ds == ToDigits(256, rest / 256) + ([rest % 256] + ds);
      ds := [rest % 256] + ds;
      rest := rest / 256;
    }
  }

  /** `base58_decode`; None where the original fails on a foreign character. */
  method DecodeLoop(s: string) returns (raw: Option<Bytes>)
    ensures raw == Decode(s)
  {
    hide DigitOf, LeadingZeros, BitLength;
    var number := 0;
    for i := 0 to |s|
      invariant IsBase58(s[..i]) && number == ToNat(58, Values(s[..i]))
    {
      var digit := DigitOf(s[i]);
      if digit.None? { return None; }
      assert Values(s[..i + 1])[..i] == Values(s[..i]);
      number := number * 58 + digit.value;
    }
    assert s[..|s|] == s;
    ByteCount(number);
    var bytes := ToBytes(number, (BitLength(number) + 7) / 8);
    var zeroes := CountLeading(Values(s));
    raw := Some(Octets(Zeros(zeroes) + bytes));
  }
}
