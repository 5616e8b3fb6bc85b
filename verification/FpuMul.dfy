/** FMUL.D: the digit-serial 53-bit multiplier, and the rounding of its 106-bit product. */
module FpuMul {
  import opened Bits
  import opened Ieee
  import opened FpuBus

  // ------------------------------------------------------------------ rounding the product

  /** The exact product of the magnitudes, in units of 2^-2200: the significands' product weighted. */
  ghost function ScaledProduct(A: F64, B: F64): nat {
    A.Significand() * B.Significand() * Pow2(A.Scale() + B.Scale() + 52)
  }

  /** k is the correctly rounded code of the exact product of two finite magnitudes, which is
      Mag(A) * Mag(B) / 2^1074 in units of 2^-1074. */
  ghost predicate RoundsProduct(A: F64, B: F64, k: nat) {
    IsRne(Mag(A.Code()) * Mag(B.Code()), Pow2(1074), k)
  }

  /** expAlign: the exponent of the normalised product. */
  function AlignExponent(A: F64, B: F64, lz: nat): int {
    var expAB := A.exp + B.exp - 1023;
    if lz == 0x7F then expAB + 1
    else if A.exp == 0 || B.exp == 0 then expAB - lz + 1
    else expAB - lz
  }

  /** Operand pairs FMUL.D rounds wrongly. A result below the normal range is cut before it is
      rounded, and the carry into the smallest normal number is dropped; in the normal range only the
      lowest bit of an odd product with a carry into bit 105 can be missed. */
  ghost predicate LosesProduct(A: F64, B: F64) {
    var n, y := A.Significand() * B.Significand(), ScaledProduct(A, B);
    if y < Pow2(1178) then
      var p := y / Pow2(1074);
      || (Tie(p) && y % Pow2(1074) != 0 && RoundUp(p) == 0)
      || p / 0x10_0000_0000_0000 + RoundUp(p) == 0x10_0000_0000_0000
    else
      && y < Pow2(3224) && n >= 0x200_0000_0000_0000_0000_0000_0000
      && n % 2 == 1 && Tie(n / 2) && RoundUp(n / 2) == 0
  }

  /** Below the normal range the post-shifted window is the scaled product cut at the subnormal unit. */
  lemma SubnormalCut(n: nat, k: nat, s: nat, lz: nat, y: nat)
    requires y == n * Pow2(k) && lz + 1074 == k + s
    ensures n * Pow2(lz) / Pow2(s) == y / Pow2(1074)
    ensures n * Pow2(lz) % Pow2(s) == 0 <==> y % Pow2(1074) == 0
  {
    hide Pow2;
    ShiftShift(n, lz, 1074);
    ShiftShift(n, k, s);
    CrossDiv(n * Pow2(lz), Pow2(s), y, Pow2(1074));
  }

  lemma SubnormalCutOver(n: nat, k: nat, s: nat, y: nat)
    requires y == n * Pow2(k) && 1073 == k + s
    ensures n / 2 / Pow2(s) == y / Pow2(1074)
  {
    hide Pow2;
    Pow2Values();
    SubnormalCut(n, k, s + 1, 0, y);
    Pow2Next(s);
    DivDiv(n, 2, Pow2(s));
  }

  // ------------------------------------------------------------------ the result fields

  function ProductExp(x: int, p: nat, zero: bool): nat {
    var mantOnes := if p / 0x10_0000_0000_0000 == 0x1F_FFFF_FFFF_FFFF then 1 else 0;
    if x < 0 || zero then 0 else if x >= 0x7FF then 0x7FF else x + And(mantOnes, RoundUp(p))
  }

  function ProductMant(x: int, p: nat): nat {
    if x >= 0x7FF then 0 else (p / 0x10_0000_0000_0000 + RoundUp(p)) % 0x10_0000_0000_0000
  }

  function ProductCode(x: int, p: nat, zero: bool): nat {
    ProductExp(x, p, zero) * 0x10_0000_0000_0000 + ProductMant(x, p)
  }

  /** The carry out of an all-ones mantissa lands in the exponent field. */
  lemma ProductNormal(x: int, p: nat)
    requires 1 <= x < 0x7FF
    requires 0x100_0000_0000_0000_0000_0000_0000 <= p < 0x200_0000_0000_0000_0000_0000_0000
    ensures ProductCode(x, p, false) == WindowCode(x - 1, p)
  {
    var m := p / 0x10_0000_0000_0000 + RoundUp(p);
    if m == 0x20_0000_0000_0000 {
    } else {
      assert m % 0x10_0000_0000_0000 == m - 0x10_0000_0000_0000;
    }
  }

  /** Below the normal range the exponent field stays zero, so a carry into it is lost. */
  lemma ProductSubnormal(x: int, p: nat)
    requires x <= 0 && p < 0x100_0000_0000_0000_0000_0000_0000
    ensures var r := p / 0x10_0000_0000_0000 + RoundUp(p);
      && WindowCode(0, p) == r <= 0x10_0000_0000_0000
      && ProductCode(x, p, false) == if r == 0x10_0000_0000_0000 then 0 else r
  {
    var r := p / 0x10_0000_0000_0000 + RoundUp(p);
    if r < 0x10_0000_0000_0000 { ModSmall(r, 0x10_0000_0000_0000); }
  }

  /** A product below the normal range. */
  lemma SubnormalProduct(num: nat, y: nat, x: int, p: nat)
    requires y == num * 0x10_0000_0000_0000 && y < Pow2(1178) && p == y / Pow2(1074) && x <= 0
    ensures IsRne(num, Pow2(1074), ProductCode(x, p, false)) <==>
      !((Tie(p) && y % Pow2(1074) != 0 && RoundUp(p) == 0)
        || p / 0x10_0000_0000_0000 + RoundUp(p) == 0x10_0000_0000_0000)
  {
    hide Pow2, Mag, IsRne, RoundUp, Tie, WindowCode, ProductCode;
    Pow2Values();
    Pow2Add(104, 1074);
    CutRounds(num, Pow2(1074), y, p);
    ProductSubnormal(x, p);
    if p / 0x10_0000_0000_0000 + RoundUp(p) == 0x10_0000_0000_0000 {
      CarryNotZero(num, Pow2(1074), y, p);
    }
  }

  /** A product in the normal range, without and with a carry into bit 105. */
  lemma NormalProduct(num: nat, n: nat, lz: nat, x: int, p: nat)
    requires 1 <= x < 0x7FF && p == n * Pow2(lz) && lz <= 104
    requires 0x100_0000_0000_0000_0000_0000_0000 <= p < 0x200_0000_0000_0000_0000_0000_0000
    requires num * 0x10_0000_0000_0000 == p * Pow2(x - 1) * Pow2(1074)
    ensures IsRne(num, Pow2(1074), ProductCode(x, p, false))
  {
    hide Pow2, Mag, IsRne, RoundUp, Tie;
    Associate(p, Pow2(x - 1), Pow2(1074));
    var u := Unit(x - 1, Pow2(1074));
    assert (p + 1) * u == p * u + u;
    ProductNormal(x, p);
    hide Unit;
    RoundFromBelow(num, Pow2(1074), p, 1, x - 1);
  }

  lemma OverProduct(num: nat, n: nat, x: int)
    requires 1 <= x < 0x7FF && 0x200_0000_0000_0000_0000_0000_0000 <= n < 0x400_0000_0000_0000_0000_0000_0000
    requires num * 0x10_0000_0000_0000 == n * Pow2(x + 1072)
    ensures IsRne(num, Pow2(1074), ProductCode(x, n / 2, false)) <==> !(n % 2 == 1 && Tie(n / 2) && RoundUp(n / 2) == 0)
  {
    hide Pow2, Mag, IsRne, RoundUp, Tie;
    Pow2Add(x - 1, 1074);
    Pow2Next(x + 1072);
    assert Unit(x - 1, Pow2(1074)) == 2 * Pow2(x + 1072);
    HalfWindow(num * 0x10_0000_0000_0000, n, Pow2(x + 1072), 0);
    ProductNormal(x, n / 2);
    hide Unit;
    RoundFromBelow(num, Pow2(1074), n / 2, 1, x - 1);
  }

  /** A product from 2^1024 on becomes infinity. */
  lemma InfiniteProduct(num: nat, x: int, p: nat)
    requires x >= 0x7FF && p != 0 && Pow2(3224) <= num * 0x10_0000_0000_0000
    ensures IsRne(num, Pow2(1074), ProductCode(x, p, false))
  {
    hide Pow2, Mag, IsRne, RoundUp, Tie;
    Pow2Values();
    MagNormal(0x7FE, 0);
    ShiftShift(0x10_0000_0000_0000, 0x7FE, 1074);
    Pow2Add(104, 3120);
    RneOverflow(num, Pow2(1074));
  }

  // ------------------------------------------------------------------ the multiplier

  /** Radix-16 digit k of b. */
  function Digit(b: nat, k: nat): (d: nat)
    ensures d < 16
  {
    b / Pow2(4 * k) % 16
  }

  /** Partial product k in its place. */
  ghost function Shifted(a: nat, b: nat, k: nat): nat {
    a * Digit(b, k) * Pow2(4 * k)
  }

  /** The sums the two adder loops have formed after i partial products: the low 57 bits of each
      shifted product, and the rest. */
  ghost function LowSum(a: nat, b: nat, i: nat): (s: nat)
    ensures s <= i * 0x1FF_FFFF_FFFF_FFFF
  {
    if i == 0 then 0
    else LowSum(a, b, i - 1) + Shifted(a, b, i - 1) % 0x200_0000_0000_0000
  }

  ghost function HighSum(a: nat, b: nat, i: nat): nat
  {
    if i == 0 then 0
    else HighSum(a, b, i - 1) + Shifted(a, b, i - 1) / 0x200_0000_0000_0000
  }

  /** Splitting the partial products at bit 57 loses nothing. */
  lemma {:induction false} SplitSums(a: nat, b: nat, i: nat)
    ensures LowSum(a, b, i) + 0x200_0000_0000_0000 * HighSum(a, b, i) == a * (b % Pow2(4 * i))
  {
    if i == 0 {
      assert Pow2(0) == 1;
    } else {
      SplitSums(a, b, i - 1);
      hide Digit, Pow2, Shifted;
      ShiftedStep(a, b, i - 1);
    }
  }

  lemma ShiftedStep(a: nat, b: nat, k: nat)
    ensures a * (b % Pow2(4 * (k + 1))) == a * (b % Pow2(4 * k)) + Shifted(a, b, k)
  {
    hide Digit, Pow2;
    DigitStep(b, k);
    var d, w, m := Digit(b, k), Pow2(4 * k), b % Pow2(4 * k);
    assert a * (m + d * w) == a * m + a * d * w;
  }

  lemma DigitStep(b: nat, k: nat)
    ensures b % Pow2(4 * (k + 1)) == b % Pow2(4 * k) + Digit(b, k) * Pow2(4 * k)
  {
    hide Pow2;
    var w := Pow2(4 * k);
    Pow2Next(4 * k); Pow2Next(4 * k + 1); Pow2Next(4 * k + 2); Pow2Next(4 * k + 3);
    assert Pow2(4 * (k + 1)) == 16 * w;
    NextDigit(b, w);
  }

  lemma NextDigit(b: nat, w: nat)
    requires w > 0
    ensures b % (16 * w) == b % w + b / w % 16 * w
  {
    var q, r := b / w, b % w;
    DivNat(b, w);
    var t, d := q / 16, q % 16;
    DigitTerms(b, w, q, r, t, d);
    DivUnique(b, 16 * w, t, d * w + r);
  }

  lemma DigitTerms(b: int, w: int, q: int, r: int, t: int, d: int)
    requires b == w * q + r && 0 <= r < w && q == 16 * t + d && 0 <= d < 16
    ensures b == (16 * w) * t + (d * w + r) && 0 <= d * w + r < 16 * w
  {
    assert w * (16 * t + d) == (16 * w) * t + d * w;
    MulMono(w, d, 15);
    MulMono(w, 0, d);
  }

  /** rbPart[i] >> (57 - 4*i) is the part of the shifted product above bit 57. */
  lemma HighPart(x: nat, i: nat)
    requires i < 14
    ensures x / Pow2(57 - 4 * i) == x * Pow2(4 * i) / 0x200_0000_0000_0000
  {
    hide Pow2;
    Pow2Add(57 - 4 * i, 4 * i);
    Pow2Next(53); Pow2Next(54); Pow2Next(55); Pow2Next(56);
    Pow2Values();
    var a, w := Pow2(57 - 4 * i), Pow2(4 * i);
    assert x * w * a == x * (w * a) && w * a == 0x200_0000_0000_0000;
    CrossDiv(x, a, x * w, 0x200_0000_0000_0000);
  }

  lemma Multiples(mux: seq<nat>, A: nat, d: nat)
    requires d < 16 && mux == [0, A, 2 * A, 3 * A, 4 * A, 5 * A, 6 * A, 7 * A,
      8 * A, 9 * A, 10 * A, 11 * A, 12 * A, 13 * A, 14 * A, 15 * A]
    ensures mux[d] == A * d
  {
    if d < 4 {
      if d == 0 {} else if d == 1 {} else if d == 2 {} else {}
    } else if d < 8 {
      if d == 4 {} else if d == 5 {} else if d == 6 {} else {}
    } else if d < 12 {
      if d == 8 {} else if d == 9 {} else if d == 10 {} else {}
    } else {
      if d == 12 {} else if d == 13 {} else if d == 14 {} else {}
    }
  }

  /** The sixteen multiples of A and their selection by the digits of B. */
  method PartialProducts(A: nat, B: nat) returns (rbPart: array<nat>)
    requires A < 0x20_0000_0000_0000 && B < 0x20_0000_0000_0000
    ensures fresh(rbPart) && rbPart.Length == 14
    ensures forall i | 0 <= i < 14 :: rbPart[i] == A * Digit(B, i)
  {
    hide Digit, Pow2;
    var rbMux := new nat[16] [
      0, A, A * 2, A * 2 + A,
      A * 4, A * 4 + A, A * 4 + A * 2, A * 4 + A * 2 + A,
      A * 8, A * 8 + A, A * 8 + A * 2, A * 8 + A * 2 + A,
      A * 8 + A * 4, A * 8 + A * 4 + A, A * 8 + A * 4 + A * 2, A * 16 - A
    ];
    forall d: nat | d < 16
      ensures rbMux[d] == A * d
    {
      Multiples(rbMux[..], A, d);
    }

    rbPart := new nat[14] [
      rbMux[Digit(B, 0)], rbMux[Digit(B, 1)], rbMux[Digit(B, 2)], rbMux[Digit(B, 3)],
      rbMux[Digit(B, 4)], rbMux[Digit(B, 5)], rbMux[Digit(B, 6)], rbMux[Digit(B, 7)],
      rbMux[Digit(B, 8)], rbMux[Digit(B, 9)], rbMux[Digit(B, 10)], rbMux[Digit(B, 11)],
      rbMux[Digit(B, 12)], rbMux[Digit(B, 13)]
    ];
  }

  /** The carry-split adder: two 64-bit words that together hold A * B. */
  method SumPartials(A: nat, B: nat, rbPart: array<nat>) returns (lSumLsb: nat, lSumMsb: nat)
    requires B < 0x20_0000_0000_0000 && rbPart.Length == 14
    requires forall i | 0 <= i < 14 :: rbPart[i] == A * Digit(B, i)
    ensures lSumLsb < 0x1_0000_0000_0000_0000
    ensures lSumLsb + 0x1_0000_0000_0000_0000 * lSumMsb == A * B
  {
    hide Digit, Pow2, Shifted;
    var lCarryLsb: nat;
    lSumLsb, lCarryLsb := SumLow(A, B, rbPart);
    lSumMsb := lCarryLsb;
    lSumLsb := lSumLsb % 0x200_0000_0000_0000;
    for i := 0 to 14
      invariant lSumMsb == LowSum(A, B, 14) / 0x200_0000_0000_0000 + HighSum(A, B, i)
    {
      ShiftedIs(A, B, i, rbPart[i]);
      HighPart(rbPart[i], i);
      lSumMsb := lSumMsb + rbPart[i] / Pow2(57 - 4 * i);
    }
    Reassemble(A, B, lSumLsb, lSumMsb);
    lSumLsb := lSumLsb + lSumMsb * 0x200_0000_0000_0000 % 0x1_0000_0000_0000_0000;
    lSumMsb := lSumMsb / 0x80;
  }

  method SumLow(A: nat, B: nat, rbPart: array<nat>) returns (lSumLsb: nat, lCarryLsb: nat)
    requires rbPart.Length == 14
    requires forall i | 0 <= i < 14 :: rbPart[i] == A * Digit(B, i)
    ensures lSumLsb == LowSum(A, B, 14) && lCarryLsb == lSumLsb / 0x200_0000_0000_0000
  {
    hide Digit, Pow2, Shifted;
    lSumLsb := 0;
    lCarryLsb := 0;
    for i := 0 to 14
      invariant lSumLsb == LowSum(A, B, i)
      invariant lCarryLsb == lSumLsb / 0x200_0000_0000_0000
    {
      ghost var before := lSumLsb;
      lSumLsb := lSumLsb % 0x2000_0000_0000_0000
        + rbPart[i] * Pow2(4 * i) % 0x1_0000_0000_0000_0000 % 0x200_0000_0000_0000;
      lCarryLsb := lSumLsb / 0x200_0000_0000_0000 % 16;
      LowStep(A, B, i, before, rbPart[i]);
    }
  }

  /** Neither the 61-bit mask nor the 4-bit carry loses anything in fourteen additions. */
  lemma LowStep(A: nat, B: nat, i: nat, s: nat, part: nat)
    requires s == LowSum(A, B, i) && i < 14 && part == A * Digit(B, i)
    ensures var s' := s % 0x2000_0000_0000_0000 + part * Pow2(4 * i) % 0x1_0000_0000_0000_0000 % 0x200_0000_0000_0000;
      s' == LowSum(A, B, i + 1) && s' / 0x200_0000_0000_0000 % 16 == s' / 0x200_0000_0000_0000
  {
    hide Digit, Pow2, Shifted;
    ShiftedIs(A, B, i, part);
    ShiftMask(part * Pow2(4 * i));
    assert s <= 14 * 0x1FF_FFFF_FFFF_FFFF;
  }

  lemma Reassemble(A: nat, B: nat, lo: nat, hi: nat)
    requires B < 0x20_0000_0000_0000
    requires lo == LowSum(A, B, 14) % 0x200_0000_0000_0000
    requires hi == LowSum(A, B, 14) / 0x200_0000_0000_0000 + HighSum(A, B, 14)
    ensures var w := lo + hi * 0x200_0000_0000_0000 % 0x1_0000_0000_0000_0000;
      w < 0x1_0000_0000_0000_0000 && w + 0x1_0000_0000_0000_0000 * (hi / 0x80) == A * B
  {
    hide LowSum, HighSum, Pow2;
    SplitSums(A, B, 14);
    AllDigits(A, B);
    WordSplit(hi);
  }

  lemma WordSplit(hi: nat)
    ensures hi * 0x200_0000_0000_0000 % 0x1_0000_0000_0000_0000 == hi % 0x80 * 0x200_0000_0000_0000
  {
    DivUnique(hi * 0x200_0000_0000_0000, 0x1_0000_0000_0000_0000, hi / 0x80, hi % 0x80 * 0x200_0000_0000_0000);
  }

  lemma ShiftedIs(a: nat, b: nat, k: nat, part: nat)
    requires part == a * Digit(b, k)
    ensures part * Pow2(4 * k) == Shifted(a, b, k)
  {
  }

  lemma AllDigits(a: nat, b: nat)
    requires b < 0x20_0000_0000_0000
    ensures a * (b % Pow2(4 * 14)) == a * b
  {
    hide Pow2;
    Pow2Values();
    Pow2Mono(53, 56);
    ModSmall(b, Pow2(56));
  }

  /** Truncating a shift to 64 bits does not touch the low 57. */
  lemma ShiftMask(x: nat)
    ensures x % 0x1_0000_0000_0000_0000 % 0x200_0000_0000_0000 == x % 0x200_0000_0000_0000
  {
  }

  /** Bit i of the 106-bit product held in two words. */
  function WordBit(msb: nat, lsb: nat, i: nat): int {
    if i >= 64 then Bit(msb, i - 64) else Bit(lsb, i)
  }

  /** The else-if chain over the product bits from bit i down: the first set bit gives the shift. */
  function ChainShift(msb: nat, lsb: nat, i: nat): nat {
    if i == 0 then 104
    else if WordBit(msb, lsb, i) != 0 then (if i == 105 then 0x7F else if i <= 104 then 104 - i else 0)
    else ChainShift(msb, lsb, i - 1)
  }

  lemma WordBitIs(n: nat, msb: nat, lsb: nat, i: nat)
    requires lsb < 0x1_0000_0000_0000_0000 && n == lsb + 0x1_0000_0000_0000_0000 * msb
    ensures WordBit(msb, lsb, i) == Bit(n, i)
  {
    hide Pow2, Bit;
    Pow2Words();
    if i >= 64 { BitHigh(n, msb, lsb, 64, i - 64); } else { BitLow(n, msb, lsb, 64, i); }
  }

  lemma {:induction false} ChainCounts(n: nat, msb: nat, lsb: nat, i: nat)
    requires lsb < 0x1_0000_0000_0000_0000 && n == lsb + 0x1_0000_0000_0000_0000 * msb
    requires i <= 105 && n < Pow2(i + 1)
    ensures LeadingZeros(n, ChainShift(msb, lsb, i))
  {
    Pow2Values();
    if i > 0 {
      hide Pow2, Bit;
      WordBitIs(n, msb, lsb, i);
      TopBit(n, i);
      if WordBit(msb, lsb, i) == 0 { ChainCounts(n, msb, lsb, i - 1); }
    }
  }

  /** The 53 x 53 bit multiplier. */
  method Imul53(A: nat, B: nat) returns (outResult: array<int>, outShift: nat, outOverBit: int)
    requires A < 0x20_0000_0000_0000 && B < 0x20_0000_0000_0000
    ensures fresh(outResult) && outResult.Length == 106 && IsBits(outResult[..])
    ensures On(outResult) == A * B && LeadingZeros(A * B, outShift)
    ensures outOverBit == outResult[105] && (outOverBit != 0 <==> outShift == 0x7F)
  {
    hide Pow2, Bit, Value;
    ProductFits(A, B);
    var rbPart := PartialProducts(A, B);
    var lSumLsb, lSumMsb := SumPartials(A, B, rbPart);
    var rbLShift := ChainShift(lSumMsb, lSumLsb, 105);
    ChainCounts(A * B, lSumMsb, lSumLsb, 105);

    outResult := new int[106];
    for i := 0 to 64
      invariant forall k | 0 <= k < i :: outResult[k] == WordBit(lSumMsb, lSumLsb, k)
    {
      outResult[i] := Bit(lSumLsb, i);
    }
    for i := 0 to 42
      invariant forall k | 0 <= k < 64 + i :: outResult[k] == WordBit(lSumMsb, lSumLsb, k)
    {
      outResult[64 + i] := Bit(lSumMsb, i);
    }
    outShift := rbLShift;
    outOverBit := Bit(lSumMsb, 41);
    forall k | 0 <= k < 106
      ensures outResult[k] == Bit(A * B, k)
    {
      WordBitIs(A * B, lSumMsb, lSumLsb, k);
    }
    BitsOf(outResult[..], A * B);
    ModSmall(A * B, Pow2(106));
    TopBit(A * B, 105);
    Pow2Values();
  }

  lemma ProductFits(A: nat, B: nat)
    requires A < 0x20_0000_0000_0000 && B < 0x20_0000_0000_0000
    ensures A * B < Pow2(106) && Pow2(106) == 0x400_0000_0000_0000_0000_0000_0000
  {
    hide Pow2;
    Pow2Values();
    MulMono(A, B, 0x20_0000_0000_0000);
  }

  // ------------------------------------------------------------------ FMUL.D

  /** The exact product of two finite doubles is Mag(A) * Mag(B) / 2^1074 units. */
  lemma ExactProduct(A: F64, B: F64)
    requires A.Valid() && B.Valid()
    ensures Mag(A.Code()) * Mag(B.Code()) * 0x10_0000_0000_0000 == ScaledProduct(A, B)
  {
    hide Mag, Pow2;
    MagCode(A);
    MagCode(B);
    var a, b, p, q := A.Significand(), B.Significand(), Pow2(A.Scale()), Pow2(B.Scale());
    assert (a * p) * (b * q) == a * b * (p * q);
    Pow2Add(A.Scale(), B.Scale());
    Pow2Values();
    ShiftShift(a * b, A.Scale() + B.Scale(), 52);
  }

  /** What normalisation and post-shift compute from the product. */
  ghost predicate Aligned(A: F64, B: F64, n: nat, lz: nat, x: int, p: nat) {
    && n == A.Significand() * B.Significand() && LeadingZeros(n, lz) && x == AlignExponent(A, B, lz)
    && p == (if lz == 0x7F then n / 2 else n * Pow2(lz)) / Pow2(if x <= 0 then 1 - x else 0)
  }

  /** A carry into bit 105 of the product needs two normal operands. */
  lemma OverOperands(A: F64, B: F64)
    requires A.Valid() && B.Valid() && 0x200_0000_0000_0000_0000_0000_0000 <= A.Significand() * B.Significand()
    ensures A.exp > 0 && B.exp > 0
  {
    var a, b := A.Significand(), B.Significand();
    if A.exp == 0 {
      MulMono(a, b, 0x20_0000_0000_0000);
    } else if B.exp == 0 {
      MulMono(b, a, 0x20_0000_0000_0000);
    }
  }

  lemma OverCase(A: F64, B: F64, n: nat, x: int, p: nat, num: nat)
    requires A.Finite() && B.Finite() && Aligned(A, B, n, 0x7F, x, p)
    requires num * 0x10_0000_0000_0000 == ScaledProduct(A, B)
    ensures IsRne(num, Pow2(1074), ProductCode(x, p, false)) <==> !LosesProduct(A, B)
  {
    hide Pow2, Mag, IsRne, RoundUp, Tie, ProductCode;
    OverOperands(A, B);
    Pow2Values();
    var y := ScaledProduct(A, B);
    assert y == n * Pow2(x + 1072);
    ShiftBounds(n, 105, 106, x + 1072);
    if x <= 0 {
      Pow2Mono(106 + x + 1072, 1178);
      SubnormalCutOver(n, x + 1072, 1 - x, y);
      SubnormalProduct(num, y, x, p);
    } else {
      assert p == n / 2;
      Pow2Mono(1178, 105 + x + 1072);
      if x < 0x7FF {
        Pow2Mono(106 + x + 1072, 3224);
        OverProduct(num, n, x);
      } else {
        Pow2Mono(3224, 105 + x + 1072);
        InfiniteProduct(num, x, p);
      }
    }
  }

  lemma PlainCase(A: F64, B: F64, n: nat, lz: nat, x: int, p: nat, num: nat)
    requires A.Finite() && B.Finite() && Aligned(A, B, n, lz, x, p) && lz != 0x7F && n != 0
    requires A.exp > 0 || B.exp > 0
    requires num * 0x10_0000_0000_0000 == ScaledProduct(A, B)
    ensures IsRne(num, Pow2(1074), ProductCode(x, p, false)) <==> !LosesProduct(A, B)
  {
    hide Pow2, Mag, IsRne, RoundUp, Tie, ProductCode;
    Pow2Values();
    var y, k, p0 := ScaledProduct(A, B), A.Scale() + B.Scale() + 52, n * Pow2(lz);
    assert lz <= 104 && n < 0x200_0000_0000_0000_0000_0000_0000 by { Unnormalised(n, lz); }
    Normalised(n, lz);
    assert k == lz + x + 1073;
    if x <= 0 {
      PlainBound(n, lz, k);
      Pow2Mono(105 - lz + k, 1178);
      SubnormalCut(n, k, 1 - x, lz, y);
      SubnormalProduct(num, y, x, p);
    } else {
      assert p == p0;
      ShiftShift(n, lz, x + 1073);
      ShiftBounds(p0, 104, 105, x + 1073);
      Pow2Mono(1178, 104 + x + 1073);
      if x < 0x7FF {
        ShiftShift(p0, x - 1, 1074);
        NormalProduct(num, n, lz, x, p);
      } else {
        Pow2Mono(3224, 104 + x + 1073);
        InfiniteProduct(num, x, p);
      }
    }
  }

  lemma Unnormalised(n: nat, lz: nat)
    requires LeadingZeros(n, lz) && lz != 0x7F
    ensures lz <= 104 && n < Pow2(105 - lz) && n < 0x200_0000_0000_0000_0000_0000_0000
  {
    hide Pow2;
    Pow2Values();
    Pow2Mono(105 - lz, 105);
  }

  lemma PlainBound(n: nat, lz: nat, k: nat)
    requires LeadingZeros(n, lz) && lz != 0x7F
    ensures lz <= 104 && n * Pow2(k) < Pow2(105 - lz + k)
  {
    hide Pow2;
    Unnormalised(n, lz);
    Pow2Add(105 - lz, k);
    MulStrict(Pow2(k), n, Pow2(105 - lz));
  }

  /** A zero product, and one of two subnormals, are far below half the smallest subnormal. */
  lemma TinyCase(A: F64, B: F64, n: nat, lz: nat, x: int, p: nat, num: nat)
    requires A.Finite() && B.Finite() && Aligned(A, B, n, lz, x, p)
    requires n == 0 || (A.exp == 0 && B.exp == 0)
    requires num * 0x10_0000_0000_0000 == ScaledProduct(A, B)
    ensures p == 0 && x < 0x7FF && (n != 0 ==> x < 0)
    ensures IsRne(num, Pow2(1074), 0) && !LosesProduct(A, B)
  {
    hide Pow2, Mag, IsRne, LosesProduct, ScaledProduct;
    TinyWindow(A, B, n, lz, x, p);
    TinyProduct(A, B);
    TinyRounds(num, ScaledProduct(A, B));
    TinyKept(A, B);
  }

  lemma TinyRounds(num: nat, y: nat)
    requires y == num * 0x10_0000_0000_0000 && y < Pow2(1074) < Pow2(1178)
    ensures IsRne(num, Pow2(1074), 0)
  {
    hide Pow2, Mag, IsRne;
    Pow2Values();
    Pow2Add(104, 1074);
    ModSmall(y, Pow2(1074));
    CutRounds(num, Pow2(1074), y, 0);
  }

  lemma TinyKept(A: F64, B: F64)
    requires ScaledProduct(A, B) < Pow2(1074) < Pow2(1178)
    ensures !LosesProduct(A, B)
  {
    hide Pow2, Mag, ScaledProduct;
    ModSmall(ScaledProduct(A, B), Pow2(1074));
  }

  lemma TinyProduct(A: F64, B: F64)
    requires A.Valid() && B.Valid() && (A.Significand() * B.Significand() == 0 || (A.exp == 0 && B.exp == 0))
    ensures ScaledProduct(A, B) < Pow2(1074) < Pow2(1178)
  {
    hide Pow2;
    Pow2Values();
    var a, b := A.Significand(), B.Significand();
    Pow2Mono(1074, 1178);
    if a * b != 0 {
      MulMono(a, b, 0x10_0000_0000_0000);
      Pow2Mono(104, 1022);
      Pow2Mono(0, 1022);
      MulStrict(Pow2(52), a * b, Pow2(1022));
      Pow2Add(1022, 52);
    }
  }

  lemma TinyWindow(A: F64, B: F64, n: nat, lz: nat, x: int, p: nat)
    requires A.Finite() && B.Finite() && Aligned(A, B, n, lz, x, p)
    requires n == 0 || (A.exp == 0 && B.exp == 0)
    ensures p == 0 && x < 0x7FF && (n != 0 ==> x < 0)
  {
    hide Pow2;
    Pow2Values();
    if lz == 0x7F {
      OverOperands(A, B);
    } else if n == 0 {
      ZeroOperand(A, B);
      ModSmall(0, Pow2(if x <= 0 then 1 - x else 0));
    } else {
      Normalised(n, lz);
      Unnormalised(n, lz);
      assert x == -1022 - lz;
      Pow2Mono(105, 1 - x);
      ModSmall(n * Pow2(lz), Pow2(1 - x));
    }
  }

  lemma ZeroOperand(A: F64, B: F64)
    requires A.Valid() && B.Valid() && A.Significand() * B.Significand() == 0
    ensures (A.exp == 0 && A.mant == 0) || (B.exp == 0 && B.mant == 0)
  {
    if A.Significand() != 0 && B.Significand() != 0 { MulStrict(A.Significand(), 0, B.Significand()); }
  }

  /** The fields computed from the product of two finite doubles are the correctly rounded product,
      unless LosesProduct. */
  lemma ProductCorrect(A: F64, B: F64, n: nat, lz: nat, x: int, p: nat)
    requires A.Finite() && B.Finite() && Aligned(A, B, n, lz, x, p)
    ensures RoundsProduct(A, B, ProductCode(x, p, n == 0)) <==> !LosesProduct(A, B)
  {
    hide Pow2, Mag, IsRne, RoundUp, LosesProduct, Aligned, ProductCode;
    ExactProduct(A, B);
    var num := Mag(A.Code()) * Mag(B.Code());
    if n == 0 || (A.exp == 0 && B.exp == 0) {
      TinyCase(A, B, n, lz, x, p, num);
      ZeroFields(x, n == 0);
    } else if lz == 0x7F {
      OverCase(A, B, n, x, p, num);
    } else {
      PlainCase(A, B, n, lz, x, p, num);
    }
  }

  lemma ZeroFields(x: int, zero: bool)
    requires x < 0x7FF && (zero || x < 0)
    ensures ProductCode(x, 0, zero) == 0
  {
  }

  lemma ZeroProduct(A: F64, B: F64)
    requires A.Valid() && B.Valid()
    ensures A.Significand() * B.Significand() == 0 <==>
      (A.exp == 0 && A.mant == 0) || (B.exp == 0 && B.mant == 0)
  {
    if A.Significand() * B.Significand() == 0 { ZeroOperand(A, B); }
  }

  /** Two normal significands have a product of 105 or 106 bits. */
  lemma NormalShift(A: F64, B: F64, lz: nat)
    requires A.exp > 0 && B.exp > 0 && LeadingZeros(A.Significand() * B.Significand(), lz)
    ensures lz == 0 || lz == 0x7F
  {
    hide Pow2;
    Pow2Values();
    MulMono(A.Significand(), 0x10_0000_0000_0000, B.Significand());
    if 0 < lz <= 104 { Pow2Mono(105 - lz, 104); }
  }

  /** Normalisation, post-shift and rounding of the product. */
  method ProductWindow(A: F64, B: F64)
      returns (expAlign: int, mantShort: nat, mantOnes: int, rndBit: nat, ghost lz: nat, ghost p: nat)
    requires A.Valid() && B.Valid()
    ensures Aligned(A, B, A.Significand() * B.Significand(), lz, expAlign, p)
    ensures mantShort == p / 0x10_0000_0000_0000 < 0x20_0000_0000_0000
    ensures mantOnes == if mantShort == 0x1F_FFFF_FFFF_FFFF then 1 else 0
    ensures rndBit == RoundUp(p)
  {
    hide Pow2, Value, RoundUp;
    var mantA := A.Significand();
    var mantB := B.Significand();
    var imulResult, imulShift, imulOverBit := Imul53(mantA, mantB);
    Unshifted(mantA * mantB, imulShift);
    var mantAlign := Align(imulResult, imulShift);

    var expAB: int := A.exp + B.exp - 1023;
    if imulResult[105] != 0 {
      expAlign := expAB + 1;
    } else if A.exp == 0 || B.exp == 0 {
      expAlign := expAB - imulShift + 1;
    } else {
      expAlign := expAB - imulShift;
    }

    var wExpAlignZero := expAlign <= 0 && imulShift == 0;
    var postShift := 0;
    if expAlign <= 0 {
      if wExpAlignZero || imulResult[105] != 0 || A.exp == 0 || B.exp == 0 {
        postShift := -expAlign + 1;
      } else {
        postShift := -expAlign;
      }
    }
    if A.exp > 0 && B.exp > 0 { NormalShift(A, B, imulShift); }

    var mantPostScale := ShiftRight(mantAlign, postShift);
    mantShort, mantOnes, rndBit := RoundWindow(mantPostScale);
    lz, p := imulShift, On(mantPostScale);
    assert Aligned(A, B, mantA * mantB, lz, expAlign, p) by { NoShift(On(mantAlign)); }
  }

  lemma Unshifted(n: nat, lz: nat)
    requires LeadingZeros(n, lz)
    ensures lz == 0x7F || (lz <= 104 && n < Pow2(105 - lz))
  {
  }

  method MulSignMux(A: F64, B: F64, zeroA: bool, zeroB: bool) returns (sign: nat)
    ensures A.exp < 0x7FF && B.exp < 0x7FF ==> sign == Xor(A.sign, B.sign)
    ensures A.sign < 2 && B.sign < 2 ==> sign < 2
    ensures !A.IsNaN() && !B.IsNaN() && !(A.IsInf() && zeroB) && !(B.IsInf() && zeroA) ==> sign == Xor(A.sign, B.sign)
  {
    var nanA, nanB := A.exp == 0x7FF, B.exp == 0x7FF;
    var mantZeroA, mantZeroB := A.mant == 0, B.mant == 0;
    if (nanA && mantZeroA && zeroB) || (nanB && mantZeroB && zeroA) {
      sign := 1;
    } else if nanA && !mantZeroA {
      sign := Or(A.sign, And(if nanB then 1 else 0, B.sign));
    } else if nanB && !mantZeroB {
      sign := B.sign;
    } else {
      sign := Xor(A.sign, B.sign);
    }
  }

  method MulExpMux(A: F64, B: F64, zero: bool, expAlign: int, mantOnes: int, rndBit: nat) returns (exp: nat)
    ensures A.exp < 0x7FF && B.exp < 0x7FF ==>
      exp == if expAlign < 0 || zero then 0 else if expAlign >= 0x7FF then 0x7FF else expAlign + And(mantOnes, rndBit)
    ensures A.exp == 0x7FF || B.exp == 0x7FF ==> exp == 0x7FF
  {
    var overflow := if expAlign >= 0x7FF then 1 else 0;
    if A.exp == 0x7FF {
      exp := A.exp;
    } else if B.exp == 0x7FF {
      exp := B.exp;
    } else if expAlign < 0 || zero {
      exp := 0;
    } else if overflow != 0 {
      exp := 0x7FF;
    } else {
      exp := expAlign + And(And(mantOnes, rndBit), Not(overflow));
    }
  }

  method MulMantMux(A: F64, B: F64, expAlign: int, mantShort: nat, rndBit: nat) returns (mant: nat)
    ensures A.exp < 0x7FF && B.exp < 0x7FF ==>
      mant == if expAlign >= 0x7FF then 0 else (mantShort + rndBit) % 0x10_0000_0000_0000
    ensures A.Valid() && B.Valid() ==> mant < 0x10_0000_0000_0000
    ensures (A.exp == 0x7FF || B.exp == 0x7FF) && A.Valid() && B.Valid() ==>
      (mant == 0 <==> (A.IsInf() && B.mant != 0) || (B.IsInf() && A.mant != 0))
  {
    var nanA, nanB := A.exp == 0x7FF, B.exp == 0x7FF;
    var mantZeroA, mantZeroB := A.mant == 0, B.mant == 0;
    var overflow := expAlign >= 0x7FF;
    if (nanA && mantZeroA && !mantZeroB) || (nanB && mantZeroB && !mantZeroA) || (!nanA && !nanB && overflow) {
      mant := 0;
    } else if nanA && !(nanB && B.sign != 0) {
      mant := SetQuiet(A.mant);
    } else if nanB {
      mant := SetQuiet(B.mant);
    } else {
      mant := (mantShort + rndBit) % 0x10_0000_0000_0000;
    }
  }

  /** The product when an operand is infinite or NaN (IEEE 754-2008 sections 6.1, 6.2 and 7.2). */
  ghost predicate ProductSpecial(A: F64, B: F64, r: F64) {
    if A.IsNaN() || B.IsNaN() || (A.IsInf() && B.Code() == 0) || (B.IsInf() && A.Code() == 0) then r.IsNaN()
    else r == F64(Xor(A.sign, B.sign), 0x7FF, 0)
  }

  /** Special operands FMUL.D gets right: an infinity times a finite number that is zero, subnormal or
      no power of two, and a NaN times anything but an infinity. */
  predicate ProductHandled(A: F64, B: F64) {
    if A.IsInf() then InfinityFactor(B) else if B.IsInf() then InfinityFactor(A) else true
  }

  predicate InfinityFactor(d: F64) {
    d.exp < 0x7FF && (d.exp == 0 || d.mant != 0)
  }

  /** FMUL.D. */
  method MulD(A: F64, B: F64) returns (dest: F64)
    requires A.Valid() && B.Valid()
    ensures A.Finite() && B.Finite() ==>
      && dest.Valid() && dest.sign == Xor(A.sign, B.sign)
      && (RoundsProduct(A, B, dest.Code()) <==> !LosesProduct(A, B))
    ensures !(A.Finite() && B.Finite()) ==> dest.Valid() && (ProductSpecial(A, B, dest) <==> ProductHandled(A, B))
  {
    hide Pow2, Mag, RoundsProduct, RoundUp, LosesProduct, Aligned;
    var zeroA := A.exp == 0 && A.mant == 0;
    var zeroB := B.exp == 0 && B.mant == 0;
    var expAlign, mantShort, mantOnes, rndBit; ghost var lz, p;
    expAlign, mantShort, mantOnes, rndBit, lz, p := ProductWindow(A, B);
    var sign := MulSignMux(A, B, zeroA, zeroB);
    var exp := MulExpMux(A, B, zeroA || zeroB, expAlign, mantOnes, rndBit);
    var mant := MulMantMux(A, B, expAlign, mantShort, rndBit);
    dest := F64(sign, exp, mant);
    if A.Finite() && B.Finite() {
      ZeroProduct(A, B);
      ProductCorrect(A, B, A.Significand() * B.Significand(), lz, expAlign, p);
      ProductFields(expAlign, p, zeroA || zeroB, dest);
    }
  }

  lemma ProductFields(x: int, p: nat, zero: bool, dest: F64)
    requires p / 0x10_0000_0000_0000 < 0x20_0000_0000_0000 && dest.sign < 2
    requires dest.exp == ProductExp(x, p, zero) && dest.mant == ProductMant(x, p)
    ensures dest.Valid() && dest.Code() == ProductCode(x, p, zero)
  {
    hide RoundUp;
  }

  // ------------------------------------------------------------------ what follows for callers

  /** Two normal operands whose product neither leaves the normal range nor is odd with a carry into
      bit 105 are multiplied correctly. */
  lemma NormalRangeCorrect(A: F64, B: F64)
    requires A.Finite() && B.Finite() && Pow2(1178) <= ScaledProduct(A, B)
    requires var n := A.Significand() * B.Significand(); n < 0x200_0000_0000_0000_0000_0000_0000 || n % 2 == 0
    ensures !LosesProduct(A, B)
  {
    hide Pow2, ScaledProduct;
  }

  /** A product just above a tie, whose only witness is the dropped lowest bit: both factors lie
      between 1 and 2, and the product is rounded down instead of up. */
  lemma DroppedBitCounterexample()
    ensures LosesProduct(F64(0, 1023, 0xC_7950_D5F4_B3B3), F64(0, 1023, 0xB_784E_A15B_337B))
  {
    hide Pow2;
    var A, B := F64(0, 1023, 0xC_7950_D5F4_B3B3), F64(0, 1023, 0xB_784E_A15B_337B);
    var n := A.Significand() * B.Significand();
    assert n == 0x30E_2D23_5E2B_88D0_0000_0000_0001;
    Pow2Values();
    ShiftBounds(n, 105, 106, 2096);
    Pow2Mono(1178, 2201);
    Pow2Mono(2202, 3224);
  }

  /** (1 - 2^-53) * 2^-1022 lies halfway between the largest subnormal and the smallest normal number
      and must round to the latter; the carry into the exponent field is dropped and the result is 0. */
  lemma LostCarryCounterexample()
    ensures LosesProduct(F64(0, 1022, 0xF_FFFF_FFFF_FFFF), F64(0, 1, 0))
  {
    hide Pow2;
    var A, B := F64(0, 1022, 0xF_FFFF_FFFF_FFFF), F64(0, 1, 0);
    var n := A.Significand() * B.Significand();
    assert n == 0x1F_FFFF_FFFF_FFFF * 0x10_0000_0000_0000;
    Pow2Values();
    ShiftBounds(n, 104, 105, 1073);
    SubnormalCut(n, 1073, 1, 0, ScaledProduct(A, B));
    assert Pow2(1) == 2;
    NoShift(n);
  }

  /** Infinity times one is no infinity here, and infinity times a NaN is one. */
  lemma InfinityCounterexample()
    ensures var inf, one, nan := F64(0, 0x7FF, 0), F64(0, 1023, 0), F64(0, 0x7FF, 1);
      !ProductHandled(inf, one) && !ProductHandled(inf, nan) && !ProductHandled(inf, inf)
  {
  }
}
