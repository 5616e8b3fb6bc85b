/** FDIV.D: normalisation of the divisor, and rounding of the 105-bit quotient. */
module FpuDivD {
  import opened Bits
  import opened Ieee
  import opened FpuBus
  import opened FpuDiv

  /** k is the correctly rounded code of the exact quotient of two finite magnitudes, which is
      Mag(A) * 2^1074 / Mag(B) in units of 2^-1074. */
  ghost predicate RoundsQuotient(A: F64, B: F64, k: nat)
    requires Mag(B.Code()) > 0
  {
    IsRne(Mag(A.Code()) * One(), Mag(B.Code()), k)
  }

  /** Places the divisor's significand is shifted left to be normalised: leading zeros from bit 52. */
  function PreShift(m: nat, i: nat): (pre: nat)
    requires i <= 52
    ensures i <= pre <= 52
    decreases 52 - i
  {
    if i < 52 && Bit(m, 52 - i) == 0 then PreShift(m, i + 1) else i
  }

  /** The normalised divisor. */
  function Divisor(m: nat): nat {
    var w := Pow2(PreShift(m, 0));
    MulMono(m, 0, w);
    m * w
  }

  lemma {:induction false} PreShiftNormalises(m: nat, i: nat)
    requires i <= 52 && 0 < m < Pow2(53 - i)
    ensures 0x10_0000_0000_0000 <= m * Pow2(PreShift(m, i)) < 0x20_0000_0000_0000
    decreases 52 - i
  {
    TopBit(m, 52 - i);
    if i < 52 && Bit(m, 52 - i) == 0 {
      PreShiftNormalises(m, i + 1);
    } else {
      if i == 52 { assert Pow2(0) == 1; }
      hide Pow2, Bit;
      Pow2Values();
      ShiftBounds(m, 52 - i, 53 - i, i);
    }
  }

  /** expAlign: the exponent of the normalised quotient. */
  function AlignExponent(A: F64, B: F64, pre: nat, lz: nat): int {
    var expShift: int :=
      if B.exp == 0 && A.exp != 0 then pre - lz - 1
      else if B.exp != 0 && A.exp == 0 then pre - lz + 1
      else pre - lz;
    A.exp - B.exp + 1023 + expShift
  }

  /** Leading zeros of a nonzero quotient, counted from bit 104. */
  function Zeros(q: nat): nat
    decreases 0x100_0000_0000_0000_0000_0000_0000 - q
  {
    if q == 0 || q >= 0x100_0000_0000_0000_0000_0000_0000 then 0 else 1 + Zeros(2 * q)
  }

  lemma {:induction false} ZerosCounts(q: nat, lz: nat)
    requires q != 0 && lz <= 104 && LeadingZeros(q, lz)
    ensures Zeros(q) == lz
    decreases lz
  {
    hide Pow2;
    Pow2Values();
    if lz > 0 {
      Pow2Mono(105 - lz, 104);
      Pow2Next(105 - lz);
      Pow2Next(104 - lz);
      ZerosCounts(2 * q, lz - 1);
    }
  }

  /** The quotient of significands, and its window with k missing bits. */
  function Quotient(n: nat, d: nat): nat
    requires d > 0
  {
    DivNat(n, d);
    n / d
  }

  function Wide(q: nat, k: nat): nat {
    MulMono(Pow2(k), 0, q);
    q * Pow2(k)
  }

  /** Operand pairs FDIV.D rounds wrongly. The remainder r of the significands' quotient q is not used.
      With leading zeros lz in the quotient, the lowest lz bits of the normalised window are zeros that
      were never computed; below the normal range the window is cut, and the carry into the smallest
      normal number is dropped; at the top of the range a carry wraps the exponent. */
  ghost predicate LosesQuotient(A: F64, B: F64)
    requires Mag(B.Code()) > 0
  {
    var pre, a, d := PreShift(B.Significand(), 0), A.Significand(), Divisor(B.Significand());
    var n := a * 0x100_0000_0000_0000_0000_0000_0000;
    a != 0 && d != 0 && LosesBits(A, B, pre, Quotient(n, d), n % d, d)
  }

  /** The dividend of the cut quotient, over the magnitude of the divisor. */
  ghost function CutDividend(A: F64): nat {
    MulMono(Mag(A.Code()), 0, One());
    Mag(A.Code()) * One() * 0x10_0000_0000_0000
  }

  ghost predicate LosesBits(A: F64, B: F64, pre: nat, q: nat, r: nat, d: nat)
    requires Mag(B.Code()) > 0
  {
    var lz := Zeros(q);
    var x := AlignExponent(A, B, pre, lz);
    if x > 0 then
      LosesWindow(Wide(q, lz), lz, r, d, x)
    else if lz <= 1 - x then
      LosesCut(CutDividend(A), Mag(B.Code()))
    else
      LosesShifted(Wide(q, lz - (1 - x)), lz - (1 - x), r, d)
  }

  /** The lowest k bits of the window p are missing, and r / d is what the division left over: a tie
      looks exact, and from 52 missing bits on the rounding bit itself is missing. */
  predicate LosesTail(p: nat, k: nat, r: nat, d: nat) {
    if k < 52 then Tie(p) && r != 0 && RoundUp(p) == 0
    else if k == 52 then 2 * r > d || (2 * r == d && p / 0x10_0000_0000_0000 % 2 == 1)
    else 4 * r > d
  }

  /** In the normal range; or the window carries out of the exponent 0x7FF. */
  predicate LosesWindow(p: nat, k: nat, r: nat, d: nat, x: int) {
    || (x < 0x7FF && LosesTail(p, k, r, d))
    || (x == 0x7FF && p / 0x10_0000_0000_0000 + RoundUp(p) == 0x20_0000_0000_0000)
  }

  /** Below the normal range with bits still missing after the cut; or the carry is dropped. */
  predicate LosesShifted(p: nat, k: nat, r: nat, d: nat) {
    LosesTail(p, k, r, d) || p / 0x10_0000_0000_0000 + RoundUp(p) == 0x10_0000_0000_0000
  }

  /** The cut quotient y / den ties with something cut off, or carries into the smallest normal. */
  ghost predicate LosesCut(y: nat, den: Pos) {
    var p := y / den;
    || (Tie(p) && y % den != 0 && RoundUp(p) == 0)
    || p / 0x10_0000_0000_0000 + RoundUp(p) == 0x10_0000_0000_0000
  }

  // ------------------------------------------------------------------ the result fields

  function QuotientExp(x: int, p: nat): nat {
    ExpField(x, And(if p / 0x10_0000_0000_0000 == 0x1F_FFFF_FFFF_FFFF then 1 else 0, RoundUp(p)))
  }

  function ExpField(x: int, carry: nat): nat {
    if x < 0 then 0 else if x > 0x7FF then 0x7FF else (x + carry) % 0x800
  }

  function QuotientMant(x: int, p: nat): nat {
    if x >= 0x7FF then 0 else (p / 0x10_0000_0000_0000 + RoundUp(p)) % 0x10_0000_0000_0000
  }

  function QuotientCode(x: int, p: nat): nat {
    QuotientExp(x, p) * 0x10_0000_0000_0000 + QuotientMant(x, p)
  }

  lemma QuotientNormal(x: int, p: nat)
    requires 1 <= x < 0x7FF
    requires 0x100_0000_0000_0000_0000_0000_0000 <= p < 0x200_0000_0000_0000_0000_0000_0000
    ensures QuotientCode(x, p) == WindowCode(x - 1, p)
  {
    var m := p / 0x10_0000_0000_0000 + RoundUp(p);
    if m == 0x20_0000_0000_0000 {
    } else {
      assert m % 0x10_0000_0000_0000 == m - 0x10_0000_0000_0000;
    }
  }

  lemma QuotientSubnormal(x: int, p: nat)
    requires x <= 0 && p < 0x100_0000_0000_0000_0000_0000_0000
    ensures var r := p / 0x10_0000_0000_0000 + RoundUp(p);
      && WindowCode(0, p) == r <= 0x10_0000_0000_0000
      && QuotientCode(x, p) == if r == 0x10_0000_0000_0000 then 0 else r
  {
    var r := p / 0x10_0000_0000_0000 + RoundUp(p);
    if r < 0x10_0000_0000_0000 { ModSmall(r, 0x10_0000_0000_0000); }
  }

  lemma QuotientTop(x: int, p: nat)
    requires x >= 0x7FF
    requires 0x100_0000_0000_0000_0000_0000_0000 <= p < 0x200_0000_0000_0000_0000_0000_0000
    ensures QuotientCode(x, p) ==
      if x == 0x7FF && p / 0x10_0000_0000_0000 + RoundUp(p) == 0x20_0000_0000_0000 then 0 else INF
  {
  }

  // ------------------------------------------------------------------ the quotient in its binade

  /** Scales: t weighs the integer quotient, u one unit of the window. */
  lemma ScaleArith(a: nat, d: nat, q: nat, r: nat, g: nat, t: nat, u: nat, y: nat, p: nat)
    requires a == q * d + r && r < d && g * u == d * t && y == a * t && p == q * g && t > 0
    ensures p * u <= y < (p + g) * u
    ensures y == p * u <==> r == 0
  {
    assert p * u == q * (d * t) by { Associate(q, g, u); }
    assert (p + g) * u == p * u + g * u;
    assert a * t == q * (d * t) + r * t by { Associate(q, d, t); }
    MulStrict(t, r, d);
    MulStrict(t, 0, r);
  }

  /** A window p = q * 2^k on the quotient of n by d, k of its bits missing. */
  ghost predicate Tailed(num: nat, den: Pos, e: nat, n: nat, d: nat, q: nat, r: nat, t: nat, k: nat, p: nat) {
    && k <= 53 && n == q * d + r && r < d && p == q * Pow2(k) && Pow2(k) * Unit(e, den) == d * t && t > 0
    && num * 0x10_0000_0000_0000 == n * t && Window(p, e) && WindowCode(e, p) - RoundUp(p) < INF
  }

  /** When such a window rounds correctly. */
  lemma TailRounds(num: nat, den: Pos, e: nat, n: nat, d: nat, q: nat, r: nat, t: nat, k: nat, p: nat)
    requires Tailed(num, den, e, n, d, q, r, t, k, p)
    ensures IsRne(num, den, WindowCode(e, p)) <==> !LosesTail(p, k, r, d)
  {
    hide Pow2, Mag, IsRne, RoundUp, Tie, Unit, WindowCode, Window;
    if k < 52 {
      ScaleArith(n, d, q, r, Pow2(k), t, Unit(e, den), num * 0x10_0000_0000_0000, p);
      GapFits(q, k, p);
      RoundFromBelow(num, den, p, Pow2(k), e);
    } else if k == 52 {
      HalfMissing(num, den, e, n, d, q, r, t, p);
    } else {
      AllMissing(num, den, e, n, d, q, r, t, p);
    }
  }

  /** Bits below the granularity of a window do not reach the next multiple of a half. */
  lemma GapFits(q: nat, k: nat, p: nat)
    requires k < 52 && p == q * Pow2(k)
    ensures var t := p % 0x10_0000_0000_0000;
      t + Pow2(k) <= 0x10_0000_0000_0000 && (t < 0x8_0000_0000_0000 ==> t + Pow2(k) <= 0x8_0000_0000_0000)
  {
    hide Pow2;
    Pow2Values();
    var g, h := Pow2(k), Pow2(51 - k);
    Pow2Add(51 - k, k);
    var m, t := p / 0x10_0000_0000_0000, p % 0x10_0000_0000_0000;
    NextMultiple(q, g, h, m, t);
  }

  lemma NextMultiple(q: nat, g: nat, h: nat, m: nat, t: nat)
    requires g > 0 && h * g == 0x8_0000_0000_0000 && q * g == 0x10_0000_0000_0000 * m + t
    ensures t < 0x10_0000_0000_0000 ==> t + g <= 0x10_0000_0000_0000
    ensures t < 0x8_0000_0000_0000 ==> t + g <= 0x8_0000_0000_0000
  {
    var j := q - 2 * h * m;
    assert g * (2 * h * m) == 0x10_0000_0000_0000 * m by { Associate(g * h, 2, m); Regroup(g, h, m); }
    assert t == g * j;
    MulStrict(g, j, 2 * h);
    MulStrict(g, j, h);
    if j < h { MulMono(g, j + 1, h); }
    if j < 2 * h { MulMono(g, j + 1, 2 * h); }
    assert g * (j + 1) == g * j + g && g * (2 * h) == 0x10_0000_0000_0000 && g * h == 0x8_0000_0000_0000;
  }

  lemma Regroup(g: int, h: int, m: int)
    ensures g * (2 * h * m) == g * h * 2 * m
  {
  }

  /** 52 bits missing: the remainder stands against half the divisor. */
  lemma HalfMissing(num: nat, den: Pos, e: nat, n: nat, d: nat, q: nat, r: nat, t: nat, p: nat)
    requires Tailed(num, den, e, n, d, q, r, t, 52, p)
    ensures IsRne(num, den, WindowCode(e, p)) <==> !LosesTail(p, 52, r, d)
  {
    hide Pow2, Mag, IsRne, Unit;
    Pow2Values();
    var u := Unit(e, den);
    DivUnique(p, 0x10_0000_0000_0000, q, 0);
    MidRemainder(num, u, n, d, q, r, t);
    WindowDecide(num, den, e, q, q * u, (q + 1) * u);
  }

  /** 53 bits missing: even the last mantissa bit, so the remainder stands against a quarter. */
  lemma AllMissing(num: nat, den: Pos, e: nat, n: nat, d: nat, q: nat, r: nat, t: nat, p: nat)
    requires Tailed(num, den, e, n, d, q, r, t, 53, p)
    ensures IsRne(num, den, WindowCode(e, p)) <==> !LosesTail(p, 53, r, d)
  {
    hide Pow2, Mag, IsRne, Unit;
    Pow2Values();
    var u, m := Unit(e, den), 2 * q;
    DivUnique(p, 0x10_0000_0000_0000, m, 0);
    QuarterRemainder(num, u, n, d, q, r, t);
    if 2 * r <= d {
      WindowDecide(num, den, e, m, m * u, (m + 1) * u);
    } else {
      NotNearest(num, den, e, m);
    }
  }

  /** Where num lies between q*u and its neighbour, from the remainder. */
  lemma MidRemainder(num: nat, u: nat, n: nat, d: nat, q: nat, r: nat, t: nat)
    requires n == q * d + r && r < d && t > 0 && num * 0x10_0000_0000_0000 == n * t
    requires 0x10_0000_0000_0000 * u == d * t
    ensures q * u <= num <= (q + 1) * u
    ensures 2 * num < q * u + (q + 1) * u <==> 2 * r < d
    ensures 2 * num == q * u + (q + 1) * u <==> 2 * r == d
  {
    assert (q + 1) * u == q * u + u;
    Remainders(n, d, q, r, t);
    assert q * (0x10_0000_0000_0000 * u) == 0x10_0000_0000_0000 * (q * u);
  }

  /** The same with two units to one step of the quotient. */
  lemma QuarterRemainder(num: nat, u: nat, n: nat, d: nat, q: nat, r: nat, t: nat)
    requires n == q * d + r && r < d && t > 0 && num * 0x10_0000_0000_0000 == n * t
    requires 0x20_0000_0000_0000 * u == d * t
    ensures 2 * q * u <= num && (2 * r <= d ==> num <= (2 * q + 1) * u) && (2 * r > d ==> (2 * q + 1) * u <= num)
    ensures 2 * num < 2 * q * u + (2 * q + 1) * u <==> 4 * r < d
    ensures 2 * num == 2 * q * u + (2 * q + 1) * u <==> 4 * r == d
  {
    assert (2 * q + 1) * u == 2 * (q * u) + u && 2 * q * u == 2 * (q * u);
    Remainders(n, d, q, r, t);
    assert q * (0x20_0000_0000_0000 * u) == 0x20_0000_0000_0000 * (q * u);
  }

  /** The remainder in the scale of the dividend. */
  lemma Remainders(n: nat, d: nat, q: nat, r: nat, t: nat)
    requires n == q * d + r && t > 0
    ensures n * t == q * (d * t) + r * t && 0 <= r * t
    ensures r * t < d * t <==> r < d
    ensures 2 * (r * t) < d * t <==> 2 * r < d
    ensures 2 * (r * t) == d * t <==> 2 * r == d
    ensures 4 * (r * t) < d * t <==> 4 * r < d
    ensures 4 * (r * t) == d * t <==> 4 * r == d
  {
    assert (q * d + r) * t == q * (d * t) + r * t by { Associate(q, d, t); }
    MulStrict(t, r, d);
    MulStrict(t, 2 * r, d);
    MulStrict(t, 4 * r, d);
    MulMono(t, 0, r);
    assert t * (2 * r) == 2 * (r * t) && t * (4 * r) == 4 * (r * t) && t * d == d * t && t * r == r * t;
  }

  /** A quotient in the normal range. */
  lemma NormalQuotient(num: nat, den: Pos, q: nat, n: nat, d: nat, r: nat, k: nat, t: nat, x: int, p: nat)
    requires 1 <= x < 0x7FF && k <= 53 && p == q * Pow2(k) && t > 0
    requires n == q * d + r && r < d && Pow2(k) * Unit(x - 1, den) == d * t
    requires num * 0x10_0000_0000_0000 == n * t
    requires 0x100_0000_0000_0000_0000_0000_0000 <= p < 0x200_0000_0000_0000_0000_0000_0000
    ensures IsRne(num, den, QuotientCode(x, p)) <==> !LosesTail(p, k, r, d)
  {
    hide Pow2, Mag, IsRne, RoundUp, LosesTail, Unit, QuotientCode, WindowCode;
    QuotientNormal(x, p);
    NormalCodeFits(x, p);
    TailRounds(num, den, x - 1, n, d, q, r, t, k, p);
  }

  /** Cutting below the normal range, in proportion. */
  lemma CutArith(y: nat, s: nat, den: nat, w: nat, g: nat, rho: nat)
    requires s > 0 && den > 0 && g > 0 && y * s == w * den + rho && rho < g * den
    requires w % g == 0 && s % g == 0
    ensures w / s == y / den
    ensures y % den == 0 <==> w % s == 0 && rho == 0
  {
    var p, v := w / s, w % s;
    assert w == s * p + v;
    Multiples(w, s, p, v, g);
    var z := y - den * p;
    assert z * s == v * den + rho by {
      assert (s * p + v) * den == (den * p) * s + v * den;
      assert (y - den * p) * s == y * s - (den * p) * s;
    }
    MulMono(den, v + g, s);
    assert den * (v + g) == v * den + g * den;
    assert 0 <= v * den;
    MulStrict(s, z, den);
    MulStrict(s, -1, z);
    MulStrict(s, 0, z);
    MulStrict(den, 0, v);
    DivUnique(y, den, p, z);
  }

  lemma Multiples(w: nat, s: nat, p: nat, v: nat, g: nat)
    requires g > 0 && w % g == 0 && s % g == 0 && w == s * p + v && v < s
    ensures v + g <= s
  {
    var i, j := w / g, s / g;
    assert w == g * i && s == g * j;
    assert v == g * (i - j * p) by { Associate(g, j, p); }
    MulStrict(g, i - j * p, j);
    MulMono(g, i - j * p + 1, j);
  }

  // ------------------------------------------------------------------ the three ranges of a quotient

  /** The quotient of a nonzero significand by a normalised divisor has at least 52 bits. */
  lemma QuotientShift(a: nat, d: nat, q: nat, lz: nat)
    requires 0 < a && 0x10_0000_0000_0000 <= d < 0x20_0000_0000_0000
    requires q == a * 0x100_0000_0000_0000_0000_0000_0000 / d && lz <= 104 && LeadingZeros(q, lz)
    ensures q != 0 && lz == Zeros(q) <= 53
    ensures 0x100_0000_0000_0000_0000_0000_0000 <= q * Pow2(lz) < 0x200_0000_0000_0000_0000_0000_0000
  {
    hide Pow2, Zeros;
    Pow2Values();
    QuotientAtLeast(a, d, q);
    if lz > 53 { Pow2Mono(105 - lz, 51); }
    hide LeadingZeros;
    ZerosCounts(q, lz);
    Normalised(q, lz);
  }

  lemma QuotientAtLeast(a: nat, d: nat, q: nat)
    requires 0 < a && 0 < d < 0x20_0000_0000_0000 && q == a * 0x100_0000_0000_0000_0000_0000_0000 / d
    ensures q >= 0x8_0000_0000_0000
  {
    var n := a * 0x100_0000_0000_0000_0000_0000_0000;
    assert n == d * q + n % d;
    if q < 0x8_0000_0000_0000 { MulMono(d, q, 0x7_FFFF_FFFF_FFFF); }
  }

  /** The exact quotient in the terms of the integer division. */
  ghost predicate Scaled(A: F64, B: F64, pre: nat, num: nat, den: nat, d: nat, t: nat) {
    && num == Mag(A.Code()) * One() && den == Mag(B.Code()) && d == B.Significand() * Pow2(pre)
    && t == Pow2(A.Scale() + 1022)
  }

  lemma ScaledNumerator(A: F64, B: F64, pre: nat, num: nat, den: nat, d: nat, t: nat)
    requires A.Valid() && Scaled(A, B, pre, num, den, d, t)
    ensures num * 0x10_0000_0000_0000 == A.Significand() * 0x100_0000_0000_0000_0000_0000_0000 * t
  {
    hide Mag, Pow2;
    MagCode(A);
    var a, e := A.Significand(), A.Scale();
    Pow2Values();
    ShiftShift(a, e, 1074);
    ShiftShift(a, e + 1074, 52);
    ShiftShift(a, 104, e + 1022);
  }

  /** One unit of the normalised window is the divisor in the scale of the quotient. */
  lemma ScaledUnit(A: F64, B: F64, pre: nat, num: nat, den: Pos, d: nat, t: nat, lz: nat, x: int)
    requires A.Valid() && B.Valid() && Scaled(A, B, pre, num, den, d, t)
    requires x == AlignExponent(A, B, pre, lz)
    ensures x >= 1 ==> Pow2(lz) * Unit(x - 1, den) == d * t
    ensures x <= 0 ==> d * t * Pow2(1 - x) == Pow2(lz) * den
  {
    hide Mag, Pow2;
    MagCode(B);
    var m, eb, ea := B.Significand(), B.Scale(), A.Scale();
    assert x - 1 == pre - lz + ea - eb + 1022;
    ShiftShift(m, pre, ea + 1022);
    if x >= 1 {
      ShiftShift(m, eb, x - 1);
      ShiftShift(m, eb + x - 1, lz);
      ScaleProduct(Pow2(lz), Pow2(x - 1), den);
    } else {
      ShiftShift(m, pre + ea + 1022, 1 - x);
      ShiftShift(m, eb, lz);
    }
  }

  lemma ScaleProduct(a: int, b: int, c: int)
    ensures a * (b * c) == c * b * a
  {
  }

  /** n / d is the integer quotient of a nonzero dividend, with lz leading zeros. */
  ghost predicate Divides(A: F64, B: F64, pre: nat, num: nat, den: Pos, d: nat, t: nat, n: nat, lz: nat, x: int) {
    && A.Finite() && B.Finite() && A.Significand() > 0 && Scaled(A, B, pre, num, den, d, t)
    && 0x10_0000_0000_0000 <= d < 0x20_0000_0000_0000 && n == A.Significand() * 0x100_0000_0000_0000_0000_0000_0000
    && lz <= 104 && LeadingZeros(n / d, lz) && x == AlignExponent(A, B, pre, lz)
  }

  /** What the integer quotient says about the exact one. */
  lemma Facts(A: F64, B: F64, pre: nat, num: nat, den: Pos, d: nat, t: nat, n: nat, lz: nat, x: int)
    requires Divides(A, B, pre, num, den, d, t, n, lz, x)
    ensures var w := n / d * Pow2(lz);
      0x100_0000_0000_0000_0000_0000_0000 <= w < 0x200_0000_0000_0000_0000_0000_0000 && lz <= 53 && lz == Zeros(n / d)
    ensures n == n / d * d + n % d && n % d < d && num * 0x10_0000_0000_0000 == n * t && t > 0
    ensures x >= 1 ==> Pow2(lz) * Unit(x - 1, den) == d * t
    ensures x <= 0 ==> d * t * Pow2(1 - x) == Pow2(lz) * den
  {
    hide Mag, Pow2, Unit, LeadingZeros, AlignExponent, Zeros;
    QuotientShift(A.Significand(), d, n / d, lz);
    ScaledNumerator(A, B, pre, num, den, d, t);
    ScaledUnit(A, B, pre, num, den, d, t, lz, x);
  }

  lemma NormalCase(A: F64, B: F64, pre: nat, num: nat, den: Pos, d: nat, t: nat, n: nat, lz: nat, x: int, p: nat)
    requires Divides(A, B, pre, num, den, d, t, n, lz, x) && 1 <= x < 0x7FF && p == n / d * Pow2(lz)
    ensures IsRne(num, den, QuotientCode(x, p)) <==> !LosesTail(p, lz, n % d, d)
  {
    hide Mag, Pow2, IsRne, QuotientCode, RoundUp, LosesTail, Unit, Divides, Zeros;
    Facts(A, B, pre, num, den, d, t, n, lz, x);
    NormalQuotient(num, den, n / d, n, d, n % d, lz, t, x, p);
  }

  lemma InfiniteCase(A: F64, B: F64, pre: nat, num: nat, den: Pos, d: nat, t: nat, n: nat, lz: nat, x: int)
    requires Divides(A, B, pre, num, den, d, t, n, lz, x) && x >= 0x7FF
    ensures IsRne(num, den, INF)
  {
    hide Mag, Pow2, IsRne, Unit, Divides, Zeros;
    Facts(A, B, pre, num, den, d, t, n, lz, x);
    var q, w := n / d, n / d * Pow2(lz);
    ScaleArith(n, d, q, n % d, Pow2(lz), t, Unit(x - 1, den), num * 0x10_0000_0000_0000, w);
    TopBound(num, den, w, x);
  }

  lemma TopBound(num: nat, den: Pos, w: nat, x: int)
    requires x >= 0x7FF && 0x100_0000_0000_0000_0000_0000_0000 <= w
    requires w * Unit(x - 1, den) <= num * 0x10_0000_0000_0000
    ensures IsRne(num, den, INF)
  {
    hide Mag, Pow2, IsRne;
    var u := Unit(x - 1, den);
    MulMono(u, 0x100_0000_0000_0000_0000_0000_0000, w);
    Pow2Mono(0x7FE, x - 1);
    MulMono(den, Pow2(0x7FE), Pow2(x - 1));
    MagNormal(0x7FE, 0);
    Associate(0x10_0000_0000_0000, Pow2(0x7FE), den);
    RneOverflow(num, den);
  }

  /** Below the normal range, with every missing bit cut off. */
  lemma SubnormalCase(A: F64, B: F64, pre: nat, num: nat, den: Pos, d: nat, t: nat, n: nat, lz: nat, x: int, p: nat)
    requires Divides(A, B, pre, num, den, d, t, n, lz, x)
    requires x <= 0 && lz <= 1 - x && p == n / d * Pow2(lz) / Pow2(1 - x)
    ensures IsRne(num, den, QuotientCode(x, p)) <==> !LosesCut(num * 0x10_0000_0000_0000, den)
  {
    hide Mag, Pow2, IsRne, Divides, QuotientCode, RoundUp, Tie, WindowCode, LosesCut, Unit, Zeros;
    Facts(A, B, pre, num, den, d, t, n, lz, x);
    var w, y, s, g := n / d * Pow2(lz), num * 0x10_0000_0000_0000, Pow2(1 - x), Pow2(lz);
    Pow2Add(lz, 1 - x - lz);
    SubnormalCut(n, d, n / d, n % d, t, s, g, Pow2(1 - x - lz), den, y, w);
    SubnormalBound(w, x, p);
    SubnormalRounds(num, den, y, x, p);
  }

  /** Below the normal range, with missing bits left after the cut. */
  lemma ShiftedCase(A: F64, B: F64, pre: nat, num: nat, den: Pos, d: nat, t: nat, n: nat, lz: nat, x: int, p: nat)
    requires Divides(A, B, pre, num, den, d, t, n, lz, x)
    requires x <= 0 && lz > 1 - x && p == n / d * Pow2(lz) / Pow2(1 - x)
    ensures p == n / d * Pow2(lz - (1 - x))
    ensures IsRne(num, den, QuotientCode(x, p)) <==> !LosesShifted(p, lz - (1 - x), n % d, d)
  {
    hide Mag, Pow2, IsRne, Divides, QuotientCode, RoundUp, LosesTail, WindowCode, Unit, Zeros;
    Facts(A, B, pre, num, den, d, t, n, lz, x);
    var k, s, q := lz - (1 - x), Pow2(1 - x), n / d;
    ShiftShift(q, k, 1 - x);
    ShiftBack(q * Pow2(k), 1 - x);
    SubnormalBound(q * Pow2(lz), x, p);
    Pow2Add(k, 1 - x);
    assert Pow2(k) * den == d * t by { CancelShift(Pow2(k), s, den, d * t); }
    UnitZero(den);
    CutCode(p);
    TailRounds(num, den, 0, n, d, q, n % d, t, k, p);
    QuotientSubnormal(x, p);
    if p / 0x10_0000_0000_0000 + RoundUp(p) == 0x10_0000_0000_0000 {
      ScaleArith(n, d, q, n % d, Pow2(k), t, den, num * 0x10_0000_0000_0000, p);
      NotZero(num, den, p);
    }
  }

  lemma CancelShift(g: int, s: int, den: int, c: int)
    requires s > 0 && c * s == g * s * den
    ensures g * den == c
  {
    assert s * (g * den) == g * s * den;
    MulStrict(s, g * den, c);
  }

  /** A value near the smallest normal number does not round to zero. */
  lemma NotZero(num: nat, den: Pos, p: nat)
    requires p * den <= num * 0x10_0000_0000_0000 && p >= 0x20_0000_0000_0000
    ensures !IsRne(num, den, 0)
  {
    MulMono(den, 0x20_0000_0000_0000, p);
    assert Mag(0) == 0 && Mag(1) == 1;
    assert Dist(num, den, 1) < Dist(num, den, 0);
  }

  lemma SubnormalRounds(num: nat, den: Pos, y: nat, x: int, p: nat)
    requires y == num * 0x10_0000_0000_0000 && p == y / den && x <= 0
    requires p < 0x100_0000_0000_0000_0000_0000_0000
    ensures IsRne(num, den, QuotientCode(x, p)) <==> !LosesCut(y, den)
  {
    hide Mag, Pow2, IsRne, QuotientCode, RoundUp, Tie, WindowCode;
    assert y < 0x100_0000_0000_0000_0000_0000_0000 * den by {
      assert y == den * p + y % den;
      MulMono(den, p + 1, 0x100_0000_0000_0000_0000_0000_0000);
    }
    CutRounds(num, den, y, p);
    QuotientSubnormal(x, p);
    if p / 0x10_0000_0000_0000 + RoundUp(p) == 0x10_0000_0000_0000 { CarryNotZero(num, den, y, p); }
  }

  lemma SubnormalBound(w: nat, x: int, p: nat)
    requires x <= 0 && w < 0x200_0000_0000_0000_0000_0000_0000 && p == w / Pow2(1 - x)
    ensures p < 0x100_0000_0000_0000_0000_0000_0000
  {
    hide Pow2;
    Pow2Values();
    Pow2Mono(1, 1 - x);
    var s := Pow2(1 - x);
    assert w == s * p + w % s;
    MulMono(p, 2, s);
  }

  lemma SubnormalCut(n: nat, d: nat, q: nat, r: nat, t: nat, s: nat, g: nat, h: nat, den: Pos, y: nat, w: nat)
    requires d > 0 && n == q * d + r && r < d && y == n * t && g > 0 && w == q * g
    requires s == g * h && s > 0 && t > 0 && d * t * s == g * den
    ensures w / s == y / den
  {
    var rho := r * t * s;
    assert y * s == w * den + rho by {
      assert (q * d + r) * t * s == q * (d * t * s) + r * t * s;
      assert q * (g * den) == q * g * den;
    }
    assert rho < g * den by {
      Associate(r, t, s);
      Associate(d, t, s);
      MulStrict(t, 0, s);
      MulStrict(t * s, r, d);
    }
    DivUnique(w, g, q, 0);
    DivUnique(s, g, h, 0);
    CutArith(y, s, den, w, g, rho);
  }

  // ------------------------------------------------------------------ FDIV.D

  /** Left alignment of the quotient bus into the 105-bit window. */
  method AlignQuotient(w: array<int>, lshift: nat) returns (a: array<int>)
    requires w.Length == 106 && IsBits(w[..105]) && lshift <= 104 && Value(w[..105]) < Pow2(105 - lshift)
    ensures fresh(a) && a.Length == 105 && IsBits(a[..])
    ensures On(a) == Value(w[..105]) * Pow2(lshift)
  {
    hide Value, Pow2;
    a := new int[105];
    for i := 0 to 105
      invariant forall k | 0 <= k < i :: a[k] == if k - lshift >= 0 then w[k - lshift] else 0
    {
      if i - lshift >= 0 {
        a[i] := w[i - lshift];
      } else {
        a[i] := 0;
      }
    }
    ghost var s := w[..105] + [0];
    ValueAppend(w[..105], 0);
    AlignedValue(s, a[..], lshift);
  }

  /** What division, normalisation and post-shift compute. */
  ghost predicate Aligned(A: F64, B: F64, lz: nat, x: int, p: nat) {
    var a, d, pre := A.Significand(), Divisor(B.Significand()), PreShift(B.Significand(), 0);
    && x == AlignExponent(A, B, pre, lz) && lz <= 104
    && (d == 0 ==> lz == 0 && x > 0 && p == 0x1FF_FFFF_FFFF_FFFF_FFFF_FFFF_FFFF)
    && (d != 0 && a == 0 ==> p == 0)
    && (d != 0 && a != 0 ==>
        && LeadingZeros(a * 0x100_0000_0000_0000_0000_0000_0000 / d, lz)
        && p == a * 0x100_0000_0000_0000_0000_0000_0000 / d * Pow2(lz) / Pow2(if x <= 0 then 1 - x else 0))
  }

  lemma DivisorNormal(m: nat)
    requires m < 0x20_0000_0000_0000
    ensures if m == 0 then Divisor(m) == 0 && PreShift(m, 0) == 52
            else 0x10_0000_0000_0000 <= Divisor(m) < 0x20_0000_0000_0000
  {
    hide Pow2;
    Pow2Values();
    if m == 0 { PreShiftZero(0); } else { PreShiftNormalises(m, 0); }
  }

  lemma {:induction false} PreShiftZero(i: nat)
    requires i <= 52
    ensures PreShift(0, i) == 52
    decreases 52 - i
  {
    ModSmall(0, Pow2(52 - i));
    if i < 52 { PreShiftZero(i + 1); }
  }

  method FindPreShift(mantB: nat) returns (preShift: nat)
    ensures preShift == PreShift(mantB, 0)
  {
    preShift := 0;
    while preShift < 52 && Bit(mantB, 52 - preShift) == 0
      invariant preShift <= 52 && PreShift(mantB, preShift) == PreShift(mantB, 0)
    {
      preShift := preShift + 1;
    }
  }

  method DivideMantissas(mantA: nat, mantB: nat, preShift: nat) returns (idivResult: array<int>, idivLShift: nat)
    requires mantA < 0x20_0000_0000_0000 && mantB < 0x20_0000_0000_0000 && preShift == PreShift(mantB, 0)
    ensures fresh(idivResult) && idivResult.Length == 106 && IsBits(idivResult[..105])
    ensures Divided(mantA, Divisor(mantB), idivLShift, Value(idivResult[..105]))
  {
    hide Pow2, Value, LeadingZeros, PreShift;
    var divisor := mantB * Pow2(preShift);
    DivisorNormal(mantB);
    var idivOverBit, idivZeroResid;
    idivResult, idivLShift, idivOverBit, idivZeroResid := Idiv53(mantA, divisor);
  }

  /** Division, normalisation, post-shift and rounding. */
  method QuotientWindow(A: F64, B: F64)
      returns (expAlign: int, mantShort: nat, mantOnes: int, rndBit: nat, ghost lz: nat, ghost p: nat)
    requires A.Valid() && B.Valid()
    ensures Aligned(A, B, lz, expAlign, p)
    ensures mantShort == p / 0x10_0000_0000_0000 < 0x20_0000_0000_0000
    ensures mantOnes == if mantShort == 0x1F_FFFF_FFFF_FFFF then 1 else 0
    ensures rndBit == RoundUp(p)
  {
    hide Pow2, Value, RoundUp, LeadingZeros, PreShift, Divided, Aligned;
    var mantA := A.Significand();
    var mantB := B.Significand();
    var preShift := FindPreShift(mantB);
    var idivResult, idivLShift := DivideMantissas(mantA, mantB, preShift);
    ghost var divisor := Divisor(mantB);
    QuotientFits(mantA, divisor, idivLShift, Value(idivResult[..105]));
    var mantAlign := AlignQuotient(idivResult, idivLShift);

    var expAB: int := A.exp - B.exp + 1023;
    var expShift: int;
    if B.exp == 0 && A.exp != 0 {
      expShift := (preShift as int) - idivLShift - 1;
    } else if B.exp != 0 && A.exp == 0 {
      expShift := (preShift as int) - idivLShift + 1;
    } else {
      expShift := (preShift as int) - idivLShift;
    }
    expAlign := expAB + expShift;
    var postShift := 0;
    if expAlign <= 0 {
      postShift := -expAlign;
      postShift := postShift + 1;
    }

    var mantPostScale := ShiftRight(mantAlign, postShift);
    mantShort, mantOnes, rndBit := RoundWindow(mantPostScale);
    lz, p := idivLShift, On(mantPostScale);
    AlignedHolds(A, B, divisor, lz, expAlign, Value(idivResult[..105]), p);
  }

  /** The divider's result v and shift lz. */
  ghost predicate Divided(a: nat, d: nat, lz: nat, v: nat) {
    && lz <= 104
    && (d != 0 ==> v == a * Pow2(104) / d)
    && (d != 0 && a != 0 ==> LeadingZeros(a * Pow2(104) / d, lz))
    && (d == 0 ==> v == 0x1FF_FFFF_FFFF_FFFF_FFFF_FFFF_FFFF && lz == 0)
  }

  lemma QuotientFits(a: nat, d: nat, lz: nat, v: nat)
    requires Divided(a, d, lz, v)
    ensures lz <= 104
    ensures v < Pow2(105 - lz)
  {
    hide Pow2;
    Pow2Values();
    if d != 0 && a == 0 { ModSmall(0, d); }
  }

  lemma AlignedHolds(A: F64, B: F64, d: nat, lz: nat, x: int, v: nat, p: nat)
    requires A.Valid() && B.Valid() && d == Divisor(B.Significand())
    requires x == AlignExponent(A, B, PreShift(B.Significand(), 0), lz)
    requires Divided(A.Significand(), d, lz, v)
    requires p == v * Pow2(lz) / Pow2(if x <= 0 then 1 - x else 0)
    ensures Aligned(A, B, lz, x, p)
  {
    hide Pow2, LeadingZeros, PreShift, Divisor;
    Pow2Values();
    DivisorNormal(B.Significand());
    if d == 0 {
      NoShift(v);
    } else if A.Significand() == 0 {
      ModSmall(0, d);
      ModSmall(0, Pow2(if x <= 0 then 1 - x else 0));
    }
  }

  /** Bit k of the two's-complement word holding x. */
  function WordBitOf(x: int, w: Pos): int {
    x / w % 2
  }

  method DivSignMux(A: F64, B: F64, zeroA: bool, divOnZero: bool) returns (sign: nat)
    ensures !A.IsNaN() && !B.IsNaN() && !(A.IsInf() && B.IsInf()) && !(zeroA && divOnZero) ==>
      sign == Xor(A.sign, B.sign)
    ensures A.sign < 2 && B.sign < 2 ==> sign < 2
  {
    var nanA, nanB := A.exp == 0x7FF, B.exp == 0x7FF;
    var mantZeroA, mantZeroB := A.mant == 0, B.mant == 0;
    if nanA && mantZeroA && nanB && mantZeroB {
      sign := 1;
    } else if nanA && !mantZeroA {
      sign := A.sign;
    } else if nanB && !mantZeroB {
      sign := B.sign;
    } else if divOnZero && zeroA {
      sign := 1;
    } else {
      sign := Xor(A.sign, B.sign);
    }
  }

  method DivExpMux(A: F64, B: F64, zeroA: bool, zeroB: bool, divOnZero: bool, expAlign: int, mantOnes: int, rndBit: nat)
      returns (exp: nat)
    requires -2048 <= expAlign < 4096 && A.exp < 0x800 && B.exp < 0x800
    ensures A.exp < 0x7FF && B.exp < 0x7FF ==>
      exp == if divOnZero then 0x7FF else if zeroA || zeroB then 0 else ExpField(expAlign, And(mantOnes, rndBit))
    ensures B.IsNaN() || (A.exp == 0x7FF && !zeroA && (zeroB ==> divOnZero) && expAlign >= 0) ==> exp == 0x7FF
    ensures B.IsInf() && A.exp < 0x7FF && !divOnZero && expAlign < 0x800 ==> exp == 0
    ensures exp < 0x800
  {
    var nanA, nanB, mantZeroB := A.exp == 0x7FF, B.exp == 0x7FF, B.mant == 0;
    var overflow := And(Not(WordBitOf(expAlign, 4096)), WordBitOf(expAlign, 2048));
    var underflow := And(WordBitOf(expAlign, 4096), WordBitOf(expAlign, 2048));
    if nanB && !mantZeroB {
      exp := B.exp;
    } else if (underflow != 0 || zeroA || zeroB) && !divOnZero {
      exp := 0;
    } else if overflow != 0 || divOnZero {
      exp := 0x7FF;
    } else if nanA {
      exp := A.exp;
    } else if (nanB && mantZeroB) || expAlign < 0 {
      exp := 0;
    } else {
      exp := (expAlign + And(And(mantOnes, rndBit), Not(overflow))) % 0x800;
    }
  }

  method DivMantMux(A: F64, B: F64, zeroA: bool, zeroB: bool, expAlign: int, mantShort: nat, rndBit: nat)
      returns (mant: nat)
    requires -2048 <= expAlign < 4096
    ensures A.exp < 0x7FF && B.exp < 0x7FF ==>
      mant == if zeroA && zeroB then 0x8_0000_0000_0000
              else if expAlign >= 0x7FF then 0 else (mantShort + rndBit) % 0x10_0000_0000_0000
    ensures A.Valid() && B.Valid() ==> mant < 0x10_0000_0000_0000
    ensures A.Valid() && B.Valid() && (A.IsNaN() || B.IsNaN() || (A.IsInf() && B.IsInf())) ==> mant != 0
    ensures !A.IsNaN() && !B.IsNaN() && (A.IsInf() || B.IsInf()) && !(A.IsInf() && B.IsInf()) && !(zeroA && zeroB) ==>
      mant == 0
  {
    var nanA, nanB := A.exp == 0x7FF, B.exp == 0x7FF;
    var mantZeroA, mantZeroB := A.mant == 0, B.mant == 0;
    var nanRes := expAlign == 0x7FF;
    var overflow := And(Not(WordBitOf(expAlign, 4096)), WordBitOf(expAlign, 2048));
    if (zeroA && zeroB) || (nanA && mantZeroA && nanB && mantZeroB) {
      mant := 0x8_0000_0000_0000;
    } else if nanA && !mantZeroA {
      mant := SetQuiet(A.mant);
    } else if nanB && !mantZeroB {
      mant := SetQuiet(B.mant);
    } else if overflow != 0 || nanRes || (nanA && mantZeroA) || (nanB && mantZeroB) {
      mant := 0;
    } else {
      mant := (mantShort + rndBit) % 0x10_0000_0000_0000;
    }
  }

  /** The quotient when an operand is infinite or NaN, or both are zero (IEEE 754-2008 sections 6.1, 6.2
      and 7.2), and of a nonzero number by zero (section 7.3). */
  ghost predicate QuotientSpecial(A: F64, B: F64, r: F64) {
    if A.IsNaN() || B.IsNaN() || (A.IsInf() && B.IsInf()) || (A.Code() == 0 && B.Code() == 0) then r.IsNaN()
    else if A.IsInf() || B.Code() == 0 then r == F64(Xor(A.sign, B.sign), 0x7FF, 0)
    else r == F64(Xor(A.sign, B.sign), 0, 0)
  }

  /** What FDIV.D returns: the quotient of finite operands by nonzero ones, rounded correctly exactly when
      LosesQuotient is false, and always the right result for infinities, NaNs and zero divisors. */
  ghost predicate DivResult(A: F64, B: F64, dest: F64) {
    && dest.Valid()
    && (if A.Finite() && B.Finite() && Mag(B.Code()) > 0 then
          && dest.sign == Xor(A.sign, B.sign)
          && (RoundsQuotient(A, B, dest.Code()) <==> !LosesQuotient(A, B))
        else QuotientSpecial(A, B, dest))
  }

  /** FDIV.D. */
  method DivD(A: F64, B: F64) returns (dest: F64)
    requires A.Valid() && B.Valid()
    ensures DivResult(A, B, dest)
  {
    hide Pow2, Mag, RoundsQuotient, RoundUp, LosesQuotient, Aligned, DivResult, QuotientSpecial;
    var zeroA := A.exp == 0 && A.mant == 0;
    var zeroB := B.exp == 0 && B.mant == 0;
    var expAlign, mantShort, mantOnes, rndBit; ghost var lz, p;
    expAlign, mantShort, mantOnes, rndBit, lz, p := QuotientWindow(A, B);
    ExponentRange(A, B, lz, expAlign, p);
    dest := DivMux(A, B, zeroA, zeroB, expAlign, mantShort, mantOnes, rndBit, p);
    DivFields(A, B, lz, expAlign, p, dest);
  }

  /** The three result multiplexers together. */
  method DivMux(A: F64, B: F64, zeroA: bool, zeroB: bool, expAlign: int, mantShort: nat, mantOnes: int, rndBit: nat,
                ghost p: nat)
      returns (dest: F64)
    requires A.Valid() && B.Valid() && -2048 <= expAlign < 4096
    requires (A.exp == 0x7FF ==> expAlign >= 0) && (B.exp == 0x7FF && A.exp < 0x7FF ==> expAlign < 0x800)
    requires (zeroA <==> A.exp == 0 && A.mant == 0) && (zeroB <==> B.exp == 0 && B.mant == 0)
    requires mantShort == p / 0x10_0000_0000_0000 && rndBit == RoundUp(p)
    requires mantOnes == if mantShort == 0x1F_FFFF_FFFF_FFFF then 1 else 0
    ensures dest.Valid()
    ensures A.Finite() && B.Finite() && !(zeroA && zeroB) ==> dest.sign == Xor(A.sign, B.sign)
    ensures A.Finite() && B.Finite() ==>
      && dest.exp == (if zeroB then 0x7FF else if zeroA then 0 else QuotientExp(expAlign, p))
      && dest.mant == if zeroA && zeroB then 0x8_0000_0000_0000 else QuotientMant(expAlign, p)
    ensures !(A.Finite() && B.Finite()) ==> QuotientSpecial(A, B, dest)
  {
    hide RoundUp, ExpField;
    var divOnZero := zeroB || B.Significand() == 0;
    var sign := DivSignMux(A, B, zeroA, divOnZero);
    var exp := DivExpMux(A, B, zeroA, zeroB, divOnZero, expAlign, mantOnes, rndBit);
    var mant := DivMantMux(A, B, zeroA, zeroB, expAlign, mantShort, rndBit);
    dest := F64(sign, exp, mant);
  }

  lemma DivFields(A: F64, B: F64, lz: nat, x: int, p: nat, dest: F64)
    requires A.Valid() && B.Valid() && Aligned(A, B, lz, x, p) && dest.Valid()
    requires A.Finite() && B.Finite() && (A.Code() != 0 || B.Code() != 0) ==> dest.sign == Xor(A.sign, B.sign)
    requires A.Finite() && B.Finite() ==>
      && dest.exp == (if B.Code() == 0 then 0x7FF else if A.Code() == 0 then 0 else QuotientExp(x, p))
      && dest.mant == if A.Code() == 0 && B.Code() == 0 then 0x8_0000_0000_0000 else QuotientMant(x, p)
    requires !(A.Finite() && B.Finite()) ==> QuotientSpecial(A, B, dest)
    ensures DivResult(A, B, dest)
  {
    hide Pow2, Mag, RoundsQuotient, RoundUp, LosesQuotient, Aligned, QuotientExp, QuotientMant;
    if A.Finite() && B.Finite() {
      MagPositive(B);
      MagPositive(A);
      if A.Code() == 0 || B.Code() == 0 { ZeroMantissa(A, B, lz, x, p); }
      if A.Code() == 0 && B.Code() != 0 { ZeroRounds(A, B); }
      if A.Code() != 0 && B.Code() != 0 { QuotientCorrect(A, B, lz, x, p); }
    }
  }

  lemma ZeroMantissa(A: F64, B: F64, lz: nat, x: int, p: nat)
    requires A.Finite() && B.Finite() && Aligned(A, B, lz, x, p) && (A.Code() == 0 || B.Code() == 0)
    ensures QuotientMant(x, p) == 0
  {
    hide Pow2, Mag, RoundUp, Aligned;
    MagPositive(B);
    MagPositive(A);
    ZeroQuotient(A, B, lz, x, p);
  }

  lemma ExponentRange(A: F64, B: F64, lz: nat, x: int, p: nat)
    requires A.Valid() && B.Valid() && Aligned(A, B, lz, x, p)
    ensures -2048 <= x < 4096
    ensures (A.exp == 0x7FF ==> x >= 0) && (B.exp == 0x7FF && A.exp < 0x7FF ==> x < 0x800)
  {
    hide Pow2, Divisor, LeadingZeros;
  }

  /** Zero divided by a nonzero number. */
  lemma ZeroRounds(A: F64, B: F64)
    requires A.Valid() && A.Code() == 0 && Mag(B.Code()) > 0
    ensures RoundsQuotient(A, B, 0) && !LosesQuotient(A, B)
  {
    hide Pow2, Divisor, PreShift, Zeros;
    assert Mag(0) == 0;
  }

  lemma MagPositive(B: F64)
    requires B.Valid()
    ensures Mag(B.Code()) > 0 <==> B.Significand() != 0
    ensures B.Significand() == 0 <==> B.exp == 0 && B.mant == 0
    ensures B.Code() == 0 <==> B.exp == 0 && B.mant == 0
  {
    hide Mag, Pow2;
    MagCode(B);
    MulStrict(Pow2(B.Scale()), 0, B.Significand());
  }

  lemma ZeroQuotient(A: F64, B: F64, lz: nat, x: int, p: nat)
    requires A.Finite() && B.Finite() && Aligned(A, B, lz, x, p)
    ensures A.Significand() == 0 && B.Significand() != 0 ==> p == 0 && RoundUp(p) == 0 && x < 0x7FF
    ensures B.Significand() == 0 ==> (p / 0x10_0000_0000_0000 + RoundUp(p)) % 0x10_0000_0000_0000 == 0
  {
    hide Pow2, LeadingZeros, RoundUp, Aligned;
    AllOnesRound();
    if B.Significand() == 0 {
      ZeroDivisorWindow(A, B, lz, x, p);
    } else if A.Significand() == 0 {
      ZeroDividendWindow(A, B, lz, x, p);
    }
  }

  lemma ZeroDivisorWindow(A: F64, B: F64, lz: nat, x: int, p: nat)
    requires B.Valid() && Aligned(A, B, lz, x, p) && B.Significand() == 0
    ensures p == 0x1FF_FFFF_FFFF_FFFF_FFFF_FFFF_FFFF
  {
    hide Pow2, LeadingZeros, Divisor, PreShift, AlignExponent;
    DivisorNormal(B.Significand());
  }

  lemma ZeroDividendWindow(A: F64, B: F64, lz: nat, x: int, p: nat)
    requires A.Valid() && B.Valid() && Aligned(A, B, lz, x, p) && A.Significand() == 0 && B.Significand() != 0
    ensures p == 0 && x < 0x7FF
  {
    hide Pow2, LeadingZeros, Divisor, PreShift;
    DivisorNormal(B.Significand());
  }

  lemma AllOnesRound()
    ensures RoundUp(0) == 0 && RoundUp(0x1FF_FFFF_FFFF_FFFF_FFFF_FFFF_FFFF) == 1
    ensures (0x1FF_FFFF_FFFF_FFFF_FFFF_FFFF_FFFF / 0x10_0000_0000_0000 + 1) % 0x10_0000_0000_0000 == 0
  {
  }

  /** The fields computed for nonzero operands are the correctly rounded quotient, unless LosesQuotient. */
  lemma QuotientCorrect(A: F64, B: F64, lz: nat, x: int, p: nat)
    requires A.Finite() && B.Finite() && A.Code() != 0 && Mag(B.Code()) > 0 && Aligned(A, B, lz, x, p)
    ensures QuotientExp(x, p) < 0x800 && QuotientMant(x, p) < 0x10_0000_0000_0000
    ensures RoundsQuotient(A, B, QuotientCode(x, p)) <==> !LosesQuotient(A, B)
  {
    hide Pow2, Mag, IsRne, RoundUp, LosesTail, LeadingZeros, AlignExponent, LosesCut, QuotientCode, Zeros;
    MagPositive(A);
    MagPositive(B);
    DivisorNormal(B.Significand());
    var a, d, pre := A.Significand(), Divisor(B.Significand()), PreShift(B.Significand(), 0);
    var num, den, t := Mag(A.Code()) * One(), Mag(B.Code()), Pow2(A.Scale() + 1022);
    var n := a * 0x100_0000_0000_0000_0000_0000_0000;
    Facts(A, B, pre, num, den, d, t, n, lz, x);
    if x > 0 {
      NoShift(n / d * Pow2(lz));
      if x < 0x7FF {
        NormalCase(A, B, pre, num, den, d, t, n, lz, x, p);
      } else {
        InfiniteCase(A, B, pre, num, den, d, t, n, lz, x);
        QuotientTop(x, p);
        if QuotientCode(x, p) == 0 && IsRne(num, den, 0) { RneUnique(num, den, 0, INF); }
      }
    } else if lz <= 1 - x {
      SubnormalCase(A, B, pre, num, den, d, t, n, lz, x, p);
    } else {
      ShiftedCase(A, B, pre, num, den, d, t, n, lz, x, p);
    }
  }

  /** A quotient just above a tie, both operands between 1 and 2: the remainder is all that says so. */
  lemma QuotientCounterexample()
    ensures var A, B := F64(0, 1023, 0x8_d672_6a2d_ae39), F64(0, 1023, 0x6_0ddc_59d4_f4f3);
      Mag(B.Code()) > 0 && LosesQuotient(A, B)
  {
    hide Pow2, Mag, Bit;
    var A, B := F64(0, 1023, 0x8_d672_6a2d_ae39), F64(0, 1023, 0x6_0ddc_59d4_f4f3);
    var a, d := 0x18_d672_6a2d_ae39, 0x16_0ddc_59d4_f4f3;
    MagPositive(B);
    assert A.Significand() == a && B.Significand() == d;
    NormalDivisor(d);
    DivUnique(a * 0x100_0000_0000_0000_0000_0000_0000, d, 0x120_4f8e_1c35_de28_0000_0000_0000, 0x8_0000_0000_0000);
    Pow2Values();
  }

  /** A normal divisor is used as it is. */
  lemma NormalDivisor(m: nat)
    requires 0x10_0000_0000_0000 <= m < 0x20_0000_0000_0000
    ensures PreShift(m, 0) == 0 && Divisor(m) == m
  {
    Pow2Values();
    assert Pow2(0) == 1;
    assert m / 0x10_0000_0000_0000 == 1;
  }

  /** The smallest subnormal number divided by three times itself: the quotient has 52 bits, so the
      last mantissa bit of one third is missing, without any tie. */
  lemma SubnormalCounterexample()
    ensures var A, B := F64(0, 0, 1), F64(0, 0, 3);
      Mag(B.Code()) > 0 && LosesQuotient(A, B)
  {
    hide Pow2, Mag, Bit, Zeros, PreShift, LeadingZeros;
    var A, B := F64(0, 0, 1), F64(0, 0, 3);
    MagPositive(B);
    Pow2Values();
    assert A.Significand() == 1 && B.Significand() == 3;
    ThreePreShift();
    var d, q := 0x18_0000_0000_0000, 0xA_AAAA_AAAA_AAAA;
    DivUnique(0x100_0000_0000_0000_0000_0000_0000, d, q, 0x10_0000_0000_0000);
    assert LeadingZeros(q, 53) by { Leads(); }
    ZerosCounts(q, 53);
  }

  lemma Leads()
    ensures LeadingZeros(0xA_AAAA_AAAA_AAAA, 53)
  {
    hide Pow2;
    Pow2Values();
  }

  lemma ThreePreShift()
    ensures PreShift(3, 0) == 51 && Divisor(3) == 0x18_0000_0000_0000
  {
    hide Pow2, PreShift;
    Pow2Values();
    var pre := PreShift(3, 0);
    DivisorNormal(3);
    if pre < 51 { Pow2Mono(pre, 50); Pow2Next(50); }
  }
}
