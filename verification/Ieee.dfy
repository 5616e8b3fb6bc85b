/** Double-precision numbers and IEEE 754-2008 round-to-nearest-even (section 4.3.1), stated
    without reference to any rounding circuit: the nearest encoding, ties to the even one. */
module Ieee {
  import opened Bits

  type Pos = d: int | d > 0 witness 1

  /** Exponent 0x7FF, mantissa 0: infinity, which also plays the part of 2^1024. */
  const INF: nat := 0x7FF0_0000_0000_0000

  /** The three fields of a 64-bit register read as a double (f64_bits_type). */
  datatype F64 = F64(sign: nat, exp: nat, mant: nat) {
    ghost predicate Valid() {
      sign < 2 && exp < 0x800 && mant < 0x10_0000_0000_0000
    }

    ghost predicate Finite() {
      Valid() && exp < 0x7FF
    }

    predicate IsNaN() {
      exp == 0x7FF && mant != 0
    }

    predicate IsInf() {
      exp == 0x7FF && mant == 0
    }

    /** Exponent and mantissa read as one number: the order of magnitudes is the order of codes. */
    function Code(): (k: nat) {
      exp * 0x10_0000_0000_0000 + mant
    }

    /** The significand with the hidden bit. */
    function Significand(): (m: nat) {
      if exp == 0 then mant else 0x10_0000_0000_0000 + mant
    }

    /** Power of two the significand is weighted with, in units of 2^-1074. */
    function Scale(): (e: nat) {
      if exp == 0 then 0 else exp - 1
    }

    /** The value of a finite double, in units of 2^-1074; infinities count as 2^1024. */
    ghost function Signed(): int {
      if sign == 0 then Mag(Code()) else -(Mag(Code()) as int)
    }
  }

  /** Magnitude of the code k, in units of 2^-1074; Mag(INF) is 2^1024. */
  function Mag(k: nat): nat {
    if k < 0x10_0000_0000_0000 then k
    else (0x10_0000_0000_0000 + k % 0x10_0000_0000_0000) * Pow2(k / 0x10_0000_0000_0000 - 1)
  }

  /** The number 1.0 in units of 2^-1074. */
  ghost function One(): Pos {
    Pow2(1074)
  }

  ghost function Abs(x: int): nat {
    if x < 0 then -x else x
  }

  /** Distance of the code k from the exact magnitude num / den, scaled by den. */
  ghost function Dist(num: nat, den: Pos, k: nat): nat {
    Abs(Mag(k) * den - num)
  }

  /** k is the correctly rounded code of num / den (units of 2^-1074): no code is nearer, and a
      code that is equally near loses to an even k. */
  ghost predicate IsRne(num: nat, den: Pos, k: nat) {
    && k <= INF
    && forall j: nat | j <= INF ::
         && Dist(num, den, k) <= Dist(num, den, j)
         && (Dist(num, den, k) == Dist(num, den, j) && j != k ==> k % 2 == 0)
  }

  /** The units: the register 0x3FF0000000000000 is 1.0, the smallest positive one is 2^-1074. */
  lemma Units()
    ensures Mag(0x3FF0_0000_0000_0000) == One() && Mag(1) == 1 && One() == Pow2(1074)
    ensures F64(0, 0x3FF, 0).Code() == 0x3FF0_0000_0000_0000
  {
    hide Mag, Pow2;
    MagNormal(1022, 0);
    MagSubnormal(1);
    Pow2Values();
    Pow2Add(1022, 52);
    assert Pow2(0) == 1 by { PowerZero(); }
  }

  lemma PowerZero()
    ensures Pow2(0) == 1
  {
  }

  // ------------------------------------------------------------------ magnitudes

  lemma MagNormal(e: nat, r: nat)
    requires r < 0x10_0000_0000_0000
    ensures Mag((e + 1) * 0x10_0000_0000_0000 + r) == (0x10_0000_0000_0000 + r) * Pow2(e)
  {
    hide Pow2;
    var k := (e + 1) * 0x10_0000_0000_0000 + r;
    DivUnique(k, 0x10_0000_0000_0000, e + 1, r);
  }

  /** Inside a binade, both ends included, the magnitude is significand times weight. */
  lemma MagOf(e: nat, m: nat)
    requires m <= 0x20_0000_0000_0000 && (e == 0 || 0x10_0000_0000_0000 <= m)
    ensures Mag(e * 0x10_0000_0000_0000 + m) == m * Pow2(e)
  {
    if m < 0x10_0000_0000_0000 {
      hide Mag, Pow2;
      MagSubnormal(m);
    } else if m < 0x20_0000_0000_0000 {
      hide Mag, Pow2;
      assert e * 0x10_0000_0000_0000 + m == (e + 1) * 0x10_0000_0000_0000 + (m - 0x10_0000_0000_0000);
      MagNormal(e, m - 0x10_0000_0000_0000);
    } else {
      hide Mag, Pow2;
      MagTop(e);
    }
  }

  lemma MagTop(e: nat)
    ensures Mag(e * 0x10_0000_0000_0000 + 0x20_0000_0000_0000) == 0x20_0000_0000_0000 * Pow2(e)
  {
    hide Mag;
    var k := (e + 2) * 0x10_0000_0000_0000;
    assert Mag(k) == 0x10_0000_0000_0000 * Pow2(e + 1) by { MagNormal(e + 1, 0); }
  }

  lemma MagSubnormal(m: nat)
    requires m < 0x10_0000_0000_0000
    ensures Mag(m) == m * Pow2(0)
  {
    assert Pow2(0) == 1;
  }

  lemma MagCode(d: F64)
    requires d.Valid()
    ensures Mag(d.Code()) == d.Significand() * Pow2(d.Scale())
    ensures d.Code() == d.Scale() * 0x10_0000_0000_0000 + d.Significand()
  {
    hide Mag, Pow2;
    MagOf(d.Scale(), d.Significand());
  }

  /** Every code is a significand in a binade. */
  lemma CodeSplit(k: nat) returns (e: nat, m: nat)
    ensures k == e * 0x10_0000_0000_0000 + m && m < 0x20_0000_0000_0000 && (e == 0 || 0x10_0000_0000_0000 <= m)
  {
    if k < 0x20_0000_0000_0000 {
      e, m := 0, k;
    } else {
      e, m := k / 0x10_0000_0000_0000 - 1, 0x10_0000_0000_0000 + k % 0x10_0000_0000_0000;
    }
  }

  lemma MagStep(k: nat)
    ensures Mag(k) < Mag(k + 1)
  {
    hide Mag, Pow2;
    var e, m := CodeSplit(k);
    MagOf(e, m);
    MagOf(e, m + 1);
    MulStrict(Pow2(e), m, m + 1);
  }

  lemma {:induction false} MagMono(j: nat, k: nat)
    requires j < k
    ensures Mag(j) < Mag(k)
    decreases k - j
  {
    MagStep(k - 1);
    if j < k - 1 { MagMono(j, k - 1); }
  }

  lemma MagScaled(j: nat, k: nat, den: Pos)
    requires j <= k
    ensures Mag(j) * den <= Mag(k) * den
    ensures j < k ==> Mag(j) * den < Mag(k) * den
  {
    hide Mag, Pow2;
    if j < k {
      MagMono(j, k);
      MulStrict(den, Mag(j), Mag(k));
    }
  }

  // ------------------------------------------------------------------ rounding

  /** Correct rounding is a function of the exact value. */
  lemma RneUnique(num: nat, den: Pos, j: nat, k: nat)
    requires IsRne(num, den, j) && IsRne(num, den, k)
    ensures j == k
  {
    if j < k {
      RneDistinct(num, den, j, k);
    } else if k < j {
      RneDistinct(num, den, k, j);
    }
  }

  lemma RneDistinct(num: nat, den: Pos, j: nat, k: nat)
    requires j < k
    ensures !(IsRne(num, den, j) && IsRne(num, den, k))
  {
    hide Mag, Pow2;
    var dj, between, dk := Dist(num, den, j), Dist(num, den, j + 1), Dist(num, den, k);
    if j + 1 < k {
      MagScaled(j, j + 1, den);
      MagScaled(j + 1, k, den);
    }
  }

  /** Between two neighbouring codes the rounded value is decided by the midpoint. */
  lemma RneBracket(num: nat, den: Pos, k: nat)
    requires k < INF
    requires Mag(k) * den <= num <= Mag(k + 1) * den
    ensures var mid := Mag(k) * den + Mag(k + 1) * den;
      && (2 * num < mid || (2 * num == mid && k % 2 == 0) ==> IsRne(num, den, k))
      && (2 * num > mid || (2 * num == mid && k % 2 == 1) ==> IsRne(num, den, k + 1))
  {
    hide Mag, Pow2;
    forall j: nat | j <= INF && j != k && j != k + 1
      ensures Dist(num, den, j) > Dist(num, den, k) || Dist(num, den, j) > Dist(num, den, k + 1)
      ensures Dist(num, den, j) >= Dist(num, den, k) || j > k
      ensures j < k ==> Dist(num, den, j) > Dist(num, den, k)
      ensures j > k ==> Dist(num, den, j) > Dist(num, den, k + 1)
    {
      if j < k { MagScaled(j, k, den); } else { MagScaled(k + 1, j, den); }
    }
    MagScaled(k, k + 1, den);
  }

  /** Everything from 2^1024 on rounds to infinity. */
  lemma RneOverflow(num: nat, den: Pos)
    requires Mag(INF) * den <= num
    ensures IsRne(num, den, INF)
  {
    hide Mag, Pow2;
    forall j: nat | j < INF
      ensures Dist(num, den, INF) < Dist(num, den, j)
    {
      MagScaled(j, INF, den);
    }
  }

  // ------------------------------------------------------------------ rounding a 105-bit window

  /** What the rounding multiplexer of every operation adds to the 53-bit mantissa, from the 105-bit
      window p: bit 51 is set, and not (exactly one half with an even mantissa). */
  function RoundUp(p: nat): (b: nat)
    ensures b <= 1
  {
    var tail := p % 0x10_0000_0000_0000;
    if tail > 0x8_0000_0000_0000 || (tail == 0x8_0000_0000_0000 && p / 0x10_0000_0000_0000 % 2 == 1) then 1 else 0
  }

  /** The code of the window p with its leading bit in binade e, rounded. */
  function WindowCode(e: nat, p: nat): nat {
    e * 0x10_0000_0000_0000 + p / 0x10_0000_0000_0000 + RoundUp(p)
  }

  lemma NormalCodeFits(e: int, p: nat)
    requires 1 <= e < 0x7FF && p < 0x200_0000_0000_0000_0000_0000_0000
    ensures WindowCode(e - 1, p) - RoundUp(p) < INF
  {
    hide RoundUp;
  }

  /** The window looks like a tie. */
  predicate Tie(p: nat) {
    p % 0x10_0000_0000_0000 == 0x8_0000_0000_0000
  }

  /** p is a window on the exact value num / den (units of 2^-1074) in binade e. */
  ghost predicate Window(p: nat, e: nat) {
    p < 0x200_0000_0000_0000_0000_0000_0000 && (e == 0 || 0x100_0000_0000_0000_0000_0000_0000 <= p)
  }

  /** Weight of one unit of the window, times den * 2^52. */
  function Unit(e: nat, den: Pos): (u: nat)
    ensures u > 0
  {
    Pow2(e) * den
  }

  lemma WindowBracket(e: nat, den: Pos, m: nat)
    requires m < 0x20_0000_0000_0000 && (e == 0 || 0x10_0000_0000_0000 <= m)
    ensures Mag(e * 0x10_0000_0000_0000 + m) * den == m * Unit(e, den)
    ensures Mag(e * 0x10_0000_0000_0000 + m + 1) * den == (m + 1) * Unit(e, den)
  {
    hide Mag, Pow2;
    MagOf(e, m);
    MagOf(e, m + 1);
    assert (m * Pow2(e)) * den == m * (Pow2(e) * den);
    assert ((m + 1) * Pow2(e)) * den == (m + 1) * (Pow2(e) * den);
  }

  /** Where num lies between the neighbours m*u and (m+1)*u, from its window p = m*2^52 + t. */
  lemma WindowArith(num: nat, u: nat, m: nat, t: nat, p: nat, lo: int, hi: int)
    requires u > 0 && p == m * 0x10_0000_0000_0000 + t
    requires (p + lo) * u <= num * 0x10_0000_0000_0000 <= (p + hi) * u
    ensures t + lo >= 0 ==> m * u <= num
    ensures t + hi <= 0x10_0000_0000_0000 ==> num <= (m + 1) * u
    ensures t + hi <= 0x8_0000_0000_0000 ==> 2 * num <= m * u + (m + 1) * u
    ensures t + lo >= 0x8_0000_0000_0000 ==> 2 * num >= m * u + (m + 1) * u
    ensures t + hi <= 0x8_0000_0000_0000 && num * 0x10_0000_0000_0000 < (p + hi) * u ==> 2 * num < m * u + (m + 1) * u
    ensures t + lo >= 0x8_0000_0000_0000 && num * 0x10_0000_0000_0000 > (p + lo) * u ==> 2 * num > m * u + (m + 1) * u
    ensures t + lo > 0x8_0000_0000_0000 ==> 2 * num > m * u + (m + 1) * u
  {
    var a := m * u;
    assert (m + 1) * u == a + u;
    Scaled(m, t + lo, u);
    Scaled(m, t + hi, u);
    if t + lo >= 0 { MulMono(u, 0, t + lo); }
    if t + hi <= 0x10_0000_0000_0000 { MulMono(u, t + hi, 0x10_0000_0000_0000); }
    if t + hi <= 0x8_0000_0000_0000 { MulMono(u, t + hi, 0x8_0000_0000_0000); }
    if t + lo >= 0x8_0000_0000_0000 { MulMono(u, 0x8_0000_0000_0000, t + lo); }
    if t + lo > 0x8_0000_0000_0000 { MulMono(u, 0x8_0000_0000_0001, t + lo); }
  }

  lemma Scaled(m: int, t: int, u: int)
    ensures (m * 0x10_0000_0000_0000 + t) * u == 0x10_0000_0000_0000 * (m * u) + u * t
  {
  }

  /** The two candidates of a window and which of them is correct. */
  lemma WindowDecide(num: nat, den: Pos, e: nat, m: nat, a: nat, b: nat)
    requires m < 0x20_0000_0000_0000 && (e == 0 || 0x10_0000_0000_0000 <= m)
    requires e * 0x10_0000_0000_0000 + m < INF
    requires a == m * Unit(e, den) && b == (m + 1) * Unit(e, den) && a <= num <= b
    ensures IsRne(num, den, e * 0x10_0000_0000_0000 + m) <==> 2 * num < a + b || (2 * num == a + b && m % 2 == 0)
    ensures IsRne(num, den, e * 0x10_0000_0000_0000 + m + 1) <==> 2 * num > a + b || (2 * num == a + b && m % 2 == 1)
  {
    hide Mag, Pow2, Unit, IsRne;
    var k := e * 0x10_0000_0000_0000 + m;
    WindowBracket(e, den, m);
    RneBracket(num, den, k);
    if IsRne(num, den, k) && IsRne(num, den, k + 1) { RneUnique(num, den, k, k + 1); }
  }

  /** When the rounding multiplexer's choice is the correct one. */
  lemma WindowRounds(num: nat, den: Pos, p: nat, e: nat, a: nat, b: nat)
    requires Window(p, e) && WindowCode(e, p) - RoundUp(p) < INF && a <= num <= b
    requires a == p / 0x10_0000_0000_0000 * Unit(e, den) && b == (p / 0x10_0000_0000_0000 + 1) * Unit(e, den)
    ensures var odd := p / 0x10_0000_0000_0000 % 2 == 1;
      IsRne(num, den, WindowCode(e, p)) <==>
        if RoundUp(p) == 1 then 2 * num > a + b || (2 * num == a + b && odd)
        else 2 * num < a + b || (2 * num == a + b && !odd)
  {
    hide Mag, Pow2, Unit, IsRne;
    WindowDecide(num, den, e, p / 0x10_0000_0000_0000, a, b);
  }

  /** A window that is the exact value rounded down, by less than its granularity g, rounds
      correctly unless it looks like a tie, something was lost, and the tie went down. */
  lemma RoundFromBelow(num: nat, den: Pos, p: nat, g: int, e: nat)
    requires Window(p, e) && 1 <= g && p % 0x10_0000_0000_0000 + g <= 0x10_0000_0000_0000
    requires p % 0x10_0000_0000_0000 < 0x8_0000_0000_0000 ==> p % 0x10_0000_0000_0000 + g <= 0x8_0000_0000_0000
    requires p * Unit(e, den) <= num * 0x10_0000_0000_0000 < (p + g) * Unit(e, den)
    requires WindowCode(e, p) - RoundUp(p) < INF
    ensures var lost := num * 0x10_0000_0000_0000 != p * Unit(e, den);
      IsRne(num, den, WindowCode(e, p)) <==> !(Tie(p) && lost && RoundUp(p) == 0)
  {
    hide Mag, Pow2, Unit, IsRne;
    var u := Unit(e, den);
    var m, t := p / 0x10_0000_0000_0000, p % 0x10_0000_0000_0000;
    var a, b := m * u, (m + 1) * u;
    WindowArith(num, u, m, t, p, 0, g);
    WindowDecide(num, den, e, m, a, b);
    if t == 0x8_0000_0000_0000 {
      assert (p + 0) * u == p * u;
      if num * 0x10_0000_0000_0000 == p * u { WindowArith(num, u, m, t, p, 0, 0); }
    }
  }

  /** A code is not the nearest one when its upper neighbour does not exceed the value. */
  lemma NotNearest(num: nat, den: Pos, e: nat, m: nat)
    requires m < 0x20_0000_0000_0000 && (e == 0 || 0x10_0000_0000_0000 <= m)
    requires e * 0x10_0000_0000_0000 + m < INF && (m + 1) * Unit(e, den) <= num
    ensures !IsRne(num, den, e * 0x10_0000_0000_0000 + m)
  {
    hide Mag, Unit;
    var k, u := e * 0x10_0000_0000_0000 + m, Unit(e, den);
    WindowBracket(e, den, m);
    assert (m + 1) * u == m * u + u;
    assert Dist(num, den, k + 1) < Dist(num, den, k);
  }

  lemma UnitStep(e: nat, den: Pos)
    ensures Unit(e + 1, den) == 2 * Unit(e, den)
  {
    assert (2 * Pow2(e)) * den == 2 * (Pow2(e) * den);
  }

  /** A window without fraction bits from which less than two units were taken: its mantissa is
      still the nearest one ... */
  lemma RoundJustBelow(num: nat, den: Pos, p: nat, g: int, e: nat, u: nat)
    requires Window(p, e) && (g == 1 || g == 2) && p % 0x10_0000_0000_0000 == 0
    requires u == Unit(e, den) && p > 0x100_0000_0000_0000_0000_0000_0000
    requires (p - g) * u < num * 0x10_0000_0000_0000 <= p * u
    requires WindowCode(e, p) < INF
    ensures IsRne(num, den, WindowCode(e, p))
  {
    hide Mag, Pow2, Unit, IsRne;
    var m := p / 0x10_0000_0000_0000;
    WindowArith(num, u, m - 1, 0x10_0000_0000_0000, p, -g, 0);
    WindowDecide(num, den, e, m - 1, (m - 1) * u, m * u);
  }

  /** ... also at the foot of the binade, where the spacing below is halved. */
  lemma RoundJustBelowFoot(num: nat, den: Pos, g: int, e: nat, u: nat)
    requires e > 0 && (g == 1 || g == 2) && u == Unit(e - 1, den)
    requires (0x200_0000_0000_0000_0000_0000_0000 - 2 * g) * u < num * 0x10_0000_0000_0000
    requires num * 0x10_0000_0000_0000 <= 0x200_0000_0000_0000_0000_0000_0000 * u
    requires (e + 1) * 0x10_0000_0000_0000 < INF
    ensures IsRne(num, den, (e + 1) * 0x10_0000_0000_0000)
  {
    hide Mag, Pow2, Unit, IsRne;
    WindowArith(num, u, 0x1F_FFFF_FFFF_FFFF, 0x10_0000_0000_0000, 0x200_0000_0000_0000_0000_0000_0000, -2 * g, 0);
    WindowDecide(num, den, e - 1, 0x1F_FFFF_FFFF_FFFF, 0x1F_FFFF_FFFF_FFFF * u, 0x20_0000_0000_0000 * u);
  }

  lemma RoundDownTail(num: nat, den: Pos, p: nat, g: int, e: nat, u: nat)
    requires Window(p, e) && (g == 1 || (g == 2 && p % 2 == 0))
    requires u == Unit(e, den) && p % 0x10_0000_0000_0000 != 0
    requires (p - g) * u < num * 0x10_0000_0000_0000 <= p * u
    requires WindowCode(e, p) - RoundUp(p) < INF
    ensures var lost := num * 0x10_0000_0000_0000 != p * u;
      IsRne(num, den, WindowCode(e, p)) <==> !(Tie(p) && lost && RoundUp(p) == 1)
  {
    hide Mag, Pow2, Unit, IsRne;
    var a, b := TailBracket(num, p, g, u);
    WindowRounds(num, den, p, e, a, b);
  }

  lemma TailBracket(num: nat, p: nat, g: int, u: Pos) returns (a: nat, b: nat)
    requires (g == 1 || (g == 2 && p % 2 == 0)) && p % 0x10_0000_0000_0000 != 0
    requires (p - g) * u < num * 0x10_0000_0000_0000 <= p * u
    ensures a == p / 0x10_0000_0000_0000 * u && b == (p / 0x10_0000_0000_0000 + 1) * u && a <= num <= b
    ensures p % 0x10_0000_0000_0000 < 0x8_0000_0000_0000 ==> 2 * num < a + b
    ensures p % 0x10_0000_0000_0000 > 0x8_0000_0000_0000 ==> 2 * num > a + b
    ensures Tie(p) ==> if num * 0x10_0000_0000_0000 == p * u then 2 * num == a + b else 2 * num < a + b
  {
    var m, t := p / 0x10_0000_0000_0000, p % 0x10_0000_0000_0000;
    a, b := m * u, (m + 1) * u;
    TailArith(num, u, m, t, p, g, a, b);
  }

  lemma TailArith(num: nat, u: nat, m: nat, t: nat, p: nat, g: int, a: nat, b: nat)
    requires u > 0 && p == m * 0x10_0000_0000_0000 + t && 1 <= g <= t < 0x10_0000_0000_0000
    requires t > 0x8_0000_0000_0000 ==> t - g >= 0x8_0000_0000_0000
    requires (p - g) * u < num * 0x10_0000_0000_0000 <= p * u
    requires a == m * u && b == (m + 1) * u
    ensures a <= num <= b
    ensures t < 0x8_0000_0000_0000 ==> 2 * num < a + b
    ensures t > 0x8_0000_0000_0000 ==> 2 * num > a + b
    ensures t == 0x8_0000_0000_0000 ==> if num * 0x10_0000_0000_0000 == p * u then 2 * num == a + b else 2 * num < a + b
  {
    var lo: int := -g;
    assert p + lo == p - g && p + 0 == p;
    WindowArith(num, u, m, t, p, lo, 0);
    if num * 0x10_0000_0000_0000 == p * u {
      WindowArith(num, u, m, t, p, 0, 0);
    }
  }

  /** A window that is the exact value rounded up, by less than its granularity g, rounds correctly
      unless it looks like a tie, something was added, and the tie went up. */
  lemma RoundFromAbove(num: nat, den: Pos, p: nat, g: int, e: nat)
    requires Window(p, e) && e > 0 && (g == 1 || (g == 2 && p % 2 == 0))
    requires (p - g) * Unit(e, den) < num * 0x10_0000_0000_0000 <= p * Unit(e, den)
    requires WindowCode(e, p) - RoundUp(p) < INF
    ensures var lost := num * 0x10_0000_0000_0000 != p * Unit(e, den);
      IsRne(num, den, WindowCode(e, p)) <==> !(Tie(p) && lost && RoundUp(p) == 1)
  {
    hide Mag, Pow2, Unit, IsRne;
    if p % 0x10_0000_0000_0000 != 0 {
      RoundDownTail(num, den, p, g, e, Unit(e, den));
    } else if p > 0x100_0000_0000_0000_0000_0000_0000 {
      RoundJustBelow(num, den, p, g, e, Unit(e, den));
    } else {
      UnitStep(e - 1, den);
      var u := Unit(e - 1, den);
      assert (p - g) * (2 * u) == (2 * p - 2 * g) * u;
      assert p == 0x100_0000_0000_0000_0000_0000_0000;
      RoundJustBelowFoot(num, den, g, e, u);
    }
  }

  /** Halving a 106-bit number and doubling the unit loses at most its lowest bit. */
  lemma HalfWindow(y: nat, n: nat, w: nat, rho: nat)
    requires y == n * w + rho && rho < w
    ensures n / 2 * (2 * w) <= y < (n / 2 + 1) * (2 * w)
    ensures y == n / 2 * (2 * w) <==> n % 2 == 0 && rho == 0
  {
    var h := n / 2;
    assert n == 2 * h || n == 2 * h + 1;
    assert (2 * h + 1) * w == 2 * (h * w) + w && (2 * h) * w == 2 * (h * w);
    assert h * (2 * w) == 2 * (h * w) && (h + 1) * (2 * w) == 2 * (h * w) + 2 * w;
  }

  // ------------------------------------------------------------------ results below the normal range

  /** A value below the normal range, cut at the subnormal unit and rounded, is correctly rounded
      unless it ties with something cut off. */
  lemma CutRounds(num: nat, den: Pos, y: nat, p: nat)
    requires y == num * 0x10_0000_0000_0000 && p == y / den
    requires y < 0x100_0000_0000_0000_0000_0000_0000 * den
    ensures p < 0x100_0000_0000_0000_0000_0000_0000
    ensures IsRne(num, den, WindowCode(0, p)) <==> !(Tie(p) && y % den != 0 && RoundUp(p) == 0)
  {
    hide Pow2, Mag, IsRne, RoundUp, Tie;
    UnitZero(den);
    assert y == den * p + y % den;
    MulStrict(den, p, 0x100_0000_0000_0000_0000_0000_0000);
    assert (p + 1) * den == p * den + den;
    hide Unit;
    CutCode(p);
    RoundFromBelow(num, den, p, 1, 0);
  }

  lemma UnitZero(den: Pos)
    ensures Unit(0, den) == den
  {
    assert Pow2(0) == 1;
  }

  lemma CutCode(p: nat)
    requires p < 0x100_0000_0000_0000_0000_0000_0000
    ensures WindowCode(0, p) - RoundUp(p) < INF && Window(p, 0)
  {
  }

  /** A value that rounds up to the smallest normal number does not round to zero. */
  lemma CarryNotZero(num: nat, den: Pos, y: nat, p: nat)
    requires y == num * 0x10_0000_0000_0000 && p == y / den
    requires y < 0x100_0000_0000_0000_0000_0000_0000 * den
    requires p / 0x10_0000_0000_0000 + RoundUp(p) == 0x10_0000_0000_0000
    ensures !IsRne(num, den, 0)
  {
    hide Pow2, Mag, IsRne, Tie;
    CutRounds(num, den, y, p);
    assert RoundUp(p) == 1;
    assert WindowCode(0, p) == 0x10_0000_0000_0000;
    if IsRne(num, den, 0) { RneUnique(num, den, 0, 0x10_0000_0000_0000); }
  }

  lemma UnitNoFraction(e: nat)
    ensures Unit(e, 1) == Pow2(e)
  {
    assert Pow2(0) == 1;
  }

  /** A window that is the exact value rounds correctly. */
  lemma RoundExact(x: nat, p: nat, e: nat)
    requires Window(p, e) && x * 0x10_0000_0000_0000 == p * Pow2(e)
    requires WindowCode(e, p) - RoundUp(p) < INF
    ensures IsRne(x, 1, WindowCode(e, p))
  {
    hide Pow2, Mag, IsRne, Unit, WindowCode, RoundUp, Tie;
    UnitNoFraction(e);
    assert (p + 1) * Pow2(e) == p * Pow2(e) + Pow2(e);
    RoundFromBelow(x, 1, p, 1, e);
  }
}
