/** The arithmetic behind the adder: what the shifted, truncated and normalised sum says about the
    exact one, and when rounding it gives the correctly rounded exact sum. */
module AddSubArith {
  import opened Bits
  import opened Ieee

  /** Exact magnitude of the result: significands m and l, the smaller one d binades lower. */
  ghost function Exact(m: nat, l: nat, em: nat, d: nat, diff: bool): int
    requires d <= em
  {
    if diff then m * Pow2(em) - l * Pow2(em - d) else m * Pow2(em) + l * Pow2(em - d)
  }

  /** The number the 106-bit adder produces: the smaller significand is shifted right by d first. */
  function Sum(m: nat, l: nat, d: nat, diff: bool): int {
    if diff then m * 0x10_0000_0000_0000 - l * 0x10_0000_0000_0000 / Pow2(d)
    else m * 0x10_0000_0000_0000 + l * 0x10_0000_0000_0000 / Pow2(d)
  }

  /** Operand pairs the adder rounds wrongly: the bits shifted out would have broken a tie. */
  predicate LostTie(m: nat, l: nat, d: nat, diff: bool) {
    if !diff then d == 53 && l == 0x10_0000_0000_0001 && m % 2 == 0
    else
      || (d == 53 && l == 0x10_0000_0000_0001 && m % 2 == 0 && m != 0x10_0000_0000_0000)
      || (d == 53 && l == 0x8_0000_0000_0001 && m == 0x10_0000_0000_0000)
      || (d == 54 && 0x10_0000_0000_0000 < l < 0x10_0000_0000_0004 && m == 0x10_0000_0000_0000)
  }

  lemma SumArith(m: int, l: int, q: int, w: int, t: int, r: int)
    requires l * 0x10_0000_0000_0000 == q * t + r
    ensures (m * 0x10_0000_0000_0000 + t) * (q * w) + r * w == 0x10_0000_0000_0000 * (m * (q * w) + l * w)
    ensures (m * 0x10_0000_0000_0000 - t) * (q * w) - r * w == 0x10_0000_0000_0000 * (m * (q * w) - l * w)
  {
    assert (l * 0x10_0000_0000_0000) * w == (q * t + r) * w;
    assert (q * t + r) * w == t * (q * w) + r * w;
  }

  /** The adder's sum is the exact one, up to a remainder of less than one unit that is zero exactly
      when no set bit was shifted out. */
  lemma TruncatedSum(m: nat, l: nat, em: nat, d: nat, diff: bool) returns (rho: nat)
    requires d <= em
    ensures rho < Pow2(em)
    ensures Exact(m, l, em, d, diff) * 0x10_0000_0000_0000 ==
      if diff then Sum(m, l, d, diff) * Pow2(em) - rho else Sum(m, l, d, diff) * Pow2(em) + rho
    ensures rho == 0 <==> l * 0x10_0000_0000_0000 % Pow2(d) == 0
  {
    hide Pow2;
    var q, w := Pow2(d), Pow2(em - d);
    Pow2Add(d, em - d);
    var x := l * 0x10_0000_0000_0000;
    var t, r := x / q, x % q;
    assert x == q * t + r;
    rho := r * w;
    SumArith(m, l, q, w, t, r);
    MulStrict(w, r, q);
    MulStrict(w, 0, r);
  }

  /** Nothing is lost for exponent gaps up to 52. */
  lemma NothingLost(l: nat, d: nat)
    requires d <= 52
    ensures l * 0x10_0000_0000_0000 % Pow2(d) == 0
    ensures l * 0x10_0000_0000_0000 / Pow2(d) == l * Pow2(52 - d)
  {
    hide Pow2;
    Pow2Values();
    Pow2Add(d, 52 - d);
    assert l * (Pow2(d) * Pow2(52 - d)) == Pow2(d) * (l * Pow2(52 - d));
    DivUnique(l * 0x10_0000_0000_0000, Pow2(d), l * Pow2(52 - d), 0);
  }

  /** For larger gaps the small significand loses its low d-52 bits. */
  lemma FarShift(l: nat, d: nat)
    requires l < 0x20_0000_0000_0000 && d >= 53
    ensures var t, lost := l * 0x10_0000_0000_0000 / Pow2(d), l * 0x10_0000_0000_0000 % Pow2(d) != 0;
      && t < 0x10_0000_0000_0000
      && (d == 53 ==> t == l / 2 && lost == (l % 2 != 0))
      && (d == 54 ==> t == l / 4 && lost == (l % 4 != 0))
      && (d >= 55 ==> t < 0x4_0000_0000_0000)
  {
    hide Pow2;
    var w := Pow2(d - 52);
    FarQuotient(l, d, w);
    Pow2Values();
    Pow2Next(1);
    Pow2Next(2);
    if d >= 55 {
      Pow2Mono(3, d - 52);
      EighthAtMost(l, w);
    }
  }

  lemma FarQuotient(l: nat, d: nat, w: nat)
    requires d >= 53 && w == Pow2(d - 52)
    ensures l * 0x10_0000_0000_0000 / Pow2(d) == l / w
    ensures l * 0x10_0000_0000_0000 % Pow2(d) == 0x10_0000_0000_0000 * (l % w)
  {
    hide Pow2;
    Pow2Values();
    Pow2Add(52, d - 52);
    FarTerms(l, w, l / w, l % w);
    DivUnique(l * 0x10_0000_0000_0000, 0x10_0000_0000_0000 * w, l / w, 0x10_0000_0000_0000 * (l % w));
  }

  lemma FarTerms(l: int, w: int, t: int, r: int)
    requires l == w * t + r
    ensures l * 0x10_0000_0000_0000 == (0x10_0000_0000_0000 * w) * t + 0x10_0000_0000_0000 * r
  {
  }

  lemma EighthAtMost(l: nat, w: nat)
    requires l < 0x20_0000_0000_0000 && w >= 8
    ensures l / w < 0x4_0000_0000_0000
  {
    var t := l / w;
    assert l == w * t + l % w;
    if t >= 0x4_0000_0000_0000 { MulMono(t, 8, w); }
  }

  /** Sum without carry out of the window. */
  lemma AddRounds(m: nat, l: nat, em: nat, d: nat, n: nat, x: nat)
    requires d <= em && m < 0x20_0000_0000_0000 && l < 0x20_0000_0000_0000
    requires x == Exact(m, l, em, d, false) && n == Sum(m, l, d, false)
    requires Window(n, em) && WindowCode(em, n) - RoundUp(n) < INF
    ensures IsRne(x, 1, WindowCode(em, n)) <==> !LostTie(m, l, d, false)
  {
    hide Pow2, Mag, IsRne, Exact, Unit;
    UnitNoFraction(em);
    var rho := TruncatedSum(m, l, em, d, false);
    assert (n + 1) * Pow2(em) == n * Pow2(em) + Pow2(em);
    AddTie(m, l, d, n);
    RoundFromBelow(x, 1, n, 1, em);
  }

  lemma AddTie(m: nat, l: nat, d: nat, n: nat)
    requires m < 0x20_0000_0000_0000 && l < 0x20_0000_0000_0000 && n == Sum(m, l, d, false)
    ensures LostTie(m, l, d, false) <==>
      Tie(n) && l * 0x10_0000_0000_0000 % Pow2(d) != 0 && RoundUp(n) == 0
  {
    hide Pow2;
    if d <= 52 {
      NothingLost(l, d);
    } else {
      FarShift(l, d);
      var t := l * 0x10_0000_0000_0000 / Pow2(d);
      DivUnique(n, 0x10_0000_0000_0000, m, t);
      hide Sum;
    }
  }

  /** Sum with a carry into bit 105: the window drops the lowest bit, which never breaks a tie. */
  lemma AddOverRounds(m: nat, l: nat, em: nat, d: nat, n: nat, x: nat)
    requires d <= em && m < 0x20_0000_0000_0000 && l < 0x20_0000_0000_0000
    requires x == Exact(m, l, em, d, false) && n == Sum(m, l, d, false)
    requires 0x200_0000_0000_0000_0000_0000_0000 <= n < 0x400_0000_0000_0000_0000_0000_0000
    requires WindowCode(em + 1, n / 2) - RoundUp(n / 2) < INF
    ensures IsRne(x, 1, WindowCode(em + 1, n / 2)) && !LostTie(m, l, d, false)
  {
    hide Pow2, Mag, IsRne, Exact, Unit;
    UnitNoFraction(em + 1);
    Pow2Next(em);
    var rho := TruncatedSum(m, l, em, d, false);
    OverBit(m, l, d, n);
    HalfWindow(x * 0x10_0000_0000_0000, n, Pow2(em), rho);
    RoundFromBelow(x, 1, n / 2, 1, em + 1);
  }

  /** A carry out of the window means a gap of at most 52; a set lowest bit then never meets a tie. */
  lemma OverBit(m: nat, l: nat, d: nat, n: nat)
    requires m < 0x20_0000_0000_0000 && l < 0x20_0000_0000_0000 && n == Sum(m, l, d, false)
    requires 0x200_0000_0000_0000_0000_0000_0000 <= n
    ensures d <= 52 && l * 0x10_0000_0000_0000 % Pow2(d) == 0
    ensures n % 2 == 1 ==> !Tie(n / 2)
  {
    hide Pow2, Tie;
    if d >= 53 {
      FarShift(l, d);
    } else {
      NothingLost(l, d);
      if d < 52 { EvenSum(m, l, d, n); } else { OddSum(m, l, n); }
    }
  }

  lemma EvenSum(m: nat, l: nat, d: nat, n: nat)
    requires d < 52 && n == m * 0x10_0000_0000_0000 + l * Pow2(52 - d)
    ensures n % 2 == 0
  {
    hide Pow2;
    Pow2Next(51 - d);
    var h := l * Pow2(51 - d);
    assert l * (2 * Pow2(51 - d)) == 2 * h;
    assert n == 2 * (m * 0x8_0000_0000_0000 + h);
  }

  lemma OddSum(m: nat, l: nat, n: nat)
    requires m < 0x20_0000_0000_0000 && l < 0x20_0000_0000_0000 && n == m * 0x10_0000_0000_0000 + l * Pow2(0)
    requires 0x200_0000_0000_0000_0000_0000_0000 <= n
    ensures !Tie(n / 2)
  {
    assert Pow2(0) == 1;
    hide Pow2;
    assert m == 0x1F_FFFF_FFFF_FFFF;
  }

  /** The normalised difference against the exact one, in units of its own binade. */
  lemma SubWindow(m: nat, l: nat, em: nat, d: nat, n: nat, x: nat, lz: nat, p: nat) returns (rho: nat)
    requires d <= em && lz <= em && p == n * Pow2(lz)
    requires x == Exact(m, l, em, d, true) && n == Sum(m, l, d, true)
    ensures x * 0x10_0000_0000_0000 == p * Pow2(em - lz) - rho
    ensures rho < Pow2(lz) * Pow2(em - lz)
    ensures rho == 0 <==> l * 0x10_0000_0000_0000 % Pow2(d) == 0
  {
    hide Pow2, Exact;
    rho := TruncatedSum(m, l, em, d, true);
    Pow2Add(lz, em - lz);
    assert n * (Pow2(lz) * Pow2(em - lz)) == p * Pow2(em - lz);
  }

  /** Difference normalised by lz places into a normal result. */
  lemma SubRounds(m: nat, l: nat, em: nat, d: nat, n: nat, x: nat, lz: nat, p: nat)
    requires d <= em && m < 0x20_0000_0000_0000 && l < 0x20_0000_0000_0000 && lz <= em
    requires em > 0 ==> 0x10_0000_0000_0000 <= m
    requires x == Exact(m, l, em, d, true) && n == Sum(m, l, d, true) && p == n * Pow2(lz)
    requires 0x100_0000_0000_0000_0000_0000_0000 <= p < 0x200_0000_0000_0000_0000_0000_0000
    requires WindowCode(em - lz, p) - RoundUp(p) < INF
    ensures IsRne(x, 1, WindowCode(em - lz, p)) <==> !LostTie(m, l, d, true)
  {
    hide Pow2, Mag, IsRne, Exact, Unit, WindowCode, RoundUp, Tie, Sum;
    UnitNoFraction(em - lz);
    var w := Pow2(em - lz);
    var rho := SubWindow(m, l, em, d, n, x, lz, p);
    if d <= 52 {
      NothingLost(l, d);
      RoundExact(x, p, em - lz);
    } else {
      SubFar(m, l, d, n, lz, p);
      SubRoundsFar(x, p, lz + 1, em - lz, w, rho);
    }
  }

  lemma SubRoundsFar(x: nat, p: nat, g: int, e: nat, w: nat, rho: nat)
    requires Window(p, e) && e > 0 && (g == 1 || (g == 2 && p % 2 == 0)) && w == Unit(e, 1)
    requires x * 0x10_0000_0000_0000 == p * w - rho && rho < g * w
    requires WindowCode(e, p) - RoundUp(p) < INF
    ensures IsRne(x, 1, WindowCode(e, p)) <==> !(Tie(p) && rho != 0 && RoundUp(p) == 1)
  {
    hide Pow2, Mag, IsRne, Unit, WindowCode, RoundUp, Tie;
    assert (p - g) * w == p * w - g * w;
    RoundFromAbove(x, 1, p, g, e);
  }

  /** With a gap above 52 a difference is normalised by at most one place; when the rounding then
      goes wrong. */
  lemma SubFar(m: nat, l: nat, d: nat, n: nat, lz: nat, p: nat)
    requires d >= 53 && 0x10_0000_0000_0000 <= m < 0x20_0000_0000_0000 && l < 0x20_0000_0000_0000
    requires n == Sum(m, l, d, true) && p == n * Pow2(lz)
    requires 0x100_0000_0000_0000_0000_0000_0000 <= p < 0x200_0000_0000_0000_0000_0000_0000
    ensures (lz == 0 && p == n && Pow2(lz) == 1) || (lz == 1 && p == n * 2 && Pow2(lz) == 2)
    ensures LostTie(m, l, d, true) <==>
      Tie(p) && l * 0x10_0000_0000_0000 % Pow2(d) != 0 && RoundUp(p) == 1
  {
    hide Pow2, LostTie, Tie, RoundUp;
    FarShift(l, d);
    OneShift(n, lz, p);
    SubTie(m, l, d, l * 0x10_0000_0000_0000 / Pow2(d), p, lz);
  }

  lemma OneShift(n: nat, lz: nat, p: nat)
    requires 0x80_0000_0000_0000_0000_0000_0000 <= n && p == n * Pow2(lz)
    requires p < 0x200_0000_0000_0000_0000_0000_0000
    ensures (lz == 0 && p == n && Pow2(lz) == 1) || (lz == 1 && p == n * 2 && Pow2(lz) == 2)
  {
    hide Pow2;
    Pow2Values();
    if lz >= 2 {
      Pow2Next(1);
      Pow2Mono(2, lz);
      MulMono(n, 4, Pow2(lz));
    }
  }

  lemma SubTie(m: nat, l: nat, d: nat, t: nat, p: nat, lz: nat)
    requires d >= 53 && 0x10_0000_0000_0000 <= m < 0x20_0000_0000_0000 && l < 0x20_0000_0000_0000
    requires p == (m * 0x10_0000_0000_0000 - t) * (lz + 1) && (lz == 0 || lz == 1)
    requires 0x100_0000_0000_0000_0000_0000_0000 <= p < 0x200_0000_0000_0000_0000_0000_0000
    requires t < 0x10_0000_0000_0000
    requires d == 53 ==> t == l / 2
    requires d == 54 ==> t == l / 4
    requires d >= 55 ==> t < 0x4_0000_0000_0000
    ensures var lost := (d == 53 && l % 2 != 0) || (d == 54 && l % 4 != 0);
      LostTie(m, l, d, true) <==> Tie(p) && lost && RoundUp(p) == 1
    ensures d >= 55 ==> !(Tie(p) && RoundUp(p) == 1)
  {
    hide Tie, RoundUp;
    if lz == 0 { SubTiePlain(m, l, d, t, p); } else { SubTieShifted(m, l, d, t, p); }
  }

  lemma SubTiePlain(m: nat, l: nat, d: nat, t: nat, p: nat)
    requires 0x10_0000_0000_0000 <= m < 0x20_0000_0000_0000 && l < 0x20_0000_0000_0000
    requires p == m * 0x10_0000_0000_0000 - t && p >= 0x100_0000_0000_0000_0000_0000_0000 && t < 0x10_0000_0000_0000
    requires (d == 53 ==> t == l / 2) && (d == 54 ==> t == l / 4) && (d >= 55 ==> t < 0x4_0000_0000_0000) && d >= 53
    ensures Tie(p) && RoundUp(p) == 1 <==> t == 0x8_0000_0000_0000 && m % 2 == 0
    ensures d > 53 ==> t < 0x8_0000_0000_0000
    ensures t == 0x8_0000_0000_0000 ==> m != 0x10_0000_0000_0000
    ensures m == 0x10_0000_0000_0000 ==> t == 0
  {
    if t != 0 {
      assert p == (m - 1) * 0x10_0000_0000_0000 + (0x10_0000_0000_0000 - t);
    }
  }

  lemma SubTieShifted(m: nat, l: nat, d: nat, t: nat, p: nat)
    requires 0x10_0000_0000_0000 <= m < 0x20_0000_0000_0000 && l < 0x20_0000_0000_0000
    requires p == (m * 0x10_0000_0000_0000 - t) * 2 && p < 0x200_0000_0000_0000_0000_0000_0000
    requires t < 0x10_0000_0000_0000
    ensures m == 0x10_0000_0000_0000 && t > 0
    ensures Tie(p) && RoundUp(p) == 1 <==> t == 0x4_0000_0000_0000
  {
    assert p == 0x200_0000_0000_0000_0000_0000_0000 - 2 * t;
    if 2 * t > 0x10_0000_0000_0000 {
      assert p == 0x1F_FFFF_FFFF_FFFE * 0x10_0000_0000_0000 + (0x20_0000_0000_0000 - 2 * t);
    } else if 2 * t < 0x10_0000_0000_0000 {
      assert p == 0x1F_FFFF_FFFF_FFFF * 0x10_0000_0000_0000 + (0x10_0000_0000_0000 - 2 * t);
    }
  }

  /** Difference below the normal range: it is an exact subnormal. */
  lemma SubSubnormal(m: nat, l: nat, em: nat, d: nat, n: nat, x: nat)
    requires d <= em && d <= 52
    requires x == Exact(m, l, em, d, true) && n == Sum(m, l, d, true)
    requires n * Pow2(em) < 0x200_0000_0000_0000_0000_0000_0000
    ensures IsRne(x, 1, WindowCode(0, n * Pow2(em))) && !LostTie(m, l, d, true)
    ensures n * Pow2(em) == x * 0x10_0000_0000_0000 && WindowCode(0, n * Pow2(em)) == x
  {
    hide Pow2, Mag, IsRne, Exact, Unit;
    var p := n * Pow2(em);
    UnitNoFraction(0);
    Pow2Values();
    var rho := TruncatedSum(m, l, em, d, true);
    NothingLost(l, d);
    RoundFromBelow(x, 1, p, 1, 0);
  }

  /** A window at or above the binade of 2^1024 rounds to infinity. */
  lemma Overflow(x: nat, p: nat)
    requires 0x100_0000_0000_0000_0000_0000_0000 <= p && p * Pow2(0x7FE) <= x * 0x10_0000_0000_0000
    ensures IsRne(x, 1, INF)
  {
    hide Pow2, Mag, IsRne;
    Pow2Values();
    MagNormal(0x7FE, 0);
    MulMono(Pow2(0x7FE), 0x100_0000_0000_0000_0000_0000_0000, p);
    RneOverflow(x, 1);
  }
}
