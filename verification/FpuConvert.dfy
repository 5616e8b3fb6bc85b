/** Conversions between integers and doubles: Int2Double and Double2Int. */
module FpuConvert {
  import opened Bits
  import opened Ieee
  import opened FpuBus

  /** The 64-bit register holding x. */
  function Word(x: int): nat {
    x % 0x1_0000_0000_0000_0000
  }

  /** The integer a conversion reads from a register: signed or unsigned, 32 or 64 bits. */
  function Source(signEna: bool, w32: bool, a: nat): int
    requires a < 0x1_0000_0000_0000_0000
  {
    var v := if w32 then a % 0x1_0000_0000 else a;
    var half := if w32 then 0x8000_0000 else 0x8000_0000_0000_0000;
    if signEna && v >= half then v - 2 * half else v
  }

  /** Leading zeros of a nonzero 64-bit word, 63 for zero. */
  ghost predicate WordZeros(a: nat, l: nat) {
    l <= 63 && a < Pow2(64 - l) && (a != 0 ==> Pow2(63 - l) <= a) && (a == 0 ==> l == 63)
  }

  method CountZeros(absA: nat) returns (rbLShift: nat)
    requires absA < 0x1_0000_0000_0000_0000
    ensures WordZeros(absA, rbLShift)
  {
    hide Bit, Pow2;
    Pow2Words();
    rbLShift := 63;
    for i := 0 to 64
      invariant rbLShift == 63 && absA < Pow2(64 - i)
    {
      TopBit(absA, 63 - i);
      if Bit(absA, 63 - i) != 0 {
        rbLShift := i;
        break;
      }
    }
    assert absA == 0 ==> rbLShift == 63;
    if absA == 0 { Pow2Mono(0, 1); } else if rbLShift == 63 { SmallWord(absA); }
  }

  lemma SmallWord(a: nat)
    requires a != 0
    ensures Pow2(0) <= a
  {
  }

  /** Int2Double: FCVT.D.L, FCVT.D.LU, FCVT.D.W and FCVT.D.WU. */
  method Int2Double(signEna: bool, w32: bool, A: nat) returns (fres: F64)
    requires A < 0x1_0000_0000_0000_0000
    ensures fres.Valid()
    ensures var n := Source(signEna, w32, A);
      && fres.sign == (if n < 0 then 1 else 0)
      && IsRne(Abs(n) * One(), 1, fres.Code())
  {
    hide Pow2, Mag, IsRne, One, Source, Word;
    var tmpA: nat;
    if w32 {
      if signEna && A / 0x8000_0000 % 2 == 1 {
        tmpA := A % 0x1_0000_0000 + 0xFFFF_FFFF_0000_0000;
      } else {
        tmpA := A % 0x1_0000_0000;
      }
    } else {
      tmpA := A;
    }
    var sign := if signEna then tmpA / 0x8000_0000_0000_0000 else 0;
    var absA := if sign != 0 then Word(0xFFFF_FFFF_FFFF_FFFF - tmpA + 1) else tmpA;
    SourceMagnitude(signEna, w32, A, tmpA, sign, absA);
    fres := Magnitude2Double(sign, absA);
  }

  lemma SourceMagnitude(signEna: bool, w32: bool, A: nat, tmpA: nat, sign: int, absA: nat)
    requires A < 0x1_0000_0000_0000_0000
    requires tmpA == if !w32 then A else if signEna && A / 0x8000_0000 % 2 == 1
      then A % 0x1_0000_0000 + 0xFFFF_FFFF_0000_0000 else A % 0x1_0000_0000
    requires sign == if signEna then tmpA / 0x8000_0000_0000_0000 else 0
    requires absA == if sign != 0 then Word(0xFFFF_FFFF_FFFF_FFFF - tmpA + 1) else tmpA
    ensures absA == Abs(Source(signEna, w32, A)) && sign == if Source(signEna, w32, A) < 0 then 1 else 0
    ensures absA < 0x1_0000_0000_0000_0000
  {
    if w32 { LowHalf(A); }
  }

  /** Bit 31 is the top bit of the low half. */
  lemma LowHalf(A: nat)
    ensures A / 0x8000_0000 % 2 == 1 <==> A % 0x1_0000_0000 >= 0x8000_0000
  {
  }

  method Magnitude2Double(sign: nat, absA: nat) returns (fres: F64)
    requires absA < 0x1_0000_0000_0000_0000 && sign < 2
    ensures fres.Valid() && fres.sign == sign && IsRne(absA * One(), 1, fres.Code())
  {
    hide Pow2, Mag, IsRne, One;
    var rbLShift := CountZeros(absA);
    var mantAlign := Word(absA * Pow2(rbLShift));
    var mantShort := mantAlign / 0x800;
    var expAlign := if absA == 0 then 0 else 1023 + 63 - rbLShift;
    var mantEven := mantAlign / 0x800 % 2;
    var tmpMant05 := mantAlign % 0x800;
    var mant05 := if tmpMant05 == 0x400 then 1 else 0;
    var rndBit := And(mantAlign / 0x400 % 2, Not(And(mant05, Not(mantEven))));
    var mantOnes := if mantShort == 0x1F_FFFF_FFFF_FFFF then 1 else 0;
    fres := F64(sign, expAlign + And(mantOnes, rndBit), (mantShort + rndBit) % 0x10_0000_0000_0000);
    AlignedWord(absA, rbLShift);
    WordRounds(absA, rbLShift, mantAlign, fres);
  }

  lemma AlignedWord(a: nat, l: nat)
    requires a < 0x1_0000_0000_0000_0000 && WordZeros(a, l)
    ensures a * Pow2(l) < 0x1_0000_0000_0000_0000
    ensures a != 0 ==> 0x8000_0000_0000_0000 <= a * Pow2(l)
    ensures Word(a * Pow2(l)) == a * Pow2(l)
  {
    hide Pow2;
    Pow2Words();
    Pow2Next(63);
    if a != 0 { ShiftBounds(a, 63 - l, 64 - l, l); }
  }

  /** The 64-bit word, widened to the 105-bit window. */
  function Widen(w: nat): nat {
    w * 0x200_0000_0000
  }

  lemma WidenFields(w: nat)
    requires w < 0x1_0000_0000_0000_0000
    ensures Widen(w) / 0x10_0000_0000_0000 == w / 0x800 && Widen(w) < 0x200_0000_0000_0000_0000_0000_0000
    ensures w >= 0x8000_0000_0000_0000 ==> Widen(w) >= 0x100_0000_0000_0000_0000_0000_0000
    ensures RoundUp(Widen(w)) ==
      And(w / 0x400 % 2, Not(And(if w % 0x800 == 0x400 then 1 else 0, Not(w / 0x800 % 2))))
  {
    var p, q, r := Widen(w), w / 0x800, w % 0x800;
    assert w == 0x800 * q + r;
    DivUnique(p, 0x10_0000_0000_0000, q, r * 0x200_0000_0000);
    HalfBit(w, q, r);
  }

  /** Bit 10 of a word says whether its low eleven bits are at least one half. */
  lemma HalfBit(w: nat, q: nat, r: nat)
    requires w == 0x800 * q + r && r < 0x800
    ensures w / 0x400 % 2 == (if r >= 0x400 then 1 else 0) && w % 0x800 == r && w / 0x800 == q
  {
    DivUnique(w, 0x800, q, r);
    if r >= 0x400 {
      DivUnique(w, 0x400, 2 * q + 1, r - 0x400);
    } else {
      DivUnique(w, 0x400, 2 * q, r);
    }
  }

  lemma WordRounds(a: nat, l: nat, w: nat, d: F64)
    requires a < 0x1_0000_0000_0000_0000 && WordZeros(a, l) && w == a * Pow2(l) < 0x1_0000_0000_0000_0000
    requires a != 0 ==> 0x8000_0000_0000_0000 <= w
    requires var rnd := And(w / 0x400 % 2, Not(And(if w % 0x800 == 0x400 then 1 else 0, Not(w / 0x800 % 2))));
      && d.exp == (if a == 0 then 0 else 1086 - l) + And(if w / 0x800 == 0x1F_FFFF_FFFF_FFFF then 1 else 0, rnd)
      && d.mant == (w / 0x800 + rnd) % 0x10_0000_0000_0000 && d.sign < 2
    ensures d.Valid() && IsRne(a * One(), 1, d.Code())
  {
    hide Pow2, Mag, IsRne;
    WidenFields(w);
    if a == 0 {
      ZeroRounds();
    } else {
      hide RoundUp;
      WordScale(a, l, w);
      RoundExact(a * One(), Widen(w), 1085 - l);
      WordCode(l, w, d);
    }
  }

  lemma ZeroRounds()
    ensures IsRne(0, 1, 0)
  {
    hide Mag;
    forall j: nat | j <= INF ensures Dist(0, 1, 0) <= Dist(0, 1, j) { MagSubnormal(0); }
  }

  lemma WordScale(a: nat, l: nat, w: nat)
    requires l <= 63 && w == a * Pow2(l)
    ensures a * One() * 0x10_0000_0000_0000 == Widen(w) * Pow2(1085 - l)
  {
    hide Pow2;
    Pow2Values();
    assert Pow2(41) == 0x200_0000_0000 by { Pow2FortyOne(); }
    ShiftShift(a, 1074, 52);
    ShiftShift(a, l, 41);
    ShiftShift(a, l + 41, 1085 - l);
  }

  lemma Pow2FortyOne()
    ensures Pow2(41) == 0x200_0000_0000
  {
    assert Pow2(9) == 0x200;
    hide Pow2;
    Pow2Words();
    Pow2Add(32, 9);
  }

  lemma WordCode(l: nat, w: nat, d: F64)
    requires l <= 63 && 0x8000_0000_0000_0000 <= w < 0x1_0000_0000_0000_0000
    requires d.exp == 1086 - l + And(if w / 0x800 == 0x1F_FFFF_FFFF_FFFF then 1 else 0, RoundUp(Widen(w)))
    requires d.mant == (w / 0x800 + RoundUp(Widen(w))) % 0x10_0000_0000_0000 && d.sign < 2
    requires Widen(w) / 0x10_0000_0000_0000 == w / 0x800
    ensures d.Valid() && d.Code() == WindowCode(1085 - l, Widen(w))
  {
    hide RoundUp, Widen;
    var m := w / 0x800 + RoundUp(Widen(w));
    DivUnique(m, 0x10_0000_0000_0000, if m < 0x20_0000_0000_0000 then 1 else 2,
      if m < 0x20_0000_0000_0000 then m - 0x10_0000_0000_0000 else 0);
  }

  // ------------------------------------------------------------------ doubles to integers

  /** A finite double truncated toward zero. */
  ghost function Truncated(A: F64): int {
    var m := Mag(A.Code()) / One();
    if A.sign == 0 then m else -(m as int)
  }

  /** What Double2Int returns: the truncated value where the mode's range holds it, and otherwise the
      mode's out-of-range word. Unsigned modes wrap negative values as a 64-bit conversion does. */
  ghost function Converted(signEna: bool, w32: bool, A: F64): nat {
    var t := Truncated(A);
    if signEna && w32 then
      if A.exp < 0x7FF && -0x8000_0000 <= t < 0x8000_0000 then Word(t) else 0xFFFF_FFFF_8000_0000
    else if signEna then
      if A.exp < 0x7FF && -0x8000_0000_0000_0000 <= t < 0x8000_0000_0000_0000 then Word(t) else 0x8000_0000_0000_0000
    else if w32 then
      if A.exp < 0x7FF && -0x8000_0000_0000_0000 < t < 0x8000_0000_0000_0000 then t % 0x1_0000_0000 else 0
    else
      if A.exp < 0x7FF && -0x8000_0000_0000_0000 < t < 0x1_0000_0000_0000_0000 then Word(t) else 0x8000_0000_0000_0000
  }

  /** The magnitude at which the overflow flag is raised. */
  function Limit(signEna: bool, w32: bool, sign: nat): nat {
    if w32 && signEna then 0x8000_0000
    else if w32 || signEna || sign != 0 then 0x8000_0000_0000_0000
    else 0x1_0000_0000_0000_0000
  }

  /** Double2Int: FCVT.L.D, FCVT.LU.D, FCVT.W.D and FCVT.WU.D. */
  method Double2Int(signEna: bool, w32: bool, A: F64) returns (fres: nat, ovr: int, und: int)
    requires A.Valid()
    ensures fres == Converted(signEna, w32, A)
    ensures und == if A.exp < 1023 then 1 else 0
    ensures ovr == if A.exp == 0x7FF || Abs(Truncated(A)) >= Limit(signEna, w32, A.sign) then 1 else 0
  {
    hide Pow2, Mag, One;
    var mantA := A.Significand();
    var mantPreScale := mantA * 0x800;
    var expDif := 1023 + 63 - (A.exp as int);
    var expMax: nat;
    if w32 {
      if signEna {
        expMax := 1023 + 30;
      } else {
        expMax := 1023 + 62;
      }
    } else {
      if signEna || A.sign != 0 {
        expMax := 1023 + 62;
      } else {
        expMax := 1023 + 63;
      }
    }

    var mantShort: nat;
    if A.exp > expMax {
      ovr, und, mantShort := 1, 0, 0;
    } else if A.exp < 1023 {
      ovr, und, mantShort := 0, 1, 0;
    } else {
      ovr, und, mantShort := 0, 0, mantPreScale / Pow2(expDif);
    }
    TruncationRange(A);

    fres := IntMux(signEna, w32, A.sign, ovr, und, mantShort);
  }

  /** The result multiplexer: sign, saturation and width. */
  method IntMux(signEna: bool, w32: bool, sign: nat, ovr: int, und: int, mantShort: nat) returns (fres: nat)
    requires mantShort < 0x1_0000_0000_0000_0000
    requires signEna ==> mantShort < (if w32 then 0x8000_0000 else 0x8000_0000_0000_0000)
    requires (ovr != 0 ==> und == 0 && mantShort == 0) && (und != 0 <==> ovr == 0 && mantShort == 0)
    ensures var t: int := if sign == 0 then mantShort else -(mantShort as int);
      fres ==
        if ovr != 0 then
          (if !signEna && w32 then 0 else if w32 then 0xFFFF_FFFF_8000_0000 else 0x8000_0000_0000_0000)
        else if !signEna && w32 then t % 0x1_0000_0000
        else Word(t)
  {
    hide Word;
    Negated(mantShort);
    var resSign := And(Or(sign, ovr), Not(und));
    fres := if sign != 0 then Word(0x1_0000_0000_0000_0000 - mantShort) else mantShort;
    if signEna {
      if resSign != 0 {
        if w32 {
          fres := fres % 0x8000_0000 + 0xFFFF_FFFF_8000_0000;
        } else {
          fres := fres % 0x8000_0000_0000_0000 + 0x8000_0000_0000_0000;
        }
      }
    } else {
      if w32 {
        fres := fres % 0x1_0000_0000;
      } else if ovr != 0 {
        fres := fres % 0x8000_0000_0000_0000 + 0x8000_0000_0000_0000;
      }
    }
  }

  /** The two's complement of a magnitude, and its low parts. */
  lemma Negated(m: nat)
    requires m < 0x1_0000_0000_0000_0000
    ensures Word(m) == m && Word(0x1_0000_0000_0000_0000 - m) == Word(-(m as int))
    ensures Word(-(m as int)) == if m == 0 then 0 else 0x1_0000_0000_0000_0000 - m
    ensures 0 < m < 0x8000_0000 ==> (0x1_0000_0000_0000_0000 - m) % 0x8000_0000 == 0x8000_0000 - m
    ensures 0 < m < 0x8000_0000_0000_0000 ==>
      (0x1_0000_0000_0000_0000 - m) % 0x8000_0000_0000_0000 == 0x8000_0000_0000_0000 - m
    ensures (0x1_0000_0000_0000_0000 - m) % 0x1_0000_0000 == -(m as int) % 0x1_0000_0000
  {
    var w := 0x1_0000_0000_0000_0000;
    if m != 0 {
      DivUnique(-(m as int), w, -1, w - m);
      if m < 0x8000_0000 { DivUnique(w - m, 0x8000_0000, 0x1_FFFF_FFFF, 0x8000_0000 - m); }
      if m < 0x8000_0000_0000_0000 { DivUnique(w - m, 0x8000_0000_0000_0000, 1, 0x8000_0000_0000_0000 - m); }
    }
    LowWord(m);
  }

  lemma LowWord(m: nat)
    ensures (0x1_0000_0000_0000_0000 - m) % 0x1_0000_0000 == -(m as int) % 0x1_0000_0000
  {
    var x: int := -(m as int);
    var q, r := x / 0x1_0000_0000, x % 0x1_0000_0000;
    DivUnique(x + 0x1_0000_0000_0000_0000, 0x1_0000_0000, q + 0x1_0000_0000, r);
  }

  /** The exponent field bounds the truncated magnitude, and in range the shifter computes it. */
  lemma TruncationRange(A: F64)
    requires A.Valid()
    ensures var m := Mag(A.Code()) / One();
      && (A.exp < 1023 ==> m == 0)
      && (1023 <= A.exp <= 1086 ==> m == A.Significand() * 0x800 / Pow2(1086 - A.exp))
      && (1023 <= A.exp <= 1053 ==> m < 0x8000_0000) && (A.exp >= 1054 ==> m >= 0x8000_0000)
      && (A.exp <= 1085 ==> m < 0x8000_0000_0000_0000) && (A.exp >= 1086 ==> m >= 0x8000_0000_0000_0000)
      && (A.exp <= 1086 ==> m < 0x1_0000_0000_0000_0000) && (A.exp >= 1087 ==> m >= 0x1_0000_0000_0000_0000)
      && (A.exp >= 1023 ==> m >= 1)
  {
    hide Pow2, Mag, One;
    TruncatedBounds(A, 0);
    TruncatedBounds(A, 31);
    TruncatedBounds(A, 63);
    TruncatedBounds(A, 64);
    Pow2Values();
    Pow2Words();
    Pow2Next(31);
    Pow2Next(63);
    if 1023 <= A.exp <= 1086 { TruncatedShift(A); }
  }

  /** The truncated magnitude reaches Pow2(j) exactly when the exponent field reaches 1023 + j. */
  lemma TruncatedBounds(A: F64, j: nat)
    requires A.Valid()
    ensures Mag(A.Code()) / One() >= Pow2(j) <==> A.exp >= 1023 + j
  {
    hide Pow2, Mag;
    MagCode(A);
    QuotientReaches(Mag(A.Code()), One(), Pow2(j));
    Pow2Add(j, 1074);
    if A.exp >= 1023 + j {
      MagReaches(A.Significand(), A.exp - 1, j + 1074);
    } else {
      MagBelow(A.Significand(), A.Scale(), j + 1074);
    }
  }

  lemma MagReaches(s: nat, e: nat, k: nat)
    requires 0x10_0000_0000_0000 <= s < 0x20_0000_0000_0000 && k <= 52 + e
    ensures Pow2(k) <= s * Pow2(e)
  {
    hide Pow2;
    Pow2Values();
    ShiftBounds(s, 52, 53, e);
    Pow2Mono(k, 52 + e);
  }

  lemma MagBelow(s: nat, e: nat, k: nat)
    requires s < 0x20_0000_0000_0000 && 53 + e <= k
    ensures s * Pow2(e) < Pow2(k)
  {
    hide Pow2;
    Pow2Values();
    Pow2Mono(53 + e, k);
    Pow2Add(53, e);
    MulStrict(Pow2(e), s, Pow2(53));
  }

  lemma QuotientReaches(m: nat, u: nat, p: nat)
    requires u > 0
    ensures m / u >= p <==> m >= p * u
  {
    var q := m / u;
    assert m == u * q + m % u;
    if q >= p { MulMono(u, p, q); } else { MulMono(u, q + 1, p); }
  }

  lemma TruncatedShift(A: F64)
    requires A.Valid() && 1023 <= A.exp <= 1086
    ensures Mag(A.Code()) / One() == A.Significand() * 0x800 / Pow2(1086 - A.exp)
  {
    hide Pow2, Mag;
    MagCode(A);
    var m, e := A.Significand(), A.exp;
    assert Pow2(11) == 0x800 by { Pow2Eleven(); }
    ShiftShift(m, e - 1, 1086 - e);
    ShiftShift(m, 11, 1074);
    CrossDiv(m * 0x800, Pow2(1086 - e), Mag(A.Code()), One());
  }

  lemma Pow2Eleven()
    ensures Pow2(11) == 0x800
  {
  }

  // ------------------------------------------------------------------ out of range

  /** A 32-bit result in a 64-bit register. */
  function SignExtended(v: int): nat {
    if v % 0x1_0000_0000 >= 0x8000_0000 then v % 0x1_0000_0000 + 0xFFFF_FFFF_0000_0000 else v % 0x1_0000_0000
  }

  /** The range of a mode. */
  function Least(signEna: bool, w32: bool): int {
    if !signEna then 0 else if w32 then -0x8000_0000 else -0x8000_0000_0000_0000
  }

  function Greatest(signEna: bool, w32: bool): int {
    if w32 then if signEna then 0x7FFF_FFFF else 0xFFFF_FFFF
    else if signEna then 0x7FFF_FFFF_FFFF_FFFF else 0xFFFF_FFFF_FFFF_FFFF
  }

  /** The conversions of the RISC-V Unprivileged ISA 20191213, section 11.7: what is out of range
      saturates, a NaN like positive overflow, and 32-bit results are sign-extended. */
  ghost function Saturated(signEna: bool, w32: bool, A: F64): nat {
    var t := Truncated(A);
    var v := if TooLarge(signEna, w32, A) then Greatest(signEna, w32)
             else if A.IsInf() || t < Least(signEna, w32) then Least(signEna, w32) else t;
    if w32 then SignExtended(v) else Word(v)
  }

  ghost predicate TooLarge(signEna: bool, w32: bool, A: F64) {
    A.IsNaN() || (A.sign == 0 && (A.IsInf() || Truncated(A) > Greatest(signEna, w32)))
  }

  /** Where Double2Int returns the saturated result: signed modes miss the upper end and NaNs; the
      unsigned 64-bit mode is right inside its range only; the unsigned 32-bit mode neither extends the
      sign nor saturates, and hits the lower end by accident. */
  ghost predicate Saturates(signEna: bool, w32: bool, A: F64) {
    var t := Truncated(A);
    if signEna then !TooLarge(signEna, w32, A)
    else if w32 then
      || (A.exp < 0x7FF && 0 <= t < 0x8000_0000)
      || (A.sign == 1 && !A.IsNaN() && (A.IsInf() || t <= -0x8000_0000_0000_0000 || t % 0x1_0000_0000 == 0))
    else A.exp < 0x7FF && 0 <= t < 0x1_0000_0000_0000_0000
  }

  lemma SaturationCorrect(signEna: bool, w32: bool, A: F64)
    requires A.Valid()
    ensures Converted(signEna, w32, A) == Saturated(signEna, w32, A) <==> Saturates(signEna, w32, A)
  {
    hide Pow2, Mag, One, Truncated;
    var t := Truncated(A);
    TruncatedSign(A);
    WordOf(t);
    WordOf(Least(signEna, w32));
    WordOf(Greatest(signEna, w32));
    hide Word;
  }

  lemma TruncatedSign(A: F64)
    ensures if A.sign == 0 then Truncated(A) >= 0 else Truncated(A) <= 0
  {
    hide Pow2, Mag;
    DivNat(Mag(A.Code()), One());
  }

  lemma WordOf(t: int)
    ensures 0 <= t < 0x1_0000_0000_0000_0000 ==> Word(t) == t
    ensures -0x8000_0000_0000_0000 <= t < 0 ==> Word(t) == t + 0x1_0000_0000_0000_0000
    ensures -0x8000_0000 <= t < 0 ==> t % 0x1_0000_0000 == t + 0x1_0000_0000
    ensures 0 <= t < 0x1_0000_0000 ==> t % 0x1_0000_0000 == t
    ensures 0 <= t % 0x1_0000_0000 < 0x1_0000_0000
  {
  }

  /** The words given out of range, for every infinity and NaN and every magnitude beyond the mode; the
      overflow limit of a mode is one above its greatest value, except 2^63 for the unsigned 32-bit mode and
      for negative operands of the unsigned 64-bit one. */
  lemma OutOfRangeWords(signEna: bool, w32: bool, A: F64)
    requires A.Valid()
    requires A.exp == 0x7FF || Truncated(A) > 0xFFFF_FFFF_FFFF_FFFF || Truncated(A) < -0x8000_0000_0000_0000
    ensures Converted(signEna, w32, A) ==
      if w32 then if signEna then 0xFFFF_FFFF_8000_0000 else 0 else 0x8000_0000_0000_0000
    ensures signEna ==> Limit(signEna, w32, A.sign) == Greatest(signEna, w32) + 1 == -Least(signEna, w32)
    ensures !signEna && !w32 && A.sign == 0 ==> Limit(signEna, w32, A.sign) == Greatest(signEna, w32) + 1
    ensures !signEna && (w32 || A.sign == 1) ==> Limit(signEna, w32, A.sign) == 0x8000_0000_0000_0000
  {
    hide Truncated;
  }

  /** Infinity becomes the least 64-bit integer where the greatest is due, and 2^31 is not sign-extended
      by the unsigned 32-bit conversion. */
  lemma SaturationCounterexample()
    ensures !Saturates(true, false, F64(0, 0x7FF, 0)) && !Saturates(false, true, F64(0, 1054, 0))
    ensures Converted(true, false, F64(0, 0x7FF, 0)) == 0x8000_0000_0000_0000
  {
    hide Pow2, Mag, One;
    TruncationRange(F64(0, 1054, 0));
  }

  // ------------------------------------------------------------------ rounding modes

  /** The rounding modes an instruction can ask for (RISC-V Unprivileged ISA 20191213, table 11.1): nearest
      with ties to even, toward zero, down, up, and nearest with ties away from zero. */
  datatype Mode = Rne | Rtz | Rdn | Rup | Rmm

  /** n is the integer that the mode makes of num / den. */
  ghost predicate IsRounded(mode: Mode, num: int, den: Pos, n: int) {
    var rest := num - n * den;
    match mode
    case Rtz => if num >= 0 then 0 <= rest < den else 0 <= -rest < den
    case Rdn => 0 <= rest < den
    case Rup => 0 <= -rest < den
    case Rne => 2 * Abs(rest) <= den && (2 * Abs(rest) == den ==> n % 2 == 0)
    case Rmm => 2 * Abs(rest) <= den && (2 * Abs(rest) == den ==> Abs(n * den) > Abs(num))
  }

  /** The conversions truncate whatever mode is asked for. For a number with the fraction r / One() beside
      its truncated value, that is what the mode wants: always toward zero; down and up if the number is
      exact or on the side where truncation goes the same way; to nearest if the fraction is below one
      half, or is one half and the mode goes to the even truncated value. */
  lemma TruncationRounds(mode: Mode, A: F64)
    requires A.Finite()
    ensures var r, t := Mag(A.Code()) % One(), Truncated(A);
      IsRounded(mode, A.Signed(), One(), t) <==>
        match mode
        case Rtz => true
        case Rdn => r == 0 || A.sign == 0
        case Rup => r == 0 || A.sign == 1
        case Rne => 2 * r < One() || (2 * r == One() && t % 2 == 0)
        case Rmm => 2 * r < One()
  {
    hide One, Mag, Pow2, Truncated;
    Remainder(A);
  }

  /** What truncation leaves over. */
  lemma Remainder(A: F64)
    requires A.Finite()
    ensures var r, t := Mag(A.Code()) % One(), Truncated(A);
      && 0 <= r < One() && A.Signed() - t * One() == (if A.sign == 0 then r else -r)
      && (if A.sign == 0 then 0 <= t * One() <= A.Signed() else A.Signed() <= t * One() <= 0)
  {
    hide One, Mag, Pow2;
    var m, d := Mag(A.Code()), One();
    DivNat(m, d);
    var q := m / d;
    assert m == d * q + m % d;
    assert (-q) * d == -(d * q);
    MulMono(d, 0, q);
  }

  /** One and a half is truncated to one, which is wrong for every mode that rounds up or to nearest; the
      nearest even integer is two. */
  lemma ModeCounterexample()
    ensures var A := F64(0, 1023, 0x8_0000_0000_0000);
      && Truncated(A) == 1 && !IsRounded(Rup, A.Signed(), One(), 1)
      && !IsRounded(Rne, A.Signed(), One(), 1) && IsRounded(Rne, A.Signed(), One(), 2)
  {
    hide Pow2, Mag;
    var A := F64(0, 1023, 0x8_0000_0000_0000);
    MagCode(A);
    Pow2Add(1022, 52);
    Pow2Values();
    var h := Pow2(1022) * 0x8_0000_0000_0000;
    assert Mag(A.Code()) == 3 * h && One() == 2 * h;
    hide One;
    DivUnique(3 * h, 2 * h, 1, h);
    TruncationRounds(Rup, A);
    TruncationRounds(Rne, A);
  }

  // ------------------------------------------------------------------ there and back

  /** Converting n to a double and back, in the mode n was read in, returns n exactly when n is a
      double's value. */
  lemma RoundTrip(signEna: bool, w32: bool, a: nat, d: F64)
    requires a < 0x1_0000_0000_0000_0000 && d.Valid()
    requires var n := Source(signEna, w32, a);
      d.sign == (if n < 0 then 1 else 0) && IsRne(Abs(n) * One(), 1, d.Code())
    ensures var n := Source(signEna, w32, a);
      Converted(signEna, w32, d) == (if !signEna && w32 then n else Word(n)) <==> IsDouble(Abs(n))
  {
    hide Pow2, Mag, One, IsRne, Source, Converted, IsDouble;
    var n := Source(signEna, w32, a);
    if IsDouble(Abs(n)) {
      ExactConversion(Abs(n), d);
      InRange(signEna, w32, a, d);
    } else {
      SourceRange(signEna, w32, a);
      InexactConversion(Abs(n), d);
      assert IsDouble(0x8000_0000_0000_0000) by { IntegerIsDouble(1, 63); Pow2Words(); Pow2Next(63); }
      OutOfRange(signEna, w32, n, d);
    }
  }

  lemma SourceRange(signEna: bool, w32: bool, a: nat)
    requires a < 0x1_0000_0000_0000_0000
    ensures var n := Source(signEna, w32, a);
      && (signEna && w32 ==> -0x8000_0000 <= n < 0x8000_0000)
      && (signEna && !w32 ==> -0x8000_0000_0000_0000 <= n < 0x8000_0000_0000_0000)
      && (!signEna && w32 ==> 0 <= n < 0x1_0000_0000)
      && (!signEna && !w32 ==> 0 <= n < 0x1_0000_0000_0000_0000)
  {
  }

  /** n is the value of some double. */
  ghost predicate IsDouble(n: nat) {
    exists k: nat | k < INF :: Mag(k) == n * One()
  }

  /** A double's value converts to that double, and truncation recovers it. */
  lemma ExactConversion(n: nat, d: F64)
    requires d.Valid() && IsDouble(n) && IsRne(n * One(), 1, d.Code())
    ensures Mag(d.Code()) / One() == n
  {
    hide Pow2, Mag, One;
    var k: nat :| k < INF && Mag(k) == n * One();
    assert Dist(n * One(), 1, d.Code()) <= Dist(n * One(), 1, k);
    DivUnique(n * One(), One(), n, 0);
  }

  lemma InRange(signEna: bool, w32: bool, a: nat, d: F64)
    requires a < 0x1_0000_0000_0000_0000 && d.Valid()
    requires var n := Source(signEna, w32, a);
      d.sign == (if n < 0 then 1 else 0) && Mag(d.Code()) / One() == Abs(n)
    ensures var n := Source(signEna, w32, a);
      Converted(signEna, w32, d) == if !signEna && w32 then n else Word(n)
  {
    hide Mag, One, Source, Pow2;
    SourceRange(signEna, w32, a);
    TruncationRange(d);
  }

  /** An integer that is no double exceeds 2^53, and is converted to another integer. */
  lemma InexactConversion(n: nat, d: F64)
    requires d.Valid() && !IsDouble(n) && IsRne(n * One(), 1, d.Code()) && n < 0x1_0000_0000_0000_0000
    ensures n > 0x20_0000_0000_0000 && Mag(d.Code()) / One() != n
  {
    SmallIsDouble(n);
    WholeIsDouble(n, d);
  }

  lemma SmallIsDouble(n: nat)
    ensures n <= 0x20_0000_0000_0000 ==> IsDouble(n)
  {
    hide Pow2, Mag, One;
    if n <= 0x20_0000_0000_0000 {
      ShiftByNone(n);
      IntegerIsDouble(n, 0);
    }
  }

  /** A large integer that a double truncates to is a double. */
  lemma WholeIsDouble(n: nat, d: F64)
    requires d.Valid() && n < 0x1_0000_0000_0000_0000
    ensures n > 0x20_0000_0000_0000 && Mag(d.Code()) / One() == n ==> IsDouble(n)
  {
    hide Pow2, Mag, One;
    if n > 0x20_0000_0000_0000 && Mag(d.Code()) / One() == n {
      TruncationRange(d);
      Pow2Next(53);
      TruncatedBounds(d, 53);
      Pow2Values();
      WholeDouble(d);
      assert Mag(d.Code()) == n * One();
      MagBelowInf(d);
    }
  }

  lemma ShiftByNone(n: nat)
    ensures n * Pow2(0) == n
  {
  }

  lemma MagBelowInf(d: F64)
    requires d.Valid() && d.exp <= 1086
    ensures d.Code() < INF
  {
  }

  /** From 2^53 on every double is a whole number. */
  lemma WholeDouble(d: F64)
    requires d.Valid() && d.exp >= 1075
    ensures Mag(d.Code()) == Mag(d.Code()) / One() * One()
  {
    hide Pow2, Mag;
    MagCode(d);
    ShiftShift(d.Significand(), d.exp - 1075, 1074);
    DivUnique(Mag(d.Code()), One(), d.Significand() * Pow2(d.exp - 1075), 0);
  }

  /** m * 2^j is a double whenever m fits the significand. */
  lemma IntegerIsDouble(m: nat, j: nat)
    requires m <= 0x20_0000_0000_0000 && j <= 900
    ensures IsDouble(m * Pow2(j))
  {
    hide Pow2, Mag;
    Pow2Values();
    if m == 0 {
      MagSubnormal(0);
      assert Mag(0) == 0 * Pow2(j) * One();
    } else {
      var i := LeadBit(m, 53);
      ShiftShift(m, j, 1074);
      var e := 1074 + j + i - 52;
      if i <= 52 {
        ShiftBounds(m, i, i + 1, 52 - i);
        ShiftShift(m, 52 - i, e);
        DoubleAt(e, m * Pow2(52 - i), m * Pow2(j));
      } else {
        ShiftShift(0x10_0000_0000_0000, 1, 1074 + j);
        DoubleAt(e, 0x10_0000_0000_0000, m * Pow2(j));
      }
    }
  }

  lemma DoubleAt(e: nat, s: nat, n: nat)
    requires 0x10_0000_0000_0000 <= s < 0x20_0000_0000_0000 && e <= 2000 && s * Pow2(e) == n * One()
    ensures IsDouble(n)
  {
    hide Pow2, Mag, One;
    MagOf(e, s);
    assert e * 0x10_0000_0000_0000 + s < INF;
  }

  lemma LeadBit(m: nat, top: nat) returns (i: nat)
    requires 0 < m <= Pow2(top)
    ensures i <= top && Pow2(i) <= m < Pow2(i + 1)
  {
    i := top;
    assert Pow2(0) == 1;
    while m < Pow2(i)
      invariant i <= top && m < Pow2(i + 1)
    {
      i := i - 1;
    }
  }

  /** The saturated word, and the word of another integer, are not the word of n. */
  lemma OutOfRange(signEna: bool, w32: bool, n: int, d: F64)
    requires d.Valid() && d.sign == (if n < 0 then 1 else 0)
    requires Mag(d.Code()) / One() != Abs(n) && Abs(n) > 0x20_0000_0000_0000 && !w32
    requires if signEna then -0x8000_0000_0000_0000 <= n < 0x8000_0000_0000_0000 else 0 <= n < 0x1_0000_0000_0000_0000
    requires Abs(n) != 0x8000_0000_0000_0000
    ensures Converted(signEna, w32, d) != Word(n)
  {
    hide Mag, One, Pow2;
    var t := Truncated(d);
    assert t != n;
    if -0x8000_0000_0000_0000 <= t < 0x1_0000_0000_0000_0000 { WordsDiffer(signEna, t, n); }
    WordsDiffer(signEna, if n < 0 then -0x8000_0000_0000_0000 else 0x8000_0000_0000_0000, n);
  }

  lemma WordsDiffer(signEna: bool, t: int, n: int)
    requires t != n && -0x1_0000_0000_0000_0000 < t - n < 0x1_0000_0000_0000_0000
    ensures Word(t) != Word(n)
  {
  }
}
