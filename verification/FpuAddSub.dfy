/** FADD.D, FSUB.D and the comparisons: AddSubCompare, the 106-bit serial adder/subtractor with
    normalisation and rounding, against exact sums rounded to nearest even. */
module FpuAddSub {
  import opened Bits
  import opened Ieee
  import opened FpuBus
  import opened AddSubArith

  /** Outcome of ordering the operands by magnitude, with the comparison flags. */
  datatype Ordered = Ordered(
    preShift: nat, signOpMore: nat, expMore: nat, mantMore: nat, mantLess: nat,
    flEqual: int, flLess: int, flMore: int)

  /** Position of a non-NaN double in the order of the comparison flags; -0 comes just before +0. */
  function Key(d: F64): int {
    if d.sign == 0 then d.Code() else -(d.Code() as int) - 1
  }

  ghost predicate MoreIs(more: F64, less: F64, o: Ordered) {
    && o.expMore == more.exp && o.mantMore == more.Significand() && o.mantLess == less.Significand()
    && o.preShift == more.Scale() - less.Scale()
  }

  /** The operands are split into the larger and the smaller magnitude, and the flags compare keys. */
  ghost predicate Splits(A: F64, B: F64, signOp: int, o: Ordered) {
    && (if B.Code() <= A.Code()
        then MoreIs(A, B, o) && o.signOpMore == A.sign
        else MoreIs(B, A, o) && o.signOpMore == Xor(B.sign, signOp))
    && o.flEqual == (if Key(A) == Key(B) then 1 else 0)
    && o.flLess == (if Key(A) < Key(B) then 1 else 0)
    && o.flMore == (if Key(A) > Key(B) then 1 else 0)
  }

  method OrderOperands(A: F64, B: F64, signOp: int) returns (o: Ordered)
    requires A.Valid() && B.Valid() && (signOp == 0 || signOp == 1)
    ensures Splits(A, B, signOp, o)
  {
    var signA, signB, signOpB := A.sign, B.sign, Xor(B.sign, signOp);
    var mantA := A.Significand();
    var mantB := B.Significand();
    var expDif: int;
    if A.exp != 0 && B.exp == 0 {
      expDif := A.exp - 1;
    } else if A.exp == 0 && B.exp != 0 {
      expDif := 1 - B.exp;
    } else {
      expDif := A.exp - B.exp;
    }

    if expDif > 0 {
      o := Ordered(expDif, signA, A.exp, mantA, mantB, 0, signA, Not(signA));
    } else if expDif == 0 {
      if mantA == mantB {
        o := Ordered(expDif, signA, A.exp, mantA, mantB,
          Not(Xor(signA, signB)), And(signA, Xor(signA, signB)), And(Not(signA), Xor(signA, signB)));
      } else if mantA > mantB {
        o := Ordered(expDif, signA, A.exp, mantA, mantB, 0, signA, Not(signA));
      } else {
        o := Ordered(expDif, signOpB, B.exp, mantB, mantA, 0, Not(signB), signB);
      }
    } else {
      o := Ordered(-expDif, signOpB, B.exp, mantB, mantA, 0, Not(signB), signB);
    }
  }

  /** The bit-serial adder (diff == 0) and subtractor (diff == 1). */
  method RippleAddSub(more: array<int>, less: array<int>, diff: int) returns (sum: array<int>)
    requires more.Length == 106 && less.Length == 106 && IsBits(more[..]) && IsBits(less[..])
    requires diff != 0 ==> On(less) <= On(more)
    requires diff == 0 ==> On(more) + On(less) < 0x400_0000_0000_0000_0000_0000_0000
    ensures fresh(sum) && sum.Length == 106 && IsBits(sum[..])
    ensures On(sum) == if diff != 0 then On(more) - On(less) else On(more) + On(less)
  {
    hide Value, Pow2;
    Pow2Values();
    sum := new int[106];
    var carry := new int[107];
    carry[0] := 0;
    for i := 0 to 106
      invariant IsBits(sum[..i]) && (carry[i] == 0 || carry[i] == 1)
      invariant IsBits(more[..i]) && IsBits(less[..i])
      invariant diff == 0 ==> Value(sum[..i]) + carry[i] * Pow2(i) == Value(more[..i]) + Value(less[..i])
      invariant diff != 0 ==> Value(sum[..i]) + Value(less[..i]) == Value(more[..i]) + carry[i] * Pow2(i)
    {
      ghost var before := sum[..i];
      if diff != 0 {
        sum[i] := Xor(Xor(carry[i], more[i]), less[i]);
        carry[i + 1] := Or(And(Not(more[i]), less[i]), And(carry[i], Not(Xor(more[i], less[i]))));
      } else {
        sum[i] := Xor(Xor(carry[i], more[i]), less[i]);
        carry[i + 1] := Or(And(more[i], less[i]), And(carry[i], Or(more[i], less[i])));
      }
      ExtendPrefix(before, sum[..i + 1], sum[i]);
      ExtendPrefix(more[..i], more[..i + 1], more[i]);
      ExtendPrefix(less[..i], less[..i + 1], less[i]);
      Pow2Next(i);
      if diff == 0 {
        CellSum(Value(before), Value(more[..i]), Value(less[..i]), carry[i], more[i], less[i], Pow2(i));
      } else {
        CellDifference(Value(before), Value(more[..i]), Value(less[..i]), carry[i], more[i], less[i], Pow2(i));
      }
    }
    assert more[..106] == more[..] && less[..106] == less[..] && sum[..106] == sum[..];
  }

  lemma ExtendPrefix(before: seq<int>, s: seq<int>, b: int)
    requires IsBits(before) && (b == 0 || b == 1) && |s| == |before| + 1
    requires s[..|before|] == before && s[|before|] == b
    ensures IsBits(s) && Value(s) == Value(before) + b * Pow2(|before|)
  {
    assert s == before + [b];
    ValueAppend(before, b);
  }

  /** One cell of the adder, and of the subtractor, carries the running sum one bit further. */
  lemma CellSum(sv: int, mv: int, lv: int, c: int, m: int, l: int, p: int)
    requires (c == 0 || c == 1) && (m == 0 || m == 1) && (l == 0 || l == 1)
    requires sv + c * p == mv + lv
    ensures var c' := Or(And(m, l), And(c, Or(m, l)));
      sv + Xor(Xor(c, m), l) * p + c' * (2 * p) == mv + m * p + (lv + l * p)
  {
  }

  lemma CellDifference(sv: int, mv: int, lv: int, c: int, m: int, l: int, p: int)
    requires (c == 0 || c == 1) && (m == 0 || m == 1) && (l == 0 || l == 1)
    requires sv + lv == mv + c * p
    ensures var c' := Or(And(Not(m), l), And(c, Not(Xor(m, l))));
      sv + Xor(Xor(c, m), l) * p + (lv + l * p) == mv + m * p + c' * (2 * p)
  {
  }

  lemma LeadingBound(n: nat, lz: nat)
    requires LeadingZeros(n, lz) && lz != 0x7F
    ensures lz <= 104
  {
  }

  method LeadingShift(sum: array<int>) returns (rbLShift: nat)
    requires sum.Length == 106 && IsBits(sum[..])
    ensures LeadingZeros(On(sum), rbLShift)
  {
    Pow2Values();
    LeadingBit(sum[..], 105);
    if sum[105] != 0 {
      rbLShift := 0x7F;
    } else {
      rbLShift := 104;
      for i := 0 to 104
        invariant rbLShift == 104
        invariant On(sum) < Pow2(105 - i)
      {
        LeadingBit(sum[..], 104 - i);
        if sum[104 - i] != 0 {
          rbLShift := i;
          break;
        }
      }
    }
  }

  // ------------------------------------------------------------------ exponent and result fields

  /** expPostScale: the exponent after normalisation; negative for a subnormal result. */
  function PostExponent(expMore: nat, rbLShift: nat, diff: bool): int {
    var e := if rbLShift == 0x7F then (if expMore == 0x7FF then expMore else expMore + 1)
             else if expMore == 0 && rbLShift == 0 then 1
             else expMore - rbLShift;
    if diff && expMore != 0 && e <= 0 then e - 1 else e
  }

  function ResultExp(e: int, p: nat): int {
    var mantOnes := if p / 0x10_0000_0000_0000 == 0x1F_FFFF_FFFF_FFFF then 1 else 0;
    if e < 0 || p == 0 then 0 else e + And(And(mantOnes, RoundUp(p)), Not(if e == 0x7FF then 1 else 0))
  }

  function ResultMant(e: int, p: nat): nat {
    if e == 0x7FF then 0 else (p / 0x10_0000_0000_0000 + RoundUp(p)) % 0x10_0000_0000_0000
  }

  /** Exponent and mantissa fields of a rounded window, read as a code. */
  function ResultCode(e: int, p: nat): int {
    ResultExp(e, p) * 0x10_0000_0000_0000 + ResultMant(e, p)
  }

  /** The carry out of an all-ones mantissa lands in the exponent field. */
  lemma ResultNormal(e: int, p: nat)
    requires 1 <= e < 0x7FF
    requires 0x100_0000_0000_0000_0000_0000_0000 <= p < 0x200_0000_0000_0000_0000_0000_0000
    ensures ResultCode(e, p) == WindowCode(e - 1, p)
  {
    var m := p / 0x10_0000_0000_0000 + RoundUp(p);
    if m == 0x20_0000_0000_0000 {
    } else {
      assert m % 0x10_0000_0000_0000 == m - 0x10_0000_0000_0000;
    }
  }

  lemma ResultSubnormal(e: int, p: nat)
    requires e < 0 && p < 0x100_0000_0000_0000_0000_0000_0000 && p % 0x10_0000_0000_0000 == 0
    ensures ResultCode(e, p) == WindowCode(0, p)
  {
  }

  /** What the operands, the sum and the normalisation have to do with each other. */
  ghost predicate Computed(expMore: nat, m: nat, l: nat, d: nat, diff: bool, n: int, lz: nat, e: int, p: nat) {
    && expMore < 0x7FF && d <= Down(expMore) && l < 0x20_0000_0000_0000
    && (if expMore == 0 then m < 0x10_0000_0000_0000 && l < 0x10_0000_0000_0000
        else 0x10_0000_0000_0000 <= m < 0x20_0000_0000_0000)
    && (diff && d == 0 ==> l <= m)
    && n == Sum(m, l, d, diff) && n >= 0 && LeadingZeros(n, lz)
    && e == PostExponent(expMore, lz, diff)
    && p == (if lz == 0x7F then n / 2 else n * Pow2(lz)) / Pow2(if e < 0 then -e else 0)
  }

  function Down(e: nat): nat { if e == 0 then 0 else e - 1 }

  /** A carry out of the window: the exponent goes up by one, possibly to infinity. */
  lemma OverCorrect(expMore: nat, m: nat, l: nat, d: nat, n: nat, e: int, p: nat, x: nat)
    requires Computed(expMore, m, l, d, false, n, 0x7F, e, p)
    requires x == Exact(m, l, Down(expMore), d, false)
    ensures IsRne(x, 1, ResultCode(e, p)) && !LostTie(m, l, d, false)
  {
    hide Pow2, Mag, IsRne, Exact, RoundUp, Tie;
    Pow2Values();
    var em := Down(expMore);
    if expMore == 0 { NothingLost(l, d); }
    assert p == n / 2 && e == em + 2;
    if e < 0x7FF {
      ResultNormal(e, p);
      AddOverRounds(m, l, em, d, n, x);
    } else {
      OverBit(m, l, d, n);
      var rho := TruncatedSum(m, l, em, d, false);
      Pow2Next(em);
      HalfWindow(x * 0x10_0000_0000_0000, n, Pow2(em), rho);
      Overflow(x, p);
    }
  }

  /** Operands without hidden bits: their sum or difference is exact. */
  lemma TinyCorrect(m: nat, l: nat, d: nat, diff: bool, n: nat, lz: nat, e: int, p: nat, x: nat)
    requires Computed(0, m, l, d, diff, n, lz, e, p)
    requires x == Exact(m, l, 0, d, diff)
    ensures IsRne(x, 1, ResultCode(e, p)) && !LostTie(m, l, d, diff)
  {
    hide Mag, IsRne, Pow2, ResultCode, WindowCode;
    TinyWindow(m, l, diff, n, lz, e, p, x);
    TinyResult(e, p, lz, x);
  }

  lemma TinyResult(e: int, p: nat, lz: nat, x: nat)
    requires p == x * 0x10_0000_0000_0000 && p < 0x200_0000_0000_0000_0000_0000_0000
    requires if lz == 0 then e == 1 && 0x100_0000_0000_0000_0000_0000_0000 <= p
             else e < 0 && p < 0x100_0000_0000_0000_0000_0000_0000
    ensures IsRne(x, 1, ResultCode(e, p))
  {
    hide Mag, IsRne, Pow2;
    Pow2Values();
    if lz == 0 { ResultNormal(e, p); } else { ResultSubnormal(e, p); }
    RoundExact(x, p, 0);
  }

  lemma TinyWindow(m: nat, l: nat, diff: bool, n: nat, lz: nat, e: int, p: nat, x: nat)
    requires Computed(0, m, l, 0, diff, n, lz, e, p)
    requires x == Exact(m, l, 0, 0, diff)
    ensures p == n && n == x * 0x10_0000_0000_0000 && n < 0x200_0000_0000_0000_0000_0000_0000
    ensures lz <= 104 && (if lz == 0 then e == 1 else e < 0)
    ensures lz == 0 ==> 0x100_0000_0000_0000_0000_0000_0000 <= n
    ensures lz != 0 ==> n < 0x100_0000_0000_0000_0000_0000_0000
  {
    hide Pow2;
    Pow2Values();
    assert n == x * 0x10_0000_0000_0000;
    if lz != 0 {
      Pow2Mono(105 - lz, 104);
      ShiftBack(n, lz);
    }
  }

  /** A sum of normal operands without carry stays in its binade. */
  lemma PlainSumCorrect(expMore: nat, m: nat, l: nat, d: nat, n: nat, lz: nat, e: int, p: nat, x: nat)
    requires expMore > 0 && lz != 0x7F && Computed(expMore, m, l, d, false, n, lz, e, p)
    requires x == Exact(m, l, expMore - 1, d, false)
    ensures IsRne(x, 1, ResultCode(e, p)) <==> !LostTie(m, l, d, false)
  {
    hide Mag, IsRne, Exact, RoundUp, Tie, Pow2, ResultCode, LeadingZeros, PostExponent;
    PlainShift(expMore, m, l, d, n, lz, e, p);
    ResultNormal(e, p);
    AddRounds(m, l, expMore - 1, d, n, x);
  }

  lemma PlainShift(expMore: nat, m: nat, l: nat, d: nat, n: nat, lz: nat, e: int, p: nat)
    requires expMore > 0 && lz != 0x7F && Computed(expMore, m, l, d, false, n, lz, e, p)
    ensures lz == 0 && e == expMore && p == n
    ensures 0x100_0000_0000_0000_0000_0000_0000 <= n < 0x200_0000_0000_0000_0000_0000_0000
  {
    hide Pow2, LeadingZeros, Sum;
    SumAtLeast(m, l, d);
    PlainZeros(n, lz);
    NoShift(n);
    assert Pow2(0) == 1 && n * Pow2(0) == n by { Pow2Values(); }
  }

  lemma SumAtLeast(m: nat, l: nat, d: nat)
    ensures Sum(m, l, d, false) >= m * 0x10_0000_0000_0000
  {
    hide Pow2;
    DivNat(l * 0x10_0000_0000_0000, Pow2(d));
  }

  lemma PlainZeros(n: nat, lz: nat)
    requires 0x100_0000_0000_0000_0000_0000_0000 <= n && LeadingZeros(n, lz) && lz != 0x7F
    ensures lz == 0 && n < 0x200_0000_0000_0000_0000_0000_0000
  {
    hide Pow2;
    Pow2Values();
    if lz > 0 { Pow2Mono(105 - lz, 104); }
  }

  /** A difference that stays in the normal range. */
  lemma NormalDifferenceCorrect(expMore: nat, m: nat, l: nat, d: nat, n: nat, lz: nat, e: int, p: nat, x: nat)
    requires expMore > 0 && lz < expMore && n != 0 && Computed(expMore, m, l, d, true, n, lz, e, p)
    requires x == Exact(m, l, expMore - 1, d, true)
    ensures IsRne(x, 1, ResultCode(e, p)) <==> !LostTie(m, l, d, true)
  {
    hide Mag, IsRne, Exact, RoundUp, Tie, Pow2, ResultCode, WindowCode, LeadingZeros, Sum;
    DifferenceShift(m, l, d, n, lz);
    Normalised(n, lz);
    NoShift(n * Pow2(lz));
    assert e == expMore - lz && p == n * Pow2(lz);
    ResultNormal(e, p);
    NormalCodeFits(e, p);
    SubRounds(m, l, expMore - 1, d, n, x, lz, p);
  }

  lemma DifferenceShift(m: nat, l: nat, d: nat, n: nat, lz: nat)
    requires m < 0x20_0000_0000_0000 && n == Sum(m, l, d, true) && LeadingZeros(n, lz)
    ensures lz <= 104
  {
    hide Pow2;
    DivNat(l * 0x10_0000_0000_0000, Pow2(d));
  }

  /** A difference of normal operands below the normal range: the exponent field is zero and the
      mantissa is shifted back to the subnormal weight. */
  lemma SubnormalDifferenceCorrect(expMore: nat, m: nat, l: nat, d: nat, n: nat, lz: nat, e: int, p: nat, x: nat)
    requires 0 < expMore <= lz <= 104 && n != 0 && Computed(expMore, m, l, d, true, n, lz, e, p)
    requires x == Exact(m, l, expMore - 1, d, true)
    ensures IsRne(x, 1, ResultCode(e, p)) && !LostTie(m, l, d, true)
  {
    hide Mag, IsRne, Exact, RoundUp, Tie, Pow2, ResultCode, WindowCode;
    var em := expMore - 1;
    NearGap(m, l, d, n, lz);
    SubnormalWindow(n, lz, em, p);
    SubSubnormal(m, l, em, d, n, x);
    ResultSubnormal(e, p);
  }

  lemma NearGap(m: nat, l: nat, d: nat, n: nat, lz: nat)
    requires 0x10_0000_0000_0000 <= m && l < 0x20_0000_0000_0000 && n == Sum(m, l, d, true)
    requires d < lz <= 104 && n < Pow2(105 - lz)
    ensures d <= 52
  {
    hide Pow2;
    if d >= 53 {
      FarShift(l, d);
      Pow2Values();
      Pow2Mono(105 - lz, 51);
    }
  }

  lemma SubnormalWindow(n: nat, lz: nat, em: nat, p: nat)
    requires n != 0 && em < lz <= 104 && LeadingZeros(n, lz)
    requires p == n * Pow2(lz) / Pow2(lz - em)
    ensures p == n * Pow2(em) && p < 0x100_0000_0000_0000_0000_0000_0000
  {
    hide Pow2, LeadingZeros;
    var k := lz - em;
    Pow2Add(em, k);
    assert n * (Pow2(em) * Pow2(k)) == (n * Pow2(em)) * Pow2(k);
    ShiftBack(n * Pow2(em), k);
    Normalised(n, lz);
    Pow2Mono(0, k - 1);
    Pow2Next(k - 1);
    Pow2Values();
    MulMono(p, 2, Pow2(k));
  }

  /** Only equal operands cancel, and they cancel exactly. */
  lemma CancelCorrect(expMore: nat, m: nat, l: nat, d: nat, lz: nat, e: int, p: nat, x: nat)
    requires expMore > 0 && Computed(expMore, m, l, d, true, 0, lz, e, p)
    requires x == Exact(m, l, expMore - 1, d, true)
    ensures x == 0 && p == 0 && IsRne(x, 1, ResultCode(e, p)) && !LostTie(m, l, d, true)
  {
    hide Mag, IsRne, Pow2, RoundUp, ResultCode;
    Cancelled(m, l, d, lz);
    assert p == 0 by { ModSmall(0, Pow2(if e < 0 then -e else 0)); }
    ZeroResult(e);
  }

  lemma ZeroResult(e: int)
    requires e < 0x7FF
    ensures ResultCode(e, 0) == 0 && IsRne(0, 1, 0)
  {
    hide Mag, IsRne, Pow2;
    RoundExact(0, 0, 0);
  }

  lemma Cancelled(m: nat, l: nat, d: nat, lz: nat)
    requires 0x10_0000_0000_0000 <= m && l < 0x20_0000_0000_0000 && Sum(m, l, d, true) == 0
    requires LeadingZeros(0, lz)
    ensures d == 0 && m == l && lz == 104
  {
    hide Pow2;
    Pow2Values();
    if d > 0 {
      var t, q := l * 0x10_0000_0000_0000 / Pow2(d), Pow2(d);
      Pow2Mono(1, d);
      MulMono(t, 2, q);
    }
  }

  lemma ComputedFacts(expMore: nat, m: nat, l: nat, d: nat, diff: bool, n: nat, lz: nat, e: int, p: nat)
    requires Computed(expMore, m, l, d, diff, n, lz, e, p)
    ensures d <= Down(expMore)
    ensures diff ==> lz <= 104
  {
    hide Pow2;
    DivNat(l * 0x10_0000_0000_0000, Pow2(d));
  }

  /** The computed fields are the correctly rounded exact sum or difference, unless a lost bit would
      have broken a tie. */
  lemma RoundedCorrect(expMore: nat, m: nat, l: nat, d: nat, diff: bool, n: nat, lz: nat, e: int, p: nat, x: nat)
    requires Computed(expMore, m, l, d, diff, n, lz, e, p)
    requires x == Exact(m, l, Down(expMore), d, diff)
    ensures IsRne(x, 1, ResultCode(e, p)) <==> !LostTie(m, l, d, diff)
  {
    hide Mag, IsRne, Exact, RoundUp, Tie, Pow2, ResultCode, Computed, LostTie;
    ComputedFacts(expMore, m, l, d, diff, n, lz, e, p);
    if expMore == 0 {
      TinyCorrect(m, l, d, diff, n, lz, e, p, x);
    } else if lz == 0x7F {
      OverCorrect(expMore, m, l, d, n, e, p, x);
    } else if !diff {
      PlainSumCorrect(expMore, m, l, d, n, lz, e, p, x);
    } else if n == 0 {
      CancelCorrect(expMore, m, l, d, lz, e, p, x);
    } else if lz < expMore {
      NormalDifferenceCorrect(expMore, m, l, d, n, lz, e, p, x);
    } else {
      SubnormalDifferenceCorrect(expMore, m, l, d, n, lz, e, p, x);
    }
  }

  /** The exponent after normalisation reaches 0x7FF exactly when the exact result does. */
  lemma OverflowExact(expMore: nat, m: nat, l: nat, d: nat, diff: bool, n: nat, lz: nat, e: int, p: nat, x: nat)
    requires Computed(expMore, m, l, d, diff, n, lz, e, p)
    requires x == Exact(m, l, Down(expMore), d, diff)
    ensures e == 0x7FF <==> x >= Mag(INF)
  {
    hide Pow2, Mag, Exact;
    Pow2Values();
    var em := Down(expMore);
    ComputedFacts(expMore, m, l, d, diff, n, lz, e, p);
    InfinityMag();
    var rho := TruncatedSum(m, l, em, d, diff);
    ExponentTop(expMore, lz, diff, e);
    if lz == 0x7F {
      assert 0x200_0000_0000_0000_0000_0000_0000 <= n;
      if expMore < 0x7FE {
        Pow2Mono(em, 2044);
        Pow2Next(2044);
        SumBelow(m, l, d, n);
        Below(x, n, Pow2(em), rho, 0x400_0000_0000_0000_0000_0000_0000, Pow2(2044));
      } else {
        MulMono(Pow2(2045), 0x200_0000_0000_0000_0000_0000_0000, n);
      }
    } else {
      Pow2Mono(em, 2045);
      NotOver(n, lz);
      Below(x, n, Pow2(em), rho, 0x200_0000_0000_0000_0000_0000_0000, Pow2(2045));
    }
  }

  lemma InfinityMag()
    ensures Mag(INF) == 0x20_0000_0000_0000 * Pow2(2045)
  {
    hide Pow2, Mag;
    MagNormal(0x7FE, 0);
    Pow2Next(2045);
  }

  lemma ExponentTop(expMore: nat, lz: nat, diff: bool, e: int)
    requires expMore < 0x7FF && e == PostExponent(expMore, lz, diff)
    ensures e == 0x7FF <==> lz == 0x7F && expMore == 0x7FE
  {
  }

  lemma NotOver(n: nat, lz: nat)
    requires LeadingZeros(n, lz) && lz != 0x7F
    ensures n < 0x200_0000_0000_0000_0000_0000_0000
  {
    hide Pow2;
    Pow2Values();
    if lz <= 104 { Pow2Mono(105 - lz, 105); }
  }

  lemma SumBelow(m: nat, l: nat, d: nat, n: nat)
    requires m < 0x20_0000_0000_0000 && l < 0x20_0000_0000_0000 && n == Sum(m, l, d, false)
    ensures n < 0x400_0000_0000_0000_0000_0000_0000
  {
    hide Pow2;
    QuotientAtMost(l * 0x10_0000_0000_0000, Pow2(d));
  }

  lemma QuotientAtMost(x: nat, q: nat)
    requires q > 0
    ensures x / q <= x
  {
    var t := x / q;
    assert x == q * t + x % q;
    MulMono(t, 1, q);
  }

  lemma Below(x: nat, n: nat, u: nat, rho: nat, top: nat, big: nat)
    requires n < top && u <= big && rho < u && x * 0x10_0000_0000_0000 <= n * u + rho
    ensures x * 0x10_0000_0000_0000 < top * big
  {
    MulMono(u, n + 1, top);
    MulMono(top, u, big);
    assert u * (n + 1) == n * u + u;
  }

  // ------------------------------------------------------------------ the instruction

  /** The exact sum (signOp == 0) or difference (signOp == 1), in units of 2^-1074. */
  ghost function ExactResult(A: F64, B: F64, signOp: int): int {
    A.Signed() + if signOp == 0 then B.Signed() else -B.Signed()
  }

  /** Operand pairs the adder rounds wrongly; see AddSubArith.LostTie. */
  predicate LosesTie(A: F64, B: F64, signOp: int) {
    var diff := A.sign != Xor(B.sign, signOp);
    if B.Code() <= A.Code()
    then A.Scale() >= B.Scale() && LostTie(A.Significand(), B.Significand(), A.Scale() - B.Scale(), diff)
    else B.Scale() >= A.Scale() && LostTie(B.Significand(), A.Significand(), B.Scale() - A.Scale(), diff)
  }

  /** Sign of a sum in round-to-nearest mode (IEEE 754-2008 section 6.3): that of the exact value; an
      exact zero is +0 unless both addends carry the same sign. */
  ghost predicate SumSign(A: F64, B: F64, signOp: int, sign: int) {
    var s := ExactResult(A, B, signOp);
    if s > 0 then sign == 0
    else if s < 0 then sign == 1
    else sign == if A.sign == Xor(B.sign, signOp) then A.sign else 0
  }

  /** The sum when an operand is infinite or NaN (IEEE 754-2008 sections 6.1, 6.2 and 7.2). */
  ghost predicate SumSpecial(A: F64, B: F64, signOp: int, r: F64) {
    var signB := Xor(B.sign, signOp);
    if A.IsNaN() || B.IsNaN() || (A.IsInf() && B.IsInf() && A.sign != signB) then r.IsNaN()
    else r == F64(if A.IsInf() then A.sign else signB, 0x7FF, 0)
  }

  /** Special operands the adder gets right: a NaN, or two infinities of one sign. An infinity and a
      finite number give a NaN; infinities of different signs are added to an infinity and subtracted
      to a NaN, where it should be the other way round. */
  predicate SumHandled(A: F64, B: F64) {
    A.IsNaN() || B.IsNaN() || (A.IsInf() && B.IsInf() && A.sign == B.sign)
  }

  /** Splitting the operands does not change the exact result. */
  lemma ExactOrdered(A: F64, B: F64, signOp: int, o: Ordered)
    requires A.Finite() && B.Finite() && (signOp == 0 || signOp == 1) && Splits(A, B, signOp, o)
    ensures o.preShift <= Down(o.expMore)
    ensures var s, diff := ExactResult(A, B, signOp), A.sign != Xor(B.sign, signOp);
      && Abs(s) == Exact(o.mantMore, o.mantLess, Down(o.expMore), o.preShift, diff)
      && (s > 0 ==> o.signOpMore == 0) && (s < 0 ==> o.signOpMore == 1)
      && (s == 0 && !diff ==> A.Code() == 0 && B.Code() == 0)
  {
    hide Pow2, Mag, LostTie, Exact;
    MagOrder(A.Code(), B.Code());
    var diff := A.sign != Xor(B.sign, signOp);
    if B.Code() <= A.Code() {
      ExactMags(A, B, diff);
    } else {
      ExactMags(B, A, diff);
    }
  }

  lemma ExactMags(more: F64, less: F64, diff: bool)
    requires more.Finite() && less.Finite() && less.Scale() <= more.Scale()
    ensures Exact(more.Significand(), less.Significand(), more.Scale(), more.Scale() - less.Scale(), diff)
      == if diff then Mag(more.Code()) - Mag(less.Code()) else Mag(more.Code()) + Mag(less.Code())
  {
    hide Pow2, Mag;
    MagCode(more);
    MagCode(less);
  }

  lemma MagOrder(j: nat, k: nat)
    ensures Mag(j) < Mag(k) <==> j < k
    ensures Mag(j) == 0 <==> j == 0
    ensures Mag(k) == 0 <==> k == 0
  {
    hide Pow2, Mag;
    if j < k { MagMono(j, k); }
    if k < j { MagMono(k, j); }
    assert Mag(0) == 0 by { MagSubnormal(0); }
    if j > 0 { MagMono(0, j); }
    if k > 0 { MagMono(0, k); }
  }

  /** The split operands are what the adder expects. */
  lemma OperandFacts(A: F64, B: F64, signOp: int, o: Ordered)
    requires A.Valid() && B.Valid() && (signOp == 0 || signOp == 1) && Splits(A, B, signOp, o)
    ensures o.mantLess < 0x20_0000_0000_0000 && o.preShift <= Down(o.expMore)
    ensures if o.expMore == 0 then o.mantMore < 0x10_0000_0000_0000 && o.mantLess < 0x10_0000_0000_0000
            else 0x10_0000_0000_0000 <= o.mantMore < 0x20_0000_0000_0000
    ensures o.preShift == 0 ==> o.mantLess <= o.mantMore
    ensures o.signOpMore == 0 || o.signOpMore == 1
    ensures A.Finite() && B.Finite() ==> o.expMore < 0x7FF
    ensures LosesTie(A, B, signOp) <==>
      LostTie(o.mantMore, o.mantLess, o.preShift, A.sign != Xor(B.sign, signOp))
  {
    hide LostTie;
  }

  /** The window is empty only when the exact result is zero. */
  lemma ZeroWindow(expMore: nat, m: nat, l: nat, d: nat, diff: bool, n: nat, lz: nat, e: int, p: nat, x: nat)
    requires Computed(expMore, m, l, d, diff, n, lz, e, p)
    requires x == Exact(m, l, Down(expMore), d, diff)
    ensures p == 0 <==> x == 0
  {
    hide Mag, IsRne, Exact, RoundUp, Tie, Pow2, ResultCode;
    var em := Down(expMore);
    var rho := TruncatedSum(m, l, em, d, diff);
    Pow2Values();
    if expMore == 0 {
      TinyWindow(m, l, diff, n, lz, e, p, x);
    } else if n == 0 {
      assert diff;
      CancelCorrect(expMore, m, l, d, lz, e, p, x);
    } else {
      MulMono(Pow2(em), 1, n);
      WindowNotEmpty(expMore, m, l, d, diff, n, lz, e, p);
    }
  }

  lemma WindowNotEmpty(expMore: nat, m: nat, l: nat, d: nat, diff: bool, n: nat, lz: nat, e: int, p: nat)
    requires Computed(expMore, m, l, d, diff, n, lz, e, p) && expMore > 0 && n != 0
    ensures p != 0
  {
    hide Pow2;
    Pow2Values();
    if !diff && lz != 0x7F {
      PlainShift(expMore, m, l, d, n, lz, e, p);
    } else if lz != 0x7F {
      DifferenceNotEmpty(expMore, n, lz, e, p);
    }
  }

  lemma DifferenceNotEmpty(expMore: nat, n: nat, lz: nat, e: int, p: nat)
    requires expMore > 0 && n != 0 && lz != 0x7F && LeadingZeros(n, lz) && e == PostExponent(expMore, lz, true)
    requires p == n * Pow2(lz) / Pow2(if e < 0 then -e else 0)
    ensures p != 0
  {
    hide Pow2, LeadingZeros;
    Pow2Values();
    assert lz <= 104 by { LeadingBound(n, lz); }
    if lz >= expMore {
      SubnormalWindow(n, lz, expMore - 1, p);
      MulStrict(Pow2(expMore - 1), 0, n);
    } else {
      Normalised(n, lz);
    }
  }

  /** n is the 106-bit sum of two ordered operands, lz its leading zeros, e the exponent after
      normalisation and p the normalised window. */
  ghost predicate Normalises(o: Ordered, diff: bool, n: nat, lz: nat, e: int, p: nat) {
    && n == Sum(o.mantMore, o.mantLess, o.preShift, diff) && LeadingZeros(n, lz)
    && e == PostExponent(o.expMore, lz, diff)
    && p == (if lz == 0x7F then n / 2 else n * Pow2(lz)) / Pow2(if e < 0 then -e else 0)
  }

  /** The shifter, the adder, the normalisation and the rounding of two ordered operands. */
  method AdderWindow(o: Ordered, diff: int)
      returns (expPostScale: int, mantShort: nat, mantOnes: int, rndBit: nat, sumZero: int,
               ghost n: nat, ghost lz: nat, ghost p: nat)
    requires o.mantMore < 0x20_0000_0000_0000 && o.mantLess < 0x20_0000_0000_0000
    requires (o.preShift == 0 ==> o.mantLess <= o.mantMore) && (o.preShift > 0 ==> 0x10_0000_0000_0000 <= o.mantMore)
    ensures Normalises(o, diff != 0, n, lz, expPostScale, p)
    ensures mantShort == p / 0x10_0000_0000_0000 < 0x20_0000_0000_0000
    ensures mantOnes == if mantShort == 0x1F_FFFF_FFFF_FFFF then 1 else 0
    ensures rndBit == RoundUp(p) && sumZero == if p == 0 then 1 else 0
  {
    hide Pow2, Value, RoundUp;
    var wbMantMore := LoadMantissa(o.mantMore);
    var wbMantLess := LoadMantissa(o.mantLess);
    var mantLessScale := ShiftRight(wbMantLess, o.preShift);
    SumFits(o.mantMore, o.mantLess, o.preShift);
    var mantSum := RippleAddSub(wbMantMore, mantLessScale, diff);
    var rbLShift := LeadingShift(mantSum);
    var mantAlign := Align(mantSum, rbLShift);

    if rbLShift == 0x7F {
      if o.expMore == 0x7FF {
        expPostScale := o.expMore;
      } else {
        expPostScale := o.expMore + 1;
      }
    } else {
      if o.expMore == 0 && rbLShift == 0 {
        expPostScale := 1;
      } else {
        expPostScale := o.expMore - rbLShift;
      }
    }
    if diff != 0 {
      if o.expMore != 0 && expPostScale <= 0 {
        expPostScale := expPostScale - 1;
      }
    }

    var mantPostScale := ShiftRight(mantAlign, if expPostScale < 0 then -expPostScale else 0);
    mantShort, mantOnes, rndBit := RoundWindow(mantPostScale);
    sumZero := AllZero(mantPostScale);
    n, lz, p := On(mantSum), rbLShift, On(mantPostScale);
  }

  /** The shifted operand is never larger than the other one, and their sum fits 106 bits. */
  lemma SumFits(m: nat, l: nat, d: nat)
    requires m < 0x20_0000_0000_0000 && l < 0x20_0000_0000_0000
    requires (d == 0 ==> l <= m) && (d > 0 ==> 0x10_0000_0000_0000 <= m)
    ensures 0 <= l * 0x10_0000_0000_0000 / Pow2(d) <= m * 0x10_0000_0000_0000
    ensures m * 0x10_0000_0000_0000 + l * 0x10_0000_0000_0000 / Pow2(d) < 0x400_0000_0000_0000_0000_0000_0000
  {
    hide Pow2;
    Pow2Values();
    if d > 0 {
      Pow2Mono(1, d);
      HalfAtMost(l * 0x10_0000_0000_0000, Pow2(d));
    } else {
      NoShift(l * 0x10_0000_0000_0000);
    }
  }

  lemma HalfAtMost(x: nat, q: nat)
    requires q >= 2
    ensures 0 <= x / q <= x / 2
  {
    var t := x / q;
    assert x == q * t + x % q;
    MulMono(t, 2, q);
  }

  /** Sign, exponent and mantissa multiplexers of the sum, with the special values. */
  method SignMux(A: F64, B: F64, signOp: int, signOpMore: nat, sumZero: int) returns (sign: nat)
    ensures A.exp < 0x7FF && B.exp < 0x7FF ==>
      sign == if A.exp == 0 && A.mant == 0 && B.exp == 0 && B.mant == 0 then And(A.sign, Xor(B.sign, signOp))
              else if sumZero != 0 then 0 else signOpMore
    ensures A.sign < 2 && B.sign < 2 && signOpMore < 2 ==> sign < 2
    ensures A.IsInf() && B.IsInf() && signOp == 0 && A.sign == B.sign < 2 ==> sign == A.sign
  {
    var signA, signOpB := A.sign, Xor(B.sign, signOp);
    var mantZeroA := Not(A.mant);
    var mantZeroB := Not(B.mant);
    var allZero := A.exp == 0 && mantZeroA != 0 && B.exp == 0 && mantZeroB != 0;
    var nanA := if A.exp == 0x7FF then 1 else 0;
    var nanB := if B.exp == 0x7FF then 1 else 0;
    var nanAB := And(And(nanA, mantZeroA), And(nanB, mantZeroB));
    if And(nanAB, signOp) != 0 {
      sign := Xor(signA, signOpB);
    } else if nanA != 0 {
      sign := Or(signA, And(nanB, signOpB));
    } else if nanB != 0 {
      sign := Xor(signOpB, And(signOp, Not(mantZeroB)));
    } else if allZero {
      sign := And(signA, signOpB);
    } else if sumZero != 0 {
      sign := 0;
    } else {
      sign := signOpMore;
    }
  }

  method ExpMux(A: F64, B: F64, expPostScale: int, mantOnes: int, rndBit: int, sumZero: int) returns (exp: nat)
    ensures !(A.exp == 0x7FF || B.exp == 0x7FF) ==>
      exp == if expPostScale < 0 || sumZero != 0 then 0
             else expPostScale + And(And(mantOnes, rndBit), Not(if expPostScale == 0x7FF then 1 else 0))
    ensures A.exp == 0x7FF || B.exp == 0x7FF ==> exp == 0x7FF
  {
    var overflow := if expPostScale == 0x7FF then 1 else 0;
    if A.exp == 0x7FF || B.exp == 0x7FF {
      exp := 0x7FF;
    } else if expPostScale < 0 || sumZero != 0 {
      exp := 0;
    } else {
      exp := expPostScale + And(And(mantOnes, rndBit), Not(overflow));
    }
  }

  method MantMux(A: F64, B: F64, signOp: int, expPostScale: int, mantShort: nat, rndBit: nat) returns (mant: nat)
    ensures A.exp < 0x7FF && B.exp < 0x7FF ==>
      mant == if expPostScale == 0x7FF then 0 else (mantShort + rndBit) % 0x10_0000_0000_0000
    ensures A.Valid() && B.Valid() ==> mant < 0x10_0000_0000_0000
    ensures (A.exp == 0x7FF || B.exp == 0x7FF) && A.Valid() && B.Valid() ==>
      (mant == 0 <==> A.IsInf() && B.IsInf() && signOp == 0)
  {
    var mantZeroA := Not(A.mant);
    var mantZeroB := Not(B.mant);
    var nanA := if A.exp == 0x7FF then 1 else 0;
    var nanB := if B.exp == 0x7FF then 1 else 0;
    var overflow := if expPostScale == 0x7FF then 1 else 0;
    if And(And(nanA, mantZeroA), And(nanB, mantZeroB)) != 0 {
      mant := if signOp != 0 then 0x8_0000_0000_0000 else 0;
    } else if nanA != 0 && And(nanB, Xor(B.sign, signOp)) == 0 {
      mant := SetQuiet(A.mant);
    } else if nanB != 0 {
      mant := SetQuiet(B.mant);
    } else if overflow != 0 {
      mant := 0;
    } else {
      mant := (mantShort + rndBit) % 0x10_0000_0000_0000;
    }
  }

  /** The three multiplexers together. */
  method ResultMux(A: F64, B: F64, signOp: int, signOpMore: nat, expPostScale: int, mantShort: nat, mantOnes: int,
                   rndBit: int, sumZero: int, ghost p: nat) returns (res: F64)
    requires A.Valid() && B.Valid() && (signOp == 0 || signOp == 1) && signOpMore < 2
    requires mantShort == p / 0x10_0000_0000_0000 && rndBit == RoundUp(p)
    requires mantOnes == (if mantShort == 0x1F_FFFF_FFFF_FFFF then 1 else 0) && sumZero == (if p == 0 then 1 else 0)
    ensures A.Finite() && B.Finite() ==>
      && res.exp == ResultExp(expPostScale, p) && res.mant == ResultMant(expPostScale, p)
      && res.sign == if A.Code() == 0 && B.Code() == 0 then And(A.sign, Xor(B.sign, signOp))
                     else if p == 0 then 0 else signOpMore
    ensures !(A.Finite() && B.Finite()) ==> res.Valid() && (SumSpecial(A, B, signOp, res) <==> SumHandled(A, B))
  {
    hide RoundUp, SumSpecial, SumHandled;
    var sign := SignMux(A, B, signOp, signOpMore, sumZero);
    var exp := ExpMux(A, B, expPostScale, mantOnes, rndBit, sumZero);
    var mant := MantMux(A, B, signOp, expPostScale, mantShort, rndBit);
    res := F64(sign, exp, mant);
    if !(A.Finite() && B.Finite()) {
      SpecialFields(A, B, signOp, res);
    }
  }

  lemma SpecialFields(A: F64, B: F64, signOp: int, res: F64)
    requires A.Valid() && B.Valid() && (signOp == 0 || signOp == 1) && !(A.Finite() && B.Finite())
    requires res.Valid() && res.exp == 0x7FF && (res.mant == 0 <==> A.IsInf() && B.IsInf() && signOp == 0)
    requires A.IsInf() && B.IsInf() && signOp == 0 && A.sign == B.sign ==> res.sign == A.sign
    ensures SumSpecial(A, B, signOp, res) <==> SumHandled(A, B)
  {
  }

  /** The adder path: resAdd and the overflow flag. */
  method AddSub(A: F64, B: F64, signOp: int, o: Ordered) returns (resAdd: F64, overflow: int)
    requires A.Valid() && B.Valid() && (signOp == 0 || signOp == 1) && Splits(A, B, signOp, o)
    ensures A.Finite() && B.Finite() ==>
      && resAdd.Valid() && SumSign(A, B, signOp, resAdd.sign)
      && (IsRne(Abs(ExactResult(A, B, signOp)), 1, resAdd.Code()) <==> !LosesTie(A, B, signOp))
      && overflow == if Abs(ExactResult(A, B, signOp)) >= Mag(INF) then 1 else 0
    ensures overflow == 0 || overflow == 1
    ensures !(A.Finite() && B.Finite()) ==> resAdd.Valid() && (SumSpecial(A, B, signOp, resAdd) <==> SumHandled(A, B))
  {
    hide Pow2, Mag, IsRne, RoundUp, LostTie, Exact, Sum, LosesTie, SumSign, ExactResult, Normalises, Splits, SumSpecial,
      SumHandled, ResultExp, ResultMant;
    OperandFacts(A, B, signOp, o);
    var expPostScale, mantShort, mantOnes, rndBit, sumZero; ghost var n, lz, p;
    expPostScale, mantShort, mantOnes, rndBit, sumZero, n, lz, p := AdderWindow(o, Xor(A.sign, Xor(B.sign, signOp)));
    overflow := if expPostScale == 0x7FF then 1 else 0;
    resAdd := ResultMux(A, B, signOp, o.signOpMore, expPostScale, mantShort, mantOnes, rndBit, sumZero, p);
    if A.Finite() && B.Finite() {
      AdderCorrect(A, B, signOp, o, n, lz, expPostScale, p, resAdd);
    }
  }

  /** FADD.D, FSUB.D, FEQ.D, FLT.D, FLE.D, FMIN.D and FMAX.D, selected by the enable inputs. */
  method AddSubCompare(subEna: int, cmpEna: int, equalEna: int, moreEna: int, lessEna: int, A: F64, B: F64)
      returns (fres: F64, except: int)
    requires A.Valid() && B.Valid() && (subEna == 0 || subEna == 1) && (cmpEna == 0 || cmpEna == 1)
    ensures cmpEna == 0 && moreEna == 0 && lessEna == 0 && A.Finite() && B.Finite() ==>
      && fres.Valid() && SumSign(A, B, subEna, fres.sign)
      && (IsRne(Abs(ExactResult(A, B, subEna)), 1, fres.Code()) <==> !LosesTie(A, B, subEna))
    ensures cmpEna == 1 ==> fres == F64(0, 0,
      if (equalEna != 0 && Key(A) == Key(B)) || (moreEna != 0 && Key(A) > Key(B)) || (lessEna != 0 && Key(A) < Key(B))
      then 1 else 0)
    ensures cmpEna == 0 && moreEna != 0 ==>
      fres == if A.exp < 0x7FF && B.exp < 0x7FF && Key(A) > Key(B) then A else B
    ensures cmpEna == 0 && moreEna == 0 && lessEna != 0 ==>
      fres == if A.exp < 0x7FF && B.exp < 0x7FF && Key(A) < Key(B) then A else B
    ensures cmpEna == 0 && moreEna == 0 && lessEna == 0 && !(A.Finite() && B.Finite()) ==>
      fres.Valid() && (SumSpecial(A, B, subEna, fres) <==> SumHandled(A, B))
    ensures except ==
      if A.Finite() && B.Finite() && Abs(ExactResult(A, B, Or(subEna, cmpEna))) < Mag(INF) then 0 else 1
  {
    hide Mag, IsRne, LosesTie, SumSign, ExactResult, SumSpecial;
    var signOp := Or(subEna, cmpEna);
    var o := OrderOperands(A, B, signOp);
    var resAdd, overflow := AddSub(A, B, signOp, o);
    var nanA := if A.exp == 0x7FF then 1 else 0;
    var nanB := if B.exp == 0x7FF then 1 else 0;
    var resMore := if nanA != 0 || nanB != 0 then B else if o.flMore != 0 then A else B;
    var resLess := if nanA != 0 || nanB != 0 then B else if o.flLess != 0 then A else B;
    if cmpEna != 0 {
      fres := F64(0, 0, Or(Or(And(equalEna, o.flEqual), And(moreEna, o.flMore)), And(lessEna, o.flLess)));
    } else if moreEna != 0 {
      fres := resMore;
    } else if lessEna != 0 {
      fres := resLess;
    } else {
      fres := resAdd;
    }
    except := Or(Or(nanA, nanB), overflow);
  }

  /** The result multiplexers, for finite operands. */
  lemma AdderCorrect(A: F64, B: F64, signOp: int, o: Ordered, n: nat, lz: nat, e: int, p: nat, res: F64)
    requires A.Finite() && B.Finite() && (signOp == 0 || signOp == 1) && Splits(A, B, signOp, o)
    requires Normalises(o, A.sign != Xor(B.sign, signOp), n, lz, e, p) && p / 0x10_0000_0000_0000 < 0x20_0000_0000_0000
    requires res.exp == ResultExp(e, p) && res.mant == ResultMant(e, p)
    requires res.sign == if A.Code() == 0 && B.Code() == 0 then And(A.sign, Xor(B.sign, signOp))
                     else if p == 0 then 0 else o.signOpMore
    ensures res.Valid() && SumSign(A, B, signOp, res.sign)
    ensures IsRne(Abs(ExactResult(A, B, signOp)), 1, res.Code()) <==> !LosesTie(A, B, signOp)
    ensures e == 0x7FF <==> Abs(ExactResult(A, B, signOp)) >= Mag(INF)
  {
    hide Pow2, Mag, IsRne, RoundUp, LostTie, Exact, Sum, LosesTie, ResultExp, ResultMant, LeadingZeros, PostExponent,
      Splits, SumSign, ExactResult;
    var diff := A.sign != Xor(B.sign, signOp);
    OperandFacts(A, B, signOp, o);
    var x := Abs(ExactResult(A, B, signOp));
    ExactOrdered(A, B, signOp, o);
    assert Computed(o.expMore, o.mantMore, o.mantLess, o.preShift, diff, n, lz, e, p);
    RoundedCorrect(o.expMore, o.mantMore, o.mantLess, o.preShift, diff, n, lz, e, p, x);
    ZeroWindow(o.expMore, o.mantMore, o.mantLess, o.preShift, diff, n, lz, e, p, x);
    OverflowExact(o.expMore, o.mantMore, o.mantLess, o.preShift, diff, n, lz, e, p, x);
    FieldsFit(o.expMore, lz, diff, e, p);
    SignCorrect(A, B, signOp, o, p, res.sign);
  }

  lemma SignCorrect(A: F64, B: F64, signOp: int, o: Ordered, p: nat, sign: nat)
    requires A.Finite() && B.Finite() && (signOp == 0 || signOp == 1) && Splits(A, B, signOp, o)
    requires p == 0 <==> ExactResult(A, B, signOp) == 0
    requires sign == if A.Code() == 0 && B.Code() == 0 then And(A.sign, Xor(B.sign, signOp))
                     else if p == 0 then 0 else o.signOpMore
    ensures SumSign(A, B, signOp, sign) && sign < 2
  {
    hide Mag, Splits;
    ExactOrdered(A, B, signOp, o);
    ZeroValue(A);
    ZeroValue(B);
  }

  lemma FieldsFit(expMore: nat, lz: nat, diff: bool, e: int, p: nat)
    requires expMore < 0x7FF && e == PostExponent(expMore, lz, diff) && p / 0x10_0000_0000_0000 < 0x20_0000_0000_0000
    ensures 0 <= ResultExp(e, p) < 0x800 && ResultMant(e, p) < 0x10_0000_0000_0000
  {
    hide RoundUp;
  }

  // ------------------------------------------------------------------ what follows for callers

  /** No pair of operands at most 52 binades apart is rounded wrongly. */
  lemma NearOperandsCorrect(A: F64, B: F64, signOp: int)
    requires A.Valid() && B.Valid() && -52 <= A.Scale() - B.Scale() <= 52
    ensures !LosesTie(A, B, signOp)
  {
  }

  /** 2^53 + (1 + 2^-52) is rounded wrongly: the exact sum lies above the tie between 2^53 and 2^53 + 2,
      but the bit that says so has been shifted out. */
  lemma AdderCounterexample()
    ensures LosesTie(F64(0, 1076, 0), F64(0, 1023, 1), 0)
    ensures LosesTie(F64(0, 1077, 0), F64(1, 1023, 2), 0)
  {
  }

  /** The order of the comparison flags is the order of the denoted values, infinities included,
      refined only by -0 below +0; equal flags mean equal registers. */
  lemma KeyOrder(A: F64, B: F64)
    requires A.Valid() && B.Valid()
    ensures Key(A) == Key(B) <==> A == B
    ensures !A.IsNaN() && !B.IsNaN() ==> (Key(A) < Key(B) <==>
      A.Signed() < B.Signed() || (A.Signed() == 0 == B.Signed() && A.sign == 1 && B.sign == 0))
  {
    hide Mag, Pow2;
    MagOrder(A.Code(), B.Code());
    MagOrder(B.Code(), A.Code());
    CodeInjective(A, B);
  }

  lemma CodeInjective(A: F64, B: F64)
    requires A.Valid() && B.Valid()
    ensures A.Code() == B.Code() ==> A.exp == B.exp && A.mant == B.mant
  {
  }

  // ------------------------------------------------------------------ comparisons and extrema

  /** Comparison of values (IEEE 754-2008 section 5.11): a NaN is unordered, zeros are equal. */
  ghost predicate IeeeEqual(A: F64, B: F64) {
    !A.IsNaN() && !B.IsNaN() && A.Signed() == B.Signed()
  }

  ghost predicate IeeeLess(A: F64, B: F64) {
    !A.IsNaN() && !B.IsNaN() && A.Signed() < B.Signed()
  }

  predicate IsZero(A: F64, sign: nat) {
    A.Code() == 0 && A.sign == sign
  }

  /** The three comparisons by keys against those by values. */
  lemma KeysAndValues(A: F64, B: F64)
    requires A.Valid() && B.Valid() && !A.IsNaN() && !B.IsNaN()
    ensures (Key(A) == Key(B) <==> A.Signed() == B.Signed()) <==>
      !(IsZero(A, 0) && IsZero(B, 1)) && !(IsZero(A, 1) && IsZero(B, 0))
    ensures (Key(A) < Key(B) <==> A.Signed() < B.Signed()) <==> !(IsZero(A, 1) && IsZero(B, 0))
    ensures (Key(A) <= Key(B) <==> A.Signed() <= B.Signed()) <==> !(IsZero(A, 0) && IsZero(B, 1))
  {
    hide Key, Mag, Pow2;
    KeyOrder(A, B);
    KeyOrder(B, A);
    ZeroValue(A);
    ZeroValue(B);
    CodeInjective(A, B);
  }

  lemma ZeroValue(A: F64)
    ensures A.Signed() == 0 <==> A.Code() == 0
  {
    hide Pow2;
    if A.Code() > 0 {
      assert Mag(0) == 0;
      MagMono(0, A.Code());
    }
  }

  /** FEQ.D: right exactly when no NaN meets itself and no zero meets the other one. */
  method FeqD(A: F64, B: F64) returns (rd: nat)
    requires A.Valid() && B.Valid()
    ensures rd == if A == B then 1 else 0
    ensures (rd == 1 <==> IeeeEqual(A, B)) <==>
      !(A.IsNaN() && A == B) && !(IsZero(A, 0) && IsZero(B, 1)) && !(IsZero(A, 1) && IsZero(B, 0))
  {
    var dest, except := AddSubCompare(0, 1, 1, 0, 0, A, B);
    rd := dest.mant;
    KeyOrder(A, B);
    if !A.IsNaN() && !B.IsNaN() { KeysAndValues(A, B); }
  }

  /** FLT.D: right exactly when no NaN puts the keys in this order and the operands are not -0 and +0. */
  method FltD(A: F64, B: F64) returns (rd: nat)
    requires A.Valid() && B.Valid()
    ensures rd == if Key(A) < Key(B) then 1 else 0
    ensures (rd == 1 <==> IeeeLess(A, B)) <==>
      !((A.IsNaN() || B.IsNaN()) && Key(A) < Key(B)) && !(IsZero(A, 1) && IsZero(B, 0))
  {
    var dest, except := AddSubCompare(0, 1, 0, 0, 1, A, B);
    rd := dest.mant;
    if !A.IsNaN() && !B.IsNaN() { KeysAndValues(A, B); }
  }

  /** FLE.D: right exactly when no NaN puts the keys in this order and the operands are not +0 and -0. */
  method FleD(A: F64, B: F64) returns (rd: nat)
    requires A.Valid() && B.Valid()
    ensures rd == if Key(A) <= Key(B) then 1 else 0
    ensures (rd == 1 <==> IeeeLess(A, B) || IeeeEqual(A, B)) <==>
      !((A.IsNaN() || B.IsNaN()) && Key(A) <= Key(B)) && !(IsZero(A, 0) && IsZero(B, 1))
  {
    var dest, except := AddSubCompare(0, 1, 1, 0, 1, A, B);
    rd := dest.mant;
    if !A.IsNaN() && !B.IsNaN() { KeysAndValues(A, B); }
  }

  /** A NaN equals itself and lies above 1.0 in the order of the comparison flags, so FEQ.D, FLT.D and
      FLE.D answer 1 where the operands are unordered. */
  lemma UnorderedCounterexample()
    ensures var nan, one := F64(0, 0x7FF, 0x8_0000_0000_0000), F64(0, 1023, 0);
      && nan.Valid() && nan.IsNaN() && Key(one) < Key(nan)
      && !IeeeEqual(nan, nan) && !IeeeLess(one, nan)
  {
  }

  const CANONICAL_NAN: F64 := F64(0, 0x7FF, 0x8_0000_0000_0000)

  /** FMAX.D and FMIN.D as the RISC-V Unprivileged ISA 20191213 defines them (section 11.6): a single
      NaN is ignored, two give the canonical one, and -0 is below +0. */
  function Maximum(A: F64, B: F64): F64 {
    if A.IsNaN() && B.IsNaN() then CANONICAL_NAN
    else if A.IsNaN() then B
    else if B.IsNaN() then A
    else if Key(A) > Key(B) then A else B
  }

  function Minimum(A: F64, B: F64): F64 {
    if A.IsNaN() && B.IsNaN() then CANONICAL_NAN
    else if A.IsNaN() then B
    else if B.IsNaN() then A
    else if Key(A) < Key(B) then A else B
  }

  /** FMAX.D returns the second operand whenever one is infinite or NaN: right exactly when both are
      finite, or the second is the maximum anyway. */
  method FmaxD(A: F64, B: F64) returns (dest: F64)
    requires A.Valid() && B.Valid()
    ensures A.Finite() && B.Finite() ==> dest == Maximum(A, B)
    ensures !(A.Finite() && B.Finite()) ==> dest == B
    ensures dest == Maximum(A, B) <==>
      || (A.Finite() && B.Finite())
      || (if B.IsNaN() then A.IsNaN() && B == CANONICAL_NAN else A.IsNaN() || Key(B) >= Key(A))
  {
    var except;
    dest, except := AddSubCompare(0, 0, 0, 1, 0, A, B);
    KeyOrder(A, B);
  }

  method FminD(A: F64, B: F64) returns (dest: F64)
    requires A.Valid() && B.Valid()
    ensures A.Finite() && B.Finite() ==> dest == Minimum(A, B)
    ensures !(A.Finite() && B.Finite()) ==> dest == B
    ensures dest == Minimum(A, B) <==>
      || (A.Finite() && B.Finite())
      || (if B.IsNaN() then A.IsNaN() && B == CANONICAL_NAN else A.IsNaN() || Key(B) <= Key(A))
  {
    var except;
    dest, except := AddSubCompare(0, 0, 0, 0, 1, A, B);
    KeyOrder(A, B);
  }

  /** The maximum of +infinity and 1.0, and the minimum of -infinity and 1.0, are the infinities; with
      the infinity first, FMAX.D and FMIN.D return 1.0. */
  lemma ExtremaCounterexample()
    ensures var inf, minusInf, one := F64(0, 0x7FF, 0), F64(1, 0x7FF, 0), F64(0, 1023, 0);
      Maximum(inf, one) == inf != one && Minimum(minusInf, one) == minusInf != one
  {
  }

  /** FADD.D and FSUB.D. */
  method FaddD(A: F64, B: F64) returns (dest: F64)
    requires A.Valid() && B.Valid()
    ensures SumResult(A, B, 0, dest)
  {
    hide IsRne, LosesTie, SumSign, ExactResult, SumSpecial;
    var except;
    dest, except := AddSubCompare(0, 0, 0, 0, 0, A, B);
  }

  method FsubD(A: F64, B: F64) returns (dest: F64)
    requires A.Valid() && B.Valid()
    ensures SumResult(A, B, 1, dest)
  {
    hide IsRne, LosesTie, SumSign, ExactResult, SumSpecial;
    var except;
    dest, except := AddSubCompare(1, 0, 0, 0, 0, A, B);
  }

  /** What an addition or subtraction gives for every pair of registers. */
  ghost predicate SumResult(A: F64, B: F64, signOp: int, r: F64)
    requires A.Valid() && B.Valid()
  {
    && r.Valid()
    && (if A.Finite() && B.Finite() then
          && SumSign(A, B, signOp, r.sign)
          && (IsRne(Abs(ExactResult(A, B, signOp)), 1, r.Code()) <==> !LosesTie(A, B, signOp))
        else SumSpecial(A, B, signOp, r) <==> SumHandled(A, B))
  }

  /** Infinity plus one is a NaN here. */
  lemma InfinityCounterexample(r: F64)
    requires SumResult(F64(0, 0x7FF, 0), F64(0, 1023, 0), 0, r)
    ensures r != F64(0, 0x7FF, 0)
  {
  }
}
