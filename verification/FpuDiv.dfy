/** The divider of the floating-point unit: fourteen radix-256 stages of trial subtraction. */
module FpuDiv {
  import opened Bits
  import opened Ieee
  import opened FpuBus

  /** Bit 61 of the two's-complement word holding t: the sign of a trial difference. */
  function SignBit(t: int): int {
    t / 0x2000_0000_0000_0000 % 2
  }

  /** The low 61 bits of the word holding t. */
  function Low61(t: int): int {
    t % 0x2000_0000_0000_0000
  }

  /** Index of the highest set bit of a quotient byte. */
  function TopBitIndex(b: nat): nat {
    if b >= 128 then 7 else if b >= 64 then 6 else if b >= 32 then 5 else if b >= 16 then 4
    else if b >= 8 then 3 else if b >= 4 then 2 else if b >= 2 then 1 else 0
  }

  lemma SignBitIs(t: int)
    requires -0x2000_0000_0000_0000 <= t < 0x2000_0000_0000_0000
    ensures SignBit(t) == if t < 0 then 1 else 0
    ensures t >= 0 ==> Low61(t) == t
  {
  }

  /** One quarter of a stage: two quotient bits by trial subtraction of 3, 2 and 1 times step. */
  method QuarterStage(dividend: int, step: int) returns (bits: nat, dif: int, t3: int, t2: int, t1: int)
    requires 0 <= dividend < 0x2000_0000_0000_0000 && 0 <= step <= 0x800_0000_0000_0000
    requires step != 0 ==> dividend < 4 * step
    ensures dividend == bits * step + dif && 0 <= dif && bits < 4
    ensures if step != 0 then dif < step else bits == 3 && dif == dividend
    ensures t3 == (if bits == 3 then 0 else 1) && t2 == (if bits >= 2 then 0 else 1)
    ensures t1 == (if bits >= 1 then 0 else 1)
  {
    var thresh3 := dividend - (2 * step + step);
    var thresh2 := dividend - 2 * step;
    var thresh1 := dividend - step;
    var thresh0 := dividend;
    SignBitIs(thresh3);
    SignBitIs(thresh2);
    SignBitIs(thresh1);
    SignBitIs(thresh0);
    t3, t2, t1 := SignBit(thresh3), SignBit(thresh2), SignBit(thresh1);
    bits := if t3 == 0 then 3 else if t2 == 0 then 2 else if t1 == 0 then 1 else 0;
    dif := if t3 == 0 then Low61(thresh3) else if t2 == 0 then Low61(thresh2)
           else if t1 == 0 then Low61(thresh1) else Low61(thresh0);
  }

  /** A normalised divisor, or zero. */
  predicate IsDivisor(d: int) {
    d == 0 || 0x10_0000_0000_0000 <= d < 0x20_0000_0000_0000
  }

  /** div_stage: one quotient byte, and the shift index of its highest bit. */
  method DivStage(inMuxEna: int, inMuxInd: seq<nat>, inDivident: int, inDivisor: int)
      returns (outDif: int, outBits: nat, outMuxInd: nat, outMuxIndRdy: int)
    requires |inMuxInd| == 8 && IsDivisor(inDivisor)
    requires 0 <= inDivident && (inDivisor != 0 ==> inDivident < 256 * inDivisor)
    ensures inDivisor != 0 ==> inDivident == outBits * inDivisor + outDif && outDif < inDivisor
    ensures inDivisor == 0 ==> outBits == 255
    ensures 0 <= outDif < 0x2000_0000_0000_0000 && outBits < 256
    ensures outMuxIndRdy == if inMuxEna != 0 && outBits != 0 then 1 else 0
    ensures inMuxEna != 0 && outBits != 0 ==> outMuxInd == inMuxInd[TopBitIndex(outBits)]
  {
    if inDivisor != 0 { SignBitIs(inDivident); }
    var dividend := Low61(inDivident);
    var b3, d0, t15, t14, t13 := QuarterStage(dividend, inDivisor * 64);
    var b2, d1, t11, t10, t9 := QuarterStage(d0, inDivisor * 16);
    var b1, d2, t7, t6, t5 := QuarterStage(d1, inDivisor * 4);
    var b0, d3, t3, t2, t1 := QuarterStage(d2, inDivisor);
    outBits := b3 * 64 + b2 * 16 + b1 * 4 + b0;
    DigitSum(dividend, d0, d1, d2, d3, b3, b2, b1, b0, inDivisor);
    outMuxInd := StageIndex(inMuxEna, inMuxInd, t15, t14, t13, t11, t10, t9, t7, t6, t5, t3, t2, t1);
    TopOfDigits(b3, b2, b1, b0);
    outDif := d3;
    outMuxIndRdy := if inMuxEna != 0 && outBits != 0 then 1 else 0;
  }

  /** The multiplexer over the twelve signs of the trial differences. */
  function StageIndex(ena: int, ind: seq<nat>, t15: int, t14: int, t13: int, t11: int, t10: int, t9: int,
                      t7: int, t6: int, t5: int, t3: int, t2: int, t1: int): nat
    requires |ind| == 8
  {
    if ena != 0 && t15 == 0 then ind[7] else if ena != 0 && t14 == 0 then ind[7]
    else if ena != 0 && t13 == 0 then ind[6]
    else if ena != 0 && t11 == 0 then ind[5] else if ena != 0 && t10 == 0 then ind[5]
    else if ena != 0 && t9 == 0 then ind[4]
    else if ena != 0 && t7 == 0 then ind[3] else if ena != 0 && t6 == 0 then ind[3]
    else if ena != 0 && t5 == 0 then ind[2]
    else if ena != 0 && t3 == 0 then ind[1] else if ena != 0 && t2 == 0 then ind[1]
    else if ena != 0 && t1 == 0 then ind[0] else ind[0]
  }

  lemma TopOfDigits(b3: nat, b2: nat, b1: nat, b0: nat)
    requires b3 < 4 && b2 < 4 && b1 < 4 && b0 < 4
    ensures var b := b3 * 64 + b2 * 16 + b1 * 4 + b0;
      b != 0 ==> (TopBitIndex(b) ==
        if b3 >= 2 then 7 else if b3 == 1 then 6 else if b2 >= 2 then 5 else if b2 == 1 then 4
        else if b1 >= 2 then 3 else if b1 == 1 then 2 else if b0 >= 2 then 1 else 0)
  {
  }

  lemma DigitSum(n: int, d0: int, d1: int, d2: int, d3: int, b3: nat, b2: nat, b1: nat, b0: nat, d: int)
    requires n == b3 * (d * 64) + d0 && d0 == b2 * (d * 16) + d1 && d1 == b1 * (d * 4) + d2 && d2 == b0 * d + d3
    ensures n == (b3 * 64 + b2 * 16 + b1 * 4 + b0) * d + d3
  {
  }

  // ------------------------------------------------------------------ fourteen stages

  /** What a stage hands on: its remainder, its quotient byte, the shift found so far. */
  datatype Stage = Stage(dif: int, bits: nat, shift: nat, rdy: int)

  /** After stage i: q is the quotient so far, the remainder is below the divisor, and the shift is the
      number of leading zeros of q counted from bit 8*i. A zero divisor gives ones throughout. */
  ghost predicate StageOk(A: nat, D: nat, i: nat, q: nat, st: Stage) {
    && st.bits < 256 && 0 <= st.dif < 0x2000_0000_0000_0000
    && if D == 0 then st.bits == 255 && st.shift == 0 && st.rdy == 1
       else
         && A * Pow2(8 * i) == q * D + st.dif && st.dif < D
         && (st.rdy == 0 ==> q == 0 && st.shift == 0)
         && (st.rdy != 0 ==> st.shift <= 8 * i && Pow2(8 * i - st.shift) <= q < Pow2(8 * i - st.shift + 1))
  }

  /** A quotient byte; all ones for a zero divisor. */
  ghost predicate Byte(D: nat, b: nat) {
    b < 256 && (D == 0 ==> b == 255)
  }

  lemma QuotientAppend(bytes: seq<nat>, b: nat)
    ensures Quotient(bytes + [b]) == Quotient(bytes) * 256 + b
  {
    assert (bytes + [b])[..|bytes|] == bytes;
  }

  lemma TopBitBounds(b: nat)
    requires 0 < b < 256
    ensures TopBitIndex(b) <= 7 && Pow2(TopBitIndex(b)) <= b < Pow2(TopBitIndex(b) + 1)
  {
    assert Pow2(1) == 2 && Pow2(2) == 4 && Pow2(3) == 8 && Pow2(4) == 16;
    assert Pow2(5) == 32 && Pow2(6) == 64 && Pow2(7) == 128 && Pow2(8) == 256;
  }

  /** Stage 0 takes the dividend itself; all its shift indices are zero. */
  method FirstStage(A: nat, D: nat) returns (st: Stage)
    requires A < 0x20_0000_0000_0000 && IsDivisor(D)
    ensures StageOk(A, D, 0, Quotient([st.bits]), st) && Byte(D, st.bits) && (D != 0 ==> st.bits < 2)
  {
    hide Pow2;
    Pow2Values();
    assert forall b: nat :: [b][..0] == [];
    var dif, bits, ind, rdy := DivStage(1, [0, 0, 0, 0, 0, 0, 0, 0], A, D);
    st := Stage(dif, bits, if rdy != 0 then ind else 0, rdy);
    if D != 0 { OneBit(bits, D); }
  }

  lemma OneBit(bits: nat, D: nat)
    requires bits * D < 0x20_0000_0000_0000 <= 2 * D
    ensures bits < 2
  {
    if bits >= 2 { MulMono(D, 2, bits); }
  }

  /** Stage i > 0 takes the previous remainder, shifted left by a byte. */
  method NextStage(prev: Stage, A: nat, D: nat, wbBits: seq<nat>) returns (st: Stage)
    requires wbBits != [] && IsDivisor(D) && StageOk(A, D, |wbBits| - 1, Quotient(wbBits), prev)
    ensures StageOk(A, D, |wbBits|, Quotient(wbBits + [st.bits]), st) && Byte(D, st.bits)
  {
    hide Pow2, Quotient;
    var i := |wbBits|;
    var dif, bits, ind, rdy := DivStage(if prev.rdy == 0 then 1 else 0,
      [8 * i, 8 * i - 1, 8 * i - 2, 8 * i - 3, 8 * i - 4, 8 * i - 5, 8 * i - 6, 8 * i - 7], prev.dif * 256, D);
    st := Stage(dif, bits, if rdy != 0 then ind else prev.shift, if rdy != 0 || prev.rdy != 0 then 1 else 0);
    QuotientAppend(wbBits, bits);
    if D != 0 { StageAdvances(A, D, i, Quotient(wbBits), prev, st); }
  }

  lemma StageAdvances(A: nat, D: nat, i: nat, q: nat, prev: Stage, st: Stage)
    requires i > 0 && D < 0x20_0000_0000_0000 && D != 0 && StageOk(A, D, i - 1, q, prev)
    requires prev.dif * 256 == st.bits * D + st.dif && 0 <= st.dif < D && st.bits < 256
    requires st.rdy == if st.bits != 0 || prev.rdy != 0 then 1 else 0
    requires st.shift == if prev.rdy == 0 && st.bits != 0 then 8 * i - TopBitIndex(st.bits) else prev.shift
    ensures StageOk(A, D, i, q * 256 + st.bits, st)
  {
    hide Pow2, TopBitIndex;
    Pow2Words();
    Pow2Add(8 * (i - 1), 8);
    StageEquation(A, Pow2(8 * (i - 1)), q, D, prev.dif, st.bits, st.dif);
    if prev.rdy != 0 {
      var k := 8 * (i - 1) - prev.shift;
      Pow2Add(k, 8);
      Pow2Add(k + 1, 8);
    } else if st.bits != 0 {
      TopBitBounds(st.bits);
    }
  }

  lemma StageEquation(A: nat, w: nat, q: nat, D: nat, dif: int, bits: nat, dif': int)
    requires A * w == q * D + dif && dif * 256 == bits * D + dif'
    ensures A * (w * 256) == (q * 256 + bits) * D + dif'
  {
  }

  /** The quotient assembled from its bytes, most significant first. */
  ghost function Quotient(bytes: seq<nat>): nat {
    if bytes == [] then 0 else Quotient(bytes[..|bytes| - 1]) * 256 + bytes[|bytes| - 1]
  }

  /** Bit b of byte j sits at bit 8 * (|bytes| - 1 - j) + b of the quotient. */
  lemma {:induction false} QuotientBit(bytes: seq<nat>, j: nat, b: nat)
    requires j < |bytes| && b < 8 && (forall k | 0 <= k < |bytes| :: bytes[k] < 256)
    ensures Bit(Quotient(bytes), 8 * (|bytes| - 1 - j) + b) == Bit(bytes[j], b)
  {
    var n := |bytes| - 1;
    var rest := bytes[..n];
    if j == n {
      LowByteBit(Quotient(rest), bytes[n], b);
    } else {
      QuotientBit(rest, j, b);
      HighByteBit(Quotient(rest), bytes[n], 8 * (n - 1 - j) + b);
    }
  }

  lemma LowByteBit(q: nat, c: nat, b: nat)
    requires c < 256 && b < 8
    ensures Bit(q * 256 + c, b) == Bit(c, b)
  {
    hide Pow2, Bit;
    Pow2Words();
    BitLow(q * 256 + c, q, c, 8, b);
  }

  lemma HighByteBit(q: nat, c: nat, i: nat)
    requires c < 256
    ensures Bit(q * 256 + c, 8 + i) == Bit(q, i)
  {
    hide Pow2, Bit;
    Pow2Words();
    BitHigh(q * 256 + c, q, c, 8, i);
  }

  /** The quotient bytes spread over the result bus. */
  method SpreadBits(wbBits: seq<nat>) returns (outResult: array<int>)
    requires |wbBits| == 14 && (forall k | 0 <= k < 14 :: wbBits[k] < 256)
    ensures fresh(outResult) && outResult.Length == 106 && IsBits(outResult[..105])
    ensures Value(outResult[..105]) == Quotient(wbBits) % Pow2(105)
  {
    hide Pow2, Bit, Value, Quotient;
    outResult := new int[106];
    for i := 0 to 8
      invariant forall k | 0 <= k < 104 && k % 8 < i :: outResult[k] == Bit(wbBits[13 - k / 8], k % 8)
    {
      for j := 1 to 14
        invariant forall k | 0 <= k < 104 && k % 8 < i :: outResult[k] == Bit(wbBits[13 - k / 8], k % 8)
        invariant forall k | 0 <= k < 104 && k % 8 == i && 13 - k / 8 < j ::
          outResult[k] == Bit(wbBits[13 - k / 8], k % 8)
      {
        outResult[8 * (13 - j) + i] := Bit(wbBits[j], i);
      }
    }
    outResult[104] := Bit(wbBits[0], 0);
    forall k | 0 <= k < 105
      ensures outResult[k] == Bit(Quotient(wbBits), k)
    {
      var j, b := 13 - k / 8, k % 8;
      assert k == 8 * (13 - j) + b;
      QuotientBit(wbBits, j, b);
    }
    BitsOf(outResult[..105], Quotient(wbBits));
  }

  /** Bytes of ones make a number of ones. */
  lemma {:induction false} QuotientOnes(bytes: seq<nat>)
    requires forall k | 0 <= k < |bytes| :: bytes[k] == 255
    ensures Quotient(bytes) + 1 == Pow2(8 * |bytes|)
  {
    if bytes == [] {
      assert Pow2(0) == 1;
    } else {
      QuotientOnes(bytes[..|bytes| - 1]);
      Pow2Words();
      Pow2Add(8 * (|bytes| - 1), 8);
    }
  }

  /** The divider: floor(A * 2^104 / D), its leading zeros, and whether anything remains. */
  method Idiv53(A: nat, D: nat) returns (outResult: array<int>, outShift: nat, outOverBit: int, outZeroResid: int)
    requires A < 0x20_0000_0000_0000 && IsDivisor(D)
    ensures fresh(outResult) && outResult.Length == 106 && IsBits(outResult[..105])
    ensures D != 0 ==> Value(outResult[..105]) == A * Pow2(104) / D
    ensures D != 0 ==> outZeroResid == if A * Pow2(104) % D == 0 then 1 else 0
    ensures D != 0 && A != 0 ==> outShift <= 104 && LeadingZeros(A * Pow2(104) / D, outShift)
    ensures D == 0 ==> Value(outResult[..105]) == 0x1FF_FFFF_FFFF_FFFF_FFFF_FFFF_FFFF && outShift == 0
    ensures outShift <= 104 && outOverBit == 0
  {
    hide Pow2, Value, LeadingZeros, StageOk, Quotient, IsDivisor;
    var st := FirstStage(A, D);
    var wbBits := [st.bits];
    st := NextStage(st, A, D, wbBits); wbBits := wbBits + [st.bits];
    st := NextStage(st, A, D, wbBits); wbBits := wbBits + [st.bits];
    st := NextStage(st, A, D, wbBits); wbBits := wbBits + [st.bits];
    st := NextStage(st, A, D, wbBits); wbBits := wbBits + [st.bits];
    st := NextStage(st, A, D, wbBits); wbBits := wbBits + [st.bits];
    st := NextStage(st, A, D, wbBits); wbBits := wbBits + [st.bits];
    st := NextStage(st, A, D, wbBits); wbBits := wbBits + [st.bits];
    st := NextStage(st, A, D, wbBits); wbBits := wbBits + [st.bits];
    st := NextStage(st, A, D, wbBits); wbBits := wbBits + [st.bits];
    st := NextStage(st, A, D, wbBits); wbBits := wbBits + [st.bits];
    st := NextStage(st, A, D, wbBits); wbBits := wbBits + [st.bits];
    st := NextStage(st, A, D, wbBits); wbBits := wbBits + [st.bits];
    st := NextStage(st, A, D, wbBits); wbBits := wbBits + [st.bits];
    outResult := SpreadBits(wbBits);
    outShift := st.shift;
    outOverBit := if st.shift == 0x7F then 1 else 0;
    outZeroResid := if st.dif != 0 then 0 else 1;
    DividerResult(A, D, wbBits, st);
  }

  lemma DividerResult(A: nat, D: nat, wbBits: seq<nat>, st: Stage)
    requires A < 0x20_0000_0000_0000 && IsDivisor(D) && |wbBits| == 14
    requires StageOk(A, D, 13, Quotient(wbBits), st) && forall k | 0 <= k < 14 :: Byte(D, wbBits[k])
    ensures st.shift <= 104
    ensures D != 0 ==>
      && Quotient(wbBits) % Pow2(105) == A * Pow2(104) / D
      && (st.dif == 0 <==> A * Pow2(104) % D == 0)
      && (A != 0 ==> LeadingZeros(A * Pow2(104) / D, st.shift))
    ensures D == 0 ==> st.shift == 0 && Quotient(wbBits) % Pow2(105) == 0x1FF_FFFF_FFFF_FFFF_FFFF_FFFF_FFFF
  {
    hide Pow2, Quotient;
    Pow2Values();
    if D == 0 {
      QuotientOnes(wbBits);
      OnesLow(Quotient(wbBits));
    } else {
      DivUnique(A * Pow2(104), D, Quotient(wbBits), st.dif);
      QuotientSmall(A, D, Quotient(wbBits), st.dif);
      ModSmall(Quotient(wbBits), Pow2(105));
    }
  }

  lemma OnesLow(q: nat)
    requires q + 1 == Pow2(112)
    ensures q % Pow2(105) == 0x1FF_FFFF_FFFF_FFFF_FFFF_FFFF_FFFF
  {
    hide Pow2;
    Pow2Values();
    assert Pow2(112) == 0x1_0000_0000_0000_0000_0000_0000_0000 by {
      Pow2Next(106); Pow2Next(107); Pow2Next(108); Pow2Next(109); Pow2Next(110); Pow2Next(111);
    }
  }

  lemma QuotientSmall(A: nat, D: nat, q: nat, dif: nat)
    requires A < 0x20_0000_0000_0000 && 0x10_0000_0000_0000 <= D < 0x20_0000_0000_0000
    requires A * Pow2(104) == q * D + dif && dif < D
    ensures q < Pow2(105) && (A != 0 ==> q != 0)
  {
    hide Pow2;
    Pow2Values();
    if q >= Pow2(105) { MulMono(D, Pow2(105), q); }
  }
}
