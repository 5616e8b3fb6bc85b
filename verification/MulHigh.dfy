/** MULHU, MULH and MULHSU: the high word of a 128-bit product, by a six-level tree of two-word
    additions whose carry is recovered from three most significant bits. */
module MulHigh {
  import opened Bits

  /** Reduction to a 64-bit register. */
  function Word(x: int): nat {
    x % 0x1_0000_0000_0000_0000
  }

  /** A register read as a signed integer. */
  function Signed(a: nat): int
    requires a < 0x1_0000_0000_0000_0000
  {
    if a >= 0x8000_0000_0000_0000 then a - 0x1_0000_0000_0000_0000 else a
  }

  /** Two 64-bit words (LevelType). */
  datatype Level = Level(lo: nat, hi: nat) {
    ghost predicate Valid() {
      lo < 0x1_0000_0000_0000_0000 && hi < 0x1_0000_0000_0000_0000
    }

    ghost function Whole(): nat {
      lo + 0x1_0000_0000_0000_0000 * hi
    }
  }

  /** Bitwise or. */
  function BitOr(x: nat, y: nat): nat {
    if x == 0 then y else if y == 0 then x
    else (if x % 2 == 1 || y % 2 == 1 then 1 else 0) + 2 * BitOr(x / 2, y / 2)
  }

  lemma {:induction false} BitOrDisjoint(x: nat, y: nat, s: nat)
    requires y < Pow2(s)
    ensures BitOr(x * Pow2(s), y) == x * Pow2(s) + y
  {
    if s == 0 {
      assert y == 0;
    } else {
      var h := x * Pow2(s - 1);
      assert x * Pow2(s) == 2 * h by { Associate(2, x, Pow2(s - 1)); Associate(x, 2, Pow2(s - 1)); }
      BitOrDisjoint(x, y / 2, s - 1);
    }
  }

  /** Carry out of a 64-bit addition, from the top bits of the operands and of the sum. */
  function Carry(msb1: int, msb2: int, msbres: int): nat {
    if (msb1 == 1 && msb2 == 1) || ((msb1 == 1 || msb2 == 1) && msbres == 0) then 1 else 0
  }

  /** The three-bit formula is the true carry. */
  lemma CarryIsTrue(x: nat, y: nat)
    requires x < 0x1_0000_0000_0000_0000 && y < 0x1_0000_0000_0000_0000
    ensures x + y == Word(x + y) + 0x1_0000_0000_0000_0000 *
      Carry(x / 0x8000_0000_0000_0000, y / 0x8000_0000_0000_0000, Word(x + y) / 0x8000_0000_0000_0000)
  {
  }

  /** x << s and x >> s on a 64-bit register. */
  function Shl(x: nat, s: nat): (r: nat)
    ensures r < 0x1_0000_0000_0000_0000
  {
    Word(Shifted(x, s))
  }

  function Shr(x: nat, s: nat): nat {
    var p := Pow2(s);
    DivNat(x, p);
    x / p
  }

  function Shifted(x: nat, s: nat): nat {
    var p := Pow2(s);
    MulMono(x, 0, p);
    x * p
  }

  /** One node of the tree: odd * 2^s + even, on two words. */
  method MergePair(odd: Level, even: Level, s: nat) returns (r: Level)
    requires odd.Valid() && even.Valid() && 0 < s <= 32
    requires Shifted(odd.Whole(), s) + even.Whole() < 0x1_0000_0000_0000_0000_0000_0000_0000_0000
    ensures r.Valid() && r.Whole() == Shifted(odd.Whole(), s) + even.Whole()
  {
    hide Pow2, Bit, BitOr, Shl, Shr, Shifted;
    var val0 := Word(Shl(odd.lo, s) + even.lo);
    var msb1 := Bit(odd.lo, 63 - s);
    var msb2 := even.lo / 0x8000_0000_0000_0000;
    var msbres := val0 / 0x8000_0000_0000_0000;
    var carry := Carry(msb1, msb2, msbres);
    var val1 := BitOr(Shl(odd.hi, s), Shr(odd.lo, 64 - s));
    r := Level(val0, Word(val1 + even.hi + carry));
    MergeCorrect(odd, even, s, val0, val1, carry, r);
  }

  /** A shifted word: what stays in the low word, and what moves to the high one. */
  lemma ShiftedWord(x: nat, s: nat)
    requires x < 0x1_0000_0000_0000_0000 && 0 < s <= 32
    ensures Shifted(x, s) == Shl(x, s) + 0x1_0000_0000_0000_0000 * Shr(x, 64 - s)
    ensures Shr(x, 64 - s) < Pow2(s)
    ensures Shl(x, s) == Shifted(x % Pow2(64 - s), s)
  {
    hide Pow2, Word;
    Pow2Words();
    Pow2Add(s, 64 - s);
    var p, q := Pow2(s), Pow2(64 - s);
    ShiftTerms(p, q, x / q, x % q, x);
    WordSplit(x * p, x / q, p * (x % q));
    if x / q >= p { MulMono(q, p, x / q); }
  }

  lemma ShiftTerms(p: nat, q: nat, hi: nat, lo: nat, x: nat)
    requires p > 0 && p * q == 0x1_0000_0000_0000_0000 && x == q * hi + lo && lo < q
    ensures x * p == 0x1_0000_0000_0000_0000 * hi + p * lo && 0 <= p * lo < 0x1_0000_0000_0000_0000
  {
    assert (q * hi + lo) * p == (p * q) * hi + p * lo;
    MulStrict(p, lo, q);
    MulMono(p, 0, lo);
  }

  lemma WordSplit(n: nat, hi: nat, lo: nat)
    requires n == 0x1_0000_0000_0000_0000 * hi + lo && lo < 0x1_0000_0000_0000_0000
    ensures Word(n) == lo
  {
  }

  /** The top bit of the shifted word. */
  lemma ShiftedTop(x: nat, s: nat)
    requires x < 0x1_0000_0000_0000_0000 && 0 < s <= 32
    ensures Bit(x, 63 - s) == Shl(x, s) / 0x8000_0000_0000_0000
  {
    hide Pow2, Word, Bit;
    ShiftedWord(x, s);
    Pow2Words();
    Pow2Next(63);
    Pow2Add(s, 63 - s);
    BitStep(x, 63 - s);
    TopOfShift(x % Pow2(64 - s), x % Pow2(63 - s), Bit(x, 63 - s), Pow2(63 - s), Pow2(s));
  }

  lemma TopOfShift(lo: nat, l: nat, b: int, h: nat, p: nat)
    requires lo == l + b * h && l < h && (b == 0 || b == 1) && p > 0 && p * h == 0x8000_0000_0000_0000
    ensures lo * p / 0x8000_0000_0000_0000 == b
  {
    assert lo * p == l * p + b * (p * h);
    MulStrict(p, l, h);
    MulMono(p, 0, l);
    DivUnique(lo * p, 0x8000_0000_0000_0000, b, l * p);
  }

  lemma MergeCorrect(odd: Level, even: Level, s: nat, val0: nat, val1: nat, carry: nat, r: Level)
    requires odd.Valid() && even.Valid() && 0 < s <= 32
    requires Shifted(odd.Whole(), s) + even.Whole() < 0x1_0000_0000_0000_0000_0000_0000_0000_0000
    requires val0 == Word(Shl(odd.lo, s) + even.lo)
    requires carry == Carry(Bit(odd.lo, 63 - s), even.lo / 0x8000_0000_0000_0000, val0 / 0x8000_0000_0000_0000)
    requires val1 == BitOr(Shl(odd.hi, s), Shr(odd.lo, 64 - s))
    requires r == Level(val0, Word(val1 + even.hi + carry))
    ensures r.Valid() && r.Whole() == Shifted(odd.Whole(), s) + even.Whole()
  {
    hide Pow2, Bit, BitOr, Carry, Word, Shl, Shr, Shifted;
    ShiftedWord(odd.lo, s);
    ShiftedTop(odd.lo, s);
    CarryIsTrue(Shl(odd.lo, s), even.lo);
    ShiftedLevel(odd, s);
    HighWord(odd.hi, s, Shr(odd.lo, 64 - s));
    ShiftedWord(odd.hi, s);
    SumsUp(Shifted(odd.hi, s), Shl(odd.hi, s), Shr(odd.hi, 64 - s), Shr(odd.lo, 64 - s), even.hi, carry, val0,
           Shifted(odd.Whole(), s) + even.Whole(), val1);
    WordFits(Shl(odd.lo, s) + even.lo);
  }

  lemma WordFits(x: nat)
    ensures Word(x) < 0x1_0000_0000_0000_0000
  {
  }

  lemma ShiftedLevel(odd: Level, s: nat)
    ensures Shifted(odd.Whole(), s) == Shifted(odd.lo, s) + 0x1_0000_0000_0000_0000 * Shifted(odd.hi, s)
  {
    hide Pow2;
    var p := Pow2(s);
    assert (odd.lo + 0x1_0000_0000_0000_0000 * odd.hi) * p == odd.lo * p + 0x1_0000_0000_0000_0000 * (odd.hi * p);
  }

  /** The two shifted halves of the high word do not overlap. */
  lemma HighWord(hi: nat, s: nat, up: nat)
    requires hi < 0x1_0000_0000_0000_0000 && 0 < s <= 32 && up < Pow2(s)
    ensures BitOr(Shl(hi, s), up) == Shl(hi, s) + up
  {
    hide Pow2, BitOr, Word;
    ShiftedWord(hi, s);
    BitOrDisjoint(hi % Pow2(64 - s), up, s);
  }

  lemma SumsUp(x: nat, low: nat, over: nat, up: nat, evenHi: nat, carry: nat, val0: nat, total: nat, val1: nat)
    requires x == low + 0x1_0000_0000_0000_0000 * over && val1 == low + up
    requires total == val0 + 0x1_0000_0000_0000_0000 * (x + up + evenHi + carry)
    requires total < 0x1_0000_0000_0000_0000_0000_0000_0000_0000
    ensures Word(val1 + evenHi + carry) == x + up + evenHi + carry
    ensures Word(val1 + evenHi + carry) < 0x1_0000_0000_0000_0000
  {
  }

  // ------------------------------------------------------------------ the tree

  /** Digit i of a2 in base 2^w. */
  function Chunk(a2: nat, w: nat, i: nat): nat {
    a2 / Pow2(w * i) % Pow2(w)
  }

  /** Two neighbouring digits make one of twice the width. */
  lemma ChunkPair(a2: nat, w: nat, i: nat)
    ensures Chunk(a2, 2 * w, i) == Chunk(a2, w, 2 * i + 1) * Pow2(w) + Chunk(a2, w, 2 * i)
    ensures Chunk(a2, 2 * w, i) < Pow2(2 * w)
  {
    hide Pow2;
    assert w * (2 * i) == 2 * w * i && w * (2 * i + 1) == 2 * w * i + w;
    Pow2Add(2 * w * i, w);
    Pow2Add(w, w);
    var p, x := Pow2(w), a2 / Pow2(2 * w * i);
    DivDiv(a2, Pow2(2 * w * i), p);
    ModPair(x, p);
  }

  lemma ModPair(x: nat, p: nat)
    requires p > 0
    ensures p * p > 0 && x % (p * p) == x / p % p * p + x % p
  {
    var q, r := x / p, x % p;
    var t, u := q / p, q % p;
    assert x == p * q + r && q == p * t + u;
    PairTerms(x, p, q, r, t, u);
    DivUnique(x, p * p, t, u * p + r);
  }

  lemma PairTerms(x: int, p: int, q: int, r: int, t: int, u: int)
    requires x == p * q + r && q == p * t + u && 0 <= r < p && 0 <= u < p
    ensures x == (p * p) * t + (u * p + r) && 0 <= u * p + r < p * p
  {
    assert p * (p * t + u) == (p * p) * t + u * p;
    MulMono(p, u, p - 1);
    MulMono(p, 0, u);
    assert p * p == p * (p - 1) + p;
  }

  /** Every entry of a level of width w is a1 times a digit of a2. */
  ghost predicate LevelOk(lvl: seq<Level>, a1: nat, a2: nat, w: nat) {
    forall i | 0 <= i < |lvl| :: lvl[i].Valid() && lvl[i].Whole() == a1 * Chunk(a2, w, i)
  }

  /** a1 times a two-bit digit. */
  method Multiple(a1: nat, d: nat) returns (r: Level)
    requires a1 < 0x1_0000_0000_0000_0000 && d < 4
    ensures r.Valid() && r.Whole() == a1 * d
  {
    hide Word, Carry;
    if d == 0 {
      r := Level(0, 0);
    } else if d == 1 {
      r := Level(a1, 0);
    } else if d == 2 {
      TimesTwo(a1);
      r := Level(Word(a1 * 2), a1 / 0x8000_0000_0000_0000);
    } else {
      var val0 := Word(Word(a1 * 2) + a1);
      var carry := Carry(a1 / 0x4000_0000_0000_0000 % 2, a1 / 0x8000_0000_0000_0000, val0 / 0x8000_0000_0000_0000);
      r := Level(val0, a1 / 0x8000_0000_0000_0000 + carry);
      TimesThree(a1);
      WordFits(Word(a1 * 2) + a1);
    }
    SmallMultiple(a1, d);
  }

  lemma SmallMultiple(a: nat, d: nat)
    requires d < 4
    ensures a * d == if d == 0 then 0 else if d == 1 then a else if d == 2 then 2 * a else 3 * a
  {
  }

  lemma TimesTwo(a: nat)
    requires a < 0x1_0000_0000_0000_0000
    ensures 2 * a == Word(a * 2) + 0x1_0000_0000_0000_0000 * (a / 0x8000_0000_0000_0000)
    ensures Word(a * 2) < 0x1_0000_0000_0000_0000
  {
  }

  /** The two-bit digits of a2, times a1. */
  method Level0(a1: nat, a2: nat) returns (lvl0: array<Level>)
    requires a1 < 0x1_0000_0000_0000_0000 && a2 < 0x1_0000_0000_0000_0000
    ensures fresh(lvl0) && lvl0.Length == 32 && LevelOk(lvl0[..], a1, a2, 2)
  {
    hide Pow2;
    lvl0 := new Level[32];
    assert Pow2(2) == 4 by { Pow2Two(); }
    for i := 0 to 32
      invariant LevelOk(lvl0[..i], a1, a2, 2)
    {
      lvl0[i] := Multiple(a1, a2 / Pow2(2 * i) % 4);
      assert lvl0[..i + 1] == lvl0[..i] + [lvl0[i]];
    }
    assert lvl0[..32] == lvl0[..];
  }

  lemma Pow2Two()
    ensures Pow2(2) == 4
  {
  }

  lemma TimesThree(a: nat)
    requires a < 0x1_0000_0000_0000_0000
    ensures var v := Word(Word(a * 2) + a);
      var c := Carry(a / 0x4000_0000_0000_0000 % 2, a / 0x8000_0000_0000_0000, v / 0x8000_0000_0000_0000);
      c <= 1 && 3 * a == v + 0x1_0000_0000_0000_0000 * (a / 0x8000_0000_0000_0000 + c)
  {
    CarryIsTrue(Word(a * 2), a);
    assert Word(a * 2) / 0x8000_0000_0000_0000 == a / 0x4000_0000_0000_0000 % 2;
  }

  /** One level of the tree: neighbouring entries are merged. */
  method MergeLevel(lvl: array<Level>, w: nat, ghost a1: nat, ghost a2: nat) returns (up: array<Level>)
    requires a1 < 0x1_0000_0000_0000_0000 && 0 < w <= 32
    requires lvl.Length % 2 == 0 && LevelOk(lvl[..], a1, a2, w)
    ensures fresh(up) && up.Length == lvl.Length / 2 && LevelOk(up[..], a1, a2, 2 * w)
  {
    hide Pow2, Chunk, Shifted;
    up := new Level[lvl.Length / 2];
    for i := 0 to lvl.Length / 2
      invariant lvl[..] == old(lvl[..])
      invariant LevelOk(up[..i], a1, a2, 2 * w)
    {
      assert lvl[2 * i + 1] == lvl[..][2 * i + 1] && lvl[2 * i] == lvl[..][2 * i];
      PairFits(a1, a2, w, i);
      up[i] := MergePair(lvl[2 * i + 1], lvl[2 * i], w);
      assert up[..i + 1] == up[..i] + [up[i]];
    }
    assert up[..lvl.Length / 2] == up[..];
  }

  /** No node of the tree exceeds 128 bits. */
  lemma PairFits(a1: nat, a2: nat, w: nat, i: nat)
    requires a1 < 0x1_0000_0000_0000_0000 && 0 < w <= 32
    ensures Shifted(a1 * Chunk(a2, w, 2 * i + 1), w) + a1 * Chunk(a2, w, 2 * i) == a1 * Chunk(a2, 2 * w, i)
    ensures a1 * Chunk(a2, 2 * w, i) < 0x1_0000_0000_0000_0000_0000_0000_0000_0000
  {
    hide Pow2, Chunk;
    ChunkPair(a2, w, i);
    var odd, even, c := Chunk(a2, w, 2 * i + 1), Chunk(a2, w, 2 * i), Chunk(a2, 2 * w, i);
    Associate(a1, odd, Pow2(w));
    assert a1 * (odd * Pow2(w) + even) == a1 * (odd * Pow2(w)) + a1 * even;
    Pow2Words();
    Pow2Mono(2 * w, 64);
    MulMono(a1, c, 0xFFFF_FFFF_FFFF_FFFF);
  }

  /** The whole tree. */
  method Multiply(a1: nat, a2: nat) returns (lvl5: Level)
    requires a1 < 0x1_0000_0000_0000_0000 && a2 < 0x1_0000_0000_0000_0000
    ensures lvl5.Valid() && lvl5.Whole() == a1 * a2
  {
    hide Pow2, Chunk, Shifted;
    var lvl0 := Level0(a1, a2);
    var lvl1 := MergeLevel(lvl0, 2, a1, a2);
    var lvl2 := MergeLevel(lvl1, 4, a1, a2);
    var lvl3 := MergeLevel(lvl2, 8, a1, a2);
    var lvl4 := MergeLevel(lvl3, 16, a1, a2);
    assert lvl4[1] == lvl4[..][1] && lvl4[0] == lvl4[..][0];
    PairFits(a1, a2, 32, 0);
    lvl5 := MergePair(lvl4[1], lvl4[0], 32);
    WholeChunk(a2);
  }

  lemma WholeChunk(a2: nat)
    requires a2 < 0x1_0000_0000_0000_0000
    ensures Chunk(a2, 64, 0) == a2
  {
    hide Pow2;
    Pow2Words();
    Pow2Values();
  }

  // ------------------------------------------------------------------ the instructions

  /** MULHU. */
  method Mulhu(a1: nat, a2: nat) returns (res: nat)
    requires a1 < 0x1_0000_0000_0000_0000 && a2 < 0x1_0000_0000_0000_0000
    ensures res == a1 * a2 / 0x1_0000_0000_0000_0000
  {
    var lvl5 := Multiply(a1, a2);
    res := lvl5.hi;
  }

  /** Magnitude of a signed register; the most negative number is left as it is. */
  method Magnitude(a: nat) returns (as_: nat, inv: bool)
    requires a < 0x1_0000_0000_0000_0000
    ensures as_ < 0x1_0000_0000_0000_0000
    ensures a != 0x8000_0000_0000_0000 ==> inv == (Signed(a) < 0) && as_ == if inv then -Signed(a) else Signed(a)
    ensures a == 0x8000_0000_0000_0000 ==> !inv && as_ == a
  {
    as_, inv := a, false;
    if a / 0x8000_0000_0000_0000 != 0 && Word(a * 2) != 0 {
      as_ := Word(0xFFFF_FFFF_FFFF_FFFF - a + 1);
      inv := true;
    }
  }

  /** High word of the product of two integers, rounded toward minus infinity as two's complement does. */
  function HighOf(product: int): nat {
    Word(product / 0x1_0000_0000_0000_0000)
  }

  /** Operands MULH and MULHSU get wrong: a negative product whose low word is zero (complementing the
      high word of the magnitude is one too little), and the most negative signed operand, which is
      taken as positive. b is the other operand, signed or not. */
  predicate WrongHigh(s1: int, b: int) {
    || (s1 == -0x8000_0000_0000_0000 && b != 0 && b != -0x8000_0000_0000_0000)
    || (b == -0x8000_0000_0000_0000 && s1 != 0 && s1 != -0x8000_0000_0000_0000)
    || (s1 != -0x8000_0000_0000_0000 && b != -0x8000_0000_0000_0000
        && s1 * b < 0 && s1 * b % 0x1_0000_0000_0000_0000 == 0)
  }

  /** The final multiplexer. */
  function Select(zero: bool, inv: bool, hi: nat): int {
    if zero then 0 else if inv then 0xFFFF_FFFF_FFFF_FFFF - hi else hi
  }

  /** MULH. */
  method Mulh(a1: nat, a2: nat) returns (res: nat)
    requires a1 < 0x1_0000_0000_0000_0000 && a2 < 0x1_0000_0000_0000_0000
    ensures res == HighOf(Signed(a1) * Signed(a2)) <==> !WrongHigh(Signed(a1), Signed(a2))
    ensures a1 != 0x8000_0000_0000_0000 && a2 != 0x8000_0000_0000_0000 && WrongHigh(Signed(a1), Signed(a2)) ==>
      res == Word(Signed(a1) * Signed(a2) / 0x1_0000_0000_0000_0000 - 1)
  {
    var a1s, inva1 := Magnitude(a1);
    var a2s, inva2 := Magnitude(a2);
    var zero := a1s == 0 || a2s == 0;
    var lvl5 := Multiply(a1s, a2s);
    res := Select(zero, inva1 != inva2, lvl5.hi);
    HighSelect(Signed(a1), Signed(a2), a1s, a2s, inva1, inva2, lvl5.hi);
  }

  /** MULHSU. */
  method Mulhsu(a1: nat, a2: nat) returns (res: nat)
    requires a1 < 0x1_0000_0000_0000_0000 && a2 < 0x1_0000_0000_0000_0000
    ensures res == HighOf(Signed(a1) * a2) <==> !WrongHigh(Signed(a1), a2)
    ensures a1 != 0x8000_0000_0000_0000 && WrongHigh(Signed(a1), a2) ==>
      res == Word(Signed(a1) * a2 / 0x1_0000_0000_0000_0000 - 1)
  {
    var a1s, inv := Magnitude(a1);
    var zero := a1s == 0 || a2 == 0;
    var lvl5 := Multiply(a1s, a2);
    res := Select(zero, inv, lvl5.hi);
    HighSelect(Signed(a1), a2, a1s, a2, inv, false, lvl5.hi);
  }

  /** A magnitude and a sign flag as the instructions form them. */
  ghost predicate IsMagnitude(s: int, m: nat, inv: bool) {
    if s == -0x8000_0000_0000_0000 then m == 0x8000_0000_0000_0000 && !inv
    else m == (if inv then -s else s) && (inv ==> s < 0)
  }

  lemma HighSelect(s1: int, s2: int, m1: nat, m2: nat, inv1: bool, inv2: bool, hi: nat)
    requires -0x8000_0000_0000_0000 <= s1 < 0x8000_0000_0000_0000
    requires -0x8000_0000_0000_0000 <= s2 < 0x1_0000_0000_0000_0000
    requires IsMagnitude(s1, m1, inv1) && IsMagnitude(s2, m2, inv2) && m2 < 0x1_0000_0000_0000_0000
    requires hi == m1 * m2 / 0x1_0000_0000_0000_0000
    ensures var res := Select(m1 == 0 || m2 == 0, inv1 != inv2, hi);
      && res >= 0
      && (res == HighOf(s1 * s2) <==> !WrongHigh(s1, s2))
      && (s1 != -0x8000_0000_0000_0000 && s2 != -0x8000_0000_0000_0000 && WrongHigh(s1, s2) ==>
          res == Word(s1 * s2 / 0x1_0000_0000_0000_0000 - 1))
  {
    ProductBound(m1, m2);
    if s1 == -0x8000_0000_0000_0000 {
      MostNegative(s2, m2, inv2, hi);
    } else if s2 == -0x8000_0000_0000_0000 {
      MostNegative(s1, m1, inv1, hi);
    } else {
      SignedProduct(s1, s2, m1, m2, inv1, inv2);
      SelectHigh(m1 * m2, inv1 != inv2);
    }
  }

  lemma ProductBound(m1: nat, m2: nat)
    requires m1 <= 0x8000_0000_0000_0000 && m2 < 0x1_0000_0000_0000_0000
    ensures 0 <= m1 * m2 < 0x8000_0000_0000_0000_0000_0000_0000_0000
  {
    MulMono(m1, m2, 0xFFFF_FFFF_FFFF_FFFF);
    MulMono(m1, 0, m2);
  }

  /** -2^63, multiplied as if it were 2^63. */
  lemma MostNegative(b: int, m: nat, inv: bool, hi: nat)
    requires -0x8000_0000_0000_0000 <= b < 0x1_0000_0000_0000_0000 && IsMagnitude(b, m, inv)
    requires hi == 0x8000_0000_0000_0000 * m / 0x1_0000_0000_0000_0000
    ensures Select(m == 0, inv, hi) >= 0
    ensures Select(m == 0, inv, hi) == HighOf(-0x8000_0000_0000_0000 * b) <==> b == 0 || b == -0x8000_0000_0000_0000
  {
    assert hi == m / 2;
    HalfNegated(b);
  }

  lemma HalfNegated(b: int)
    ensures -0x8000_0000_0000_0000 * b / 0x1_0000_0000_0000_0000 == -b / 2
  {
  }

  lemma SignedProduct(s1: int, s2: int, m1: nat, m2: nat, inv1: bool, inv2: bool)
    requires m1 == (if inv1 then -s1 else s1) && m2 == (if inv2 then -s2 else s2)
    requires m1 * m2 >= 0
    ensures s1 * s2 == if inv1 != inv2 then -(m1 * m2) else m1 * m2
    ensures m1 == 0 || m2 == 0 <==> m1 * m2 == 0
  {
    if m1 != 0 && m2 != 0 { MulStrict(m1, 0, m2); }
  }

  /** Complementing the high word of a magnitude gives the high word of the negated number, less one
      when the low word is zero. */
  lemma SelectHigh(n: nat, neg: bool)
    requires n < 0x8000_0000_0000_0000_0000_0000_0000_0000
    ensures var res, v := Select(n == 0, neg, n / 0x1_0000_0000_0000_0000), if neg then -(n as int) else n;
      && res >= 0
      && (res == HighOf(v) <==> !(v < 0 && v % 0x1_0000_0000_0000_0000 == 0))
      && (v < 0 && v % 0x1_0000_0000_0000_0000 == 0 ==> res == Word(v / 0x1_0000_0000_0000_0000 - 1))
  {
    var hi, lo := n / 0x1_0000_0000_0000_0000, n % 0x1_0000_0000_0000_0000;
    if neg {
      if lo == 0 {
        DivUnique(-(n as int), 0x1_0000_0000_0000_0000, -(hi as int), 0);
      } else {
        DivUnique(-(n as int), 0x1_0000_0000_0000_0000, -(hi as int) - 1, 0x1_0000_0000_0000_0000 - lo);
      }
    }
  }

  /** -2^32 * 2^32: the high word of -2^64 is -1, MULH returns -2. */
  lemma MulhCounterexample()
    ensures WrongHigh(-0x1_0000_0000, 0x1_0000_0000) && WrongHigh(-0x8000_0000_0000_0000, 1)
  {
  }
}
