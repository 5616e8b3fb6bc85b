/** Powers of two and bit vectors held as sequences of 0/1, least significant bit first:
    the `int bits[106]` buses of the simulator's floating-point unit. */
module Bits {

  function Pow2(n: nat): (p: nat)
    ensures p > 0
  {
    if n == 0 then 1 else 2 * Pow2(n - 1)
  }

  /** The powers at which the floating-point unit cuts its buses. */
  lemma Pow2Values()
    ensures Pow2(0) == 1 && Pow2(1) == 2 && Pow2(51) == 0x8_0000_0000_0000
    ensures Pow2(52) == 0x10_0000_0000_0000 && Pow2(53) == 0x20_0000_0000_0000
    ensures Pow2(104) == 0x100_0000_0000_0000_0000_0000_0000
    ensures Pow2(105) == 0x200_0000_0000_0000_0000_0000_0000
    ensures Pow2(106) == 0x400_0000_0000_0000_0000_0000_0000
  {
    assert Pow2(13) == 0x2000;
    hide Pow2;
    Pow2Square(13, 0x2000);
    Pow2Square(26, 0x400_0000);
    Pow2Square(52, 0x10_0000_0000_0000);
    Pow2Next(51);
    Pow2Next(52);
    Pow2Next(104);
    Pow2Next(105);
  }

  /** Byte and word sizes. */
  lemma Pow2Words()
    ensures Pow2(8) == 0x100 && Pow2(16) == 0x1_0000 && Pow2(32) == 0x1_0000_0000
    ensures Pow2(64) == 0x1_0000_0000_0000_0000
  {
    assert Pow2(8) == 0x100;
    hide Pow2;
    Pow2Square(8, 0x100);
    Pow2Square(16, 0x1_0000);
    Pow2Square(32, 0x1_0000_0000);
  }

  lemma Pow2Square(n: nat, v: nat)
    requires Pow2(n) == v
    ensures Pow2(2 * n) == v * v
  {
    hide Pow2;
    Pow2Add(n, n);
  }

  lemma Pow2Next(n: nat)
    ensures Pow2(n + 1) == 2 * Pow2(n)
  {
  }

  lemma {:induction false} Pow2Add(a: nat, b: nat)
    ensures Pow2(a + b) == Pow2(a) * Pow2(b)
  {
    if b != 0 {
      Pow2Add(a, b - 1);
      assert Pow2(a + b) == 2 * Pow2(a + (b - 1));
    }
  }

  lemma {:induction false} Pow2Mono(a: nat, b: nat)
    requires a <= b
    ensures Pow2(a) <= Pow2(b)
    ensures a < b ==> 2 * Pow2(a) <= Pow2(b)
  {
    if a < b { Pow2Mono(a, b - 1); }
  }

  /** The quotient is the one integer q with d*q <= x < d*(q+1). */
  lemma DivUnique(x: int, d: int, q: int, r: int)
    requires d > 0 && x == d * q + r && 0 <= r < d
    ensures x / d == q && x % d == r
  {
    var q', r' := x / d, x % d;
    assert d * (q' - q) == r - r';
    if q' > q { MulMono(d, 1, q' - q); }
    if q' < q { MulMono(d, q' - q, -1); }
  }

  lemma MulMono(d: int, x: int, y: int)
    requires d >= 0 && x <= y
    ensures d * x <= d * y
  {
  }

  lemma MulStrict(d: int, x: int, y: int)
    requires d > 0
    ensures d * x < d * y <==> x < y
    ensures d * x == d * y <==> x == y
  {
  }

  /** Shifting twice. */
  lemma ShiftShift(n: int, a: nat, b: nat)
    ensures n * Pow2(a) * Pow2(b) == n * Pow2(a + b)
  {
    hide Pow2;
    Pow2Add(a, b);
    Associate(n, Pow2(a), Pow2(b));
  }

  lemma Associate(a: int, b: int, c: int)
    ensures a * b * c == a * (b * c)
  {
  }

  lemma Distribute(a: int, b: int, c: int, d: int)
    ensures a * b + c * (a * d) == a * (b + c * d)
  {
  }

  lemma DivNat(x: nat, d: nat)
    requires d > 0
    ensures x / d >= 0
  {
  }

  lemma DivDiv(x: nat, a: nat, b: nat)
    requires a > 0 && b > 0
    ensures a * b > 0 && x / a / b == x / (a * b)
  {
    var q := x / a; var r := x % a;
    var q2 := q / b; var r2 := q % b;
    assert x == a * q + r && q == b * q2 + r2;
    assert x == (a * b) * q2 + (a * r2 + r) by {
      assert a * (b * q2 + r2) == a * b * q2 + a * r2;
    }
    MulMono(a, r2, b - 1);
    assert 0 <= a * r2;
    assert a * r2 + r < a * b;
    assert a * b > 0;
    DivUnique(x, a * b, q2, a * r2 + r);
  }

  // ------------------------------------------------------------------ bit vectors

  ghost predicate IsBits(s: seq<int>) {
    forall i | 0 <= i < |s| :: s[i] == 0 || s[i] == 1
  }

  /** The number a bit vector denotes. */
  ghost function Value(s: seq<int>): (v: nat)
    requires IsBits(s)
    ensures v < Pow2(|s|)
  {
    if s == [] then 0 else Value(s[..|s| - 1]) + s[|s| - 1] * Pow2(|s| - 1)
  }

  /** Bit i of a number. */
  function Bit(n: nat, i: nat): (b: int)
    ensures b == 0 || b == 1
  {
    n / Pow2(i) % 2
  }

  lemma ValueAppend(s: seq<int>, b: int)
    requires IsBits(s) && (b == 0 || b == 1)
    ensures IsBits(s + [b]) && Value(s + [b]) == Value(s) + b * Pow2(|s|)
  {
    assert (s + [b])[..|s|] == s;
  }

  lemma {:induction false} ValueConcat(s: seq<int>, t: seq<int>)
    requires IsBits(s) && IsBits(t)
    ensures IsBits(s + t) && Value(s + t) == Value(s) + Pow2(|s|) * Value(t)
  {
    if t == [] {
      assert s + t == s;
    } else {
      var n := |t| - 1;
      ValueConcat(s, t[..n]);
      assert s + t == (s + t[..n]) + [t[n]];
      ValueAppend(s + t[..n], t[n]);
      Pow2Add(|s|, n);
      Distribute(Pow2(|s|), Value(t[..n]), t[n], Pow2(n));
    }
  }

  /** Cutting a bit vector at k is division by Pow2(k): remainder below, quotient above. */
  lemma ValueSplit(s: seq<int>, k: nat)
    requires IsBits(s) && k <= |s|
    ensures Value(s[..k]) == Value(s) % Pow2(k)
    ensures Value(s[k..]) == Value(s) / Pow2(k)
  {
    assert s == s[..k] + s[k..];
    ValueConcat(s[..k], s[k..]);
    DivUnique(Value(s), Pow2(k), Value(s[k..]), Value(s[..k]));
  }

  lemma {:induction false} ValueZeros(s: seq<int>)
    requires forall i | 0 <= i < |s| :: s[i] == 0
    ensures IsBits(s) && Value(s) == 0
  {
    if s != [] { ValueZeros(s[..|s| - 1]); }
  }

  lemma ValueOne(b: int)
    requires b == 0 || b == 1
    ensures Value([b]) == b
  {
    assert [b][..0] == [];
  }

  /** Element i of the vector is bit i of the number. */
  lemma ValueBit(s: seq<int>, i: nat)
    requires IsBits(s) && i < |s|
    ensures Bit(Value(s), i) == s[i]
  {
    ValueSplit(s, i);
    var t := s[i..];
    ValueSplit(t, 1);
    ValueOne(t[0]);
    assert t[..1] == [t[0]];
    var v := Value(t);
    assert v % Pow2(1) == t[0];
    assert Pow2(1) == 2;
  }

  /** Equal lengths and equal bits: a vector is determined by the number it denotes. */
  lemma ValueZeroIff(s: seq<int>)
    requires IsBits(s)
    ensures Value(s) == 0 <==> forall i | 0 <= i < |s| :: s[i] == 0
  {
    if Value(s) == 0 {
      forall i | 0 <= i < |s| ensures s[i] == 0 { ValueBit(s, i); }
    } else if forall i | 0 <= i < |s| :: s[i] == 0 {
      ValueZeros(s);
    }
  }

  /** Splitting off one more bit of a number. */
  lemma BitStep(n: nat, i: nat)
    ensures n % Pow2(i + 1) == n % Pow2(i) + Bit(n, i) * Pow2(i)
  {
    var p := Pow2(i);
    var q := n / p;
    assert n == p * q + n % p && q == 2 * (q / 2) + q % 2;
    assert p * (2 * (q / 2) + q % 2) == (2 * p) * (q / 2) + p * (q % 2);
    assert 0 <= p * (q % 2) <= p by { if q % 2 == 0 {} else {} }
    DivUnique(n, 2 * p, q / 2, p * (q % 2) + n % p);
  }

  lemma ModSmall(x: nat, d: nat)
    requires x < d
    ensures x % d == x && x / d == 0
  {
  }

  // ------------------------------------------------------------------ bits of a two-part number

  /** Below the cut w the bits are those of the low part ... */
  lemma BitLow(n: nat, hi: nat, lo: nat, w: nat, i: nat)
    requires i < w && n == lo + Pow2(w) * hi
    ensures Bit(n, i) == Bit(lo, i)
  {
    hide Pow2;
    Pow2Add(i, w - i);
    Pow2Next(w - 1 - i);
    BitLowDiv(n, Pow2(i), Pow2(w - 1 - i), hi, lo);
  }

  lemma BitLowDiv(n: nat, p: nat, h: nat, hi: nat, lo: nat)
    requires p > 0 && n == lo + p * (2 * h) * hi
    ensures n / p % 2 == lo / p % 2
  {
    var t, r := lo / p, lo % p;
    BitLowTerm(p, h, hi, t);
    DivUnique(n, p, t + 2 * (h * hi), r);
    EvenShift(t, h * hi);
  }

  lemma BitLowTerm(p: int, h: int, hi: int, t: int)
    ensures p * (t + 2 * (h * hi)) == p * t + p * (2 * h) * hi
  {
  }

  lemma EvenShift(q: nat, k: nat)
    ensures (q + 2 * k) % 2 == q % 2
  {
  }

  /** ... and above it those of the high part. */
  lemma BitHigh(n: nat, hi: nat, lo: nat, w: nat, i: nat)
    requires lo < Pow2(w) && n == lo + Pow2(w) * hi
    ensures Bit(n, w + i) == Bit(hi, i)
  {
    hide Pow2;
    Pow2Add(w, i);
    DivUnique(n, Pow2(w), hi, lo);
    DivDiv(n, Pow2(w), Pow2(i));
  }

  lemma TopBit(n: nat, i: nat)
    requires n < Pow2(i + 1)
    ensures Bit(n, i) == if n < Pow2(i) then 0 else 1
  {
    if n < Pow2(i) {
      ModSmall(n, Pow2(i));
    } else {
      DivUnique(n, Pow2(i), 1, n - Pow2(i));
    }
  }

  lemma ShiftBounds(n: nat, a: nat, b: nat, k: nat)
    requires Pow2(a) <= n < Pow2(b)
    ensures Pow2(a + k) <= n * Pow2(k) < Pow2(b + k)
  {
    hide Pow2;
    Pow2Add(a, k);
    Pow2Add(b, k);
    MulMono(Pow2(k), Pow2(a), n);
    MulStrict(Pow2(k), n, Pow2(b));
  }

  /** Two quotients of proportional numbers agree. */
  lemma CrossDiv(w: nat, a: nat, y: nat, b: nat)
    requires a > 0 && b > 0 && y * a == w * b
    ensures w / a == y / b && (w % a == 0 <==> y % b == 0)
  {
    var q, r := w / a, w % a;
    var t := y - b * q;
    CrossTerm(w, a, y, b, q, r, t);
    MulStrict(a, t, b);
    MulStrict(a, -1, t);
    MulStrict(b, r, a);
    MulStrict(b, 0, r);
    MulStrict(a, 0, t);
    DivUnique(y, b, q, t);
  }

  lemma CrossTerm(w: int, a: int, y: int, b: int, q: int, r: int, t: int)
    requires y * a == w * b && w == a * q + r && t == y - b * q
    ensures a * t == b * r && b * a == a * b
  {
    assert (a * q + r) * b == a * (b * q) + b * r;
    assert a * (y - b * q) == a * y - a * (b * q);
  }
}
