/** The bus operations shared by the adder, the multiplier and the divider of the
    floating-point unit: each loop over an `int x[105]` array, and the number it computes. */
module FpuBus {
  import opened Bits
  import opened Ieee

  function Xor(a: int, b: int): nat { if a == b then 0 else 1 }
  function And(a: int, b: int): nat { if a != 0 && b != 0 then 1 else 0 }
  function Or(a: int, b: int): nat { if a != 0 || b != 0 then 1 else 0 }
  function Not(a: int): nat { if a == 0 then 1 else 0 }

  /** A NaN payload with its quiet bit set. */
  function SetQuiet(mant: nat): nat {
    if mant % 0x10_0000_0000_0000 >= 0x8_0000_0000_0000 then mant else mant + 0x8_0000_0000_0000
  }

  /** The number on a bus. */
  ghost function On(w: array<int>): (v: nat)
    requires IsBits(w[..])
    reads w
    ensures v < Pow2(w.Length)
  {
    Value(w[..])
  }

  /** A bus loaded with a 53-bit mantissa at bit 52. */
  method LoadMantissa(m: nat) returns (w: array<int>)
    requires m < 0x20_0000_0000_0000
    ensures fresh(w) && w.Length == 106 && IsBits(w[..])
    ensures On(w) == m * 0x10_0000_0000_0000
  {
    w := new int[106];
    for i := 0 to 52
      invariant forall k | 0 <= k < i :: w[k] == 0
    {
      w[i] := 0;
    }
    for i := 52 to 105
      invariant forall k | 0 <= k < 52 :: w[k] == 0
      invariant forall k | 52 <= k < i :: w[k] == Bit(m, k - 52)
    {
      w[i] := Bit(m, i - 52);
    }
    w[105] := 0;
    LoadedValue(w[..], m);
  }

  lemma LoadedValue(s: seq<int>, m: nat)
    requires |s| == 106 && m < 0x20_0000_0000_0000
    requires forall k | 0 <= k < 52 :: s[k] == 0
    requires forall k | 52 <= k < 105 :: s[k] == Bit(m, k - 52)
    requires s[105] == 0
    ensures IsBits(s) && Value(s) == m * 0x10_0000_0000_0000
  {
    hide Value, Pow2, Bit;
    Pow2Values();
    ValueZeros(s[..52]);
    BitsOf(s[52..105], m);
    ValueZeros(s[105..]);
    assert s == s[..52] + s[52..105] + s[105..];
    ValueConcat(s[..52], s[52..105]);
    ValueConcat(s[..52] + s[52..105], s[105..]);
  }

  /** The low bits of m, as a vector. */
  lemma {:induction false} BitsOf(s: seq<int>, m: nat)
    requires forall k | 0 <= k < |s| :: s[k] == Bit(m, k)
    ensures IsBits(s) && Value(s) == m % Pow2(|s|)
  {
    if s != [] {
      var n := |s| - 1;
      BitsOf(s[..n], m);
      BitStep(m, n);
    }
  }

  /** Right shift of a bus, zeros entering at the top. */
  method ShiftRight(w: array<int>, n: nat) returns (r: array<int>)
    requires IsBits(w[..])
    ensures fresh(r) && r.Length == w.Length && IsBits(r[..])
    ensures On(r) == On(w) / Pow2(n)
  {
    r := new int[w.Length];
    for i := 0 to w.Length
      invariant forall k | 0 <= k < i :: r[k] == if k + n < w.Length then w[k + n] else 0
    {
      if i + n < w.Length {
        r[i] := w[i + n];
      } else {
        r[i] := 0;
      }
    }
    ShiftedValue(w[..], r[..], n);
  }

  lemma ShiftedValue(s: seq<int>, r: seq<int>, n: nat)
    requires IsBits(s) && |r| == |s|
    requires forall k | 0 <= k < |r| :: r[k] == if k + n < |s| then s[k + n] else 0
    ensures IsBits(r) && Value(r) == Value(s) / Pow2(n)
  {
    if n <= |s| {
      var c := |s| - n;
      assert r == s[n..] + r[c..];
      ValueZeros(r[c..]);
      ValueConcat(s[n..], r[c..]);
      ValueSplit(s, n);
    } else {
      ValueZeros(r);
      Pow2Mono(|s|, n);
      ModSmall(Value(s), Pow2(n));
    }
  }

  /** Normalisation of a 106-bit bus into the 105-bit window: one step right for the code 0x7F,
      otherwise left by the leading-zero count. */
  method Align(w: array<int>, lshift: nat) returns (a: array<int>)
    requires w.Length == 106 && IsBits(w[..]) && (lshift == 0x7F || lshift <= 104)
    requires lshift != 0x7F ==> On(w) < Pow2(105 - lshift)
    ensures fresh(a) && a.Length == 105 && IsBits(a[..])
    ensures On(a) == if lshift == 0x7F then On(w) / 2 else On(w) * Pow2(lshift)
  {
    a := new int[105];
    for i := 0 to 105
      invariant forall k | 0 <= k < i ::
        a[k] == if lshift == 0x7F then w[k + 1] else if k - lshift >= 0 then w[k - lshift] else 0
    {
      if lshift == 0x7F {
        a[i] := w[i + 1];
      } else if i - lshift >= 0 {
        a[i] := w[i - lshift];
      } else {
        a[i] := 0;
      }
    }
    if lshift == 0x7F {
      assert a[..] == w[..][1..];
      ValueSplit(w[..], 1);
      assert Pow2(1) == 2;
    } else {
      AlignedValue(w[..], a[..], lshift);
    }
  }

  lemma AlignedValue(s: seq<int>, a: seq<int>, l: nat)
    requires IsBits(s) && |s| == 106 && |a| == 105 && l <= 104 && Value(s) < Pow2(105 - l)
    requires forall k | 0 <= k < 105 :: a[k] == if k - l >= 0 then s[k - l] else 0
    ensures IsBits(a) && Value(a) == Value(s) * Pow2(l)
  {
    hide Value, Pow2;
    assert a == a[..l] + s[..105 - l];
    ValueZeros(a[..l]);
    ValueConcat(a[..l], s[..105 - l]);
    ValueSplit(s, 105 - l);
    ModSmall(Value(s), Pow2(105 - l));
  }

  /** Bits lo .. lo+n-1 of a bus gathered into a word. */
  method Gather(w: array<int>, lo: nat, n: nat) returns (v: nat)
    requires lo + n <= w.Length && IsBits(w[..])
    ensures v == On(w) / Pow2(lo) % Pow2(n)
  {
    v := 0;
    for i := 0 to n
      invariant v == Value(w[lo..lo + i])
    {
      ValueAppend(w[lo..lo + i], w[lo + i]);
      assert w[lo..lo + i + 1] == w[lo..lo + i] + [w[lo + i]];
      v := v + w[lo + i] * Pow2(i);
    }
    ValueSplit(w[..], lo);
    ValueSplit(w[lo..], n);
    assert w[..][lo..] == w[lo..] && w[lo..][..n] == w[lo..lo + n];
  }

  /** Mantissa and rounding bit of a 105-bit window. */
  method RoundWindow(w: array<int>) returns (mantShort: nat, mantOnes: int, rndBit: nat)
    requires w.Length == 105 && IsBits(w[..])
    ensures mantShort == On(w) / 0x10_0000_0000_0000 && mantShort < 0x20_0000_0000_0000
    ensures mantOnes == if mantShort == 0x1F_FFFF_FFFF_FFFF then 1 else 0
    ensures rndBit == RoundUp(On(w))
  {
    mantShort := Gather(w, 52, 53);
    var tmpMant05 := Gather(w, 0, 52);
    mantOnes := if mantShort == 0x1F_FFFF_FFFF_FFFF then 1 else 0;
    var mantEven := w[52];
    var mant05 := if tmpMant05 == 0x8_0000_0000_0000 then 1 else 0;
    rndBit := And(w[51], Not(And(mant05, Not(mantEven))));
    WindowFields(w[..], mantShort, tmpMant05);
  }

  lemma WindowFields(s: seq<int>, hi: nat, lo: nat)
    requires |s| == 105 && IsBits(s)
    requires hi == Value(s) / Pow2(52) % Pow2(53) && lo == Value(s) / Pow2(0) % Pow2(52)
    ensures hi == Value(s) / 0x10_0000_0000_0000 && hi < 0x20_0000_0000_0000
    ensures lo == Value(s) % 0x10_0000_0000_0000
    ensures s[52] == hi % 2
    ensures s[51] == 1 <==> lo >= 0x8_0000_0000_0000
  {
    hide Value, Pow2;
    Pow2Values();
    ValueSplit(s, 52);
    assert |s[52..]| == 53;
    ModSmall(Value(s[52..]), Pow2(53));
    ValueBit(s, 52);
    ValueBit(s, 51);
  }

  method AllZero(w: array<int>) returns (zero: int)
    requires IsBits(w[..])
    ensures zero == if On(w) == 0 then 1 else 0
  {
    zero := 1;
    for i := 0 to w.Length
      invariant zero == if forall k | 0 <= k < i :: w[k] == 0 then 1 else 0
    {
      if w[i] != 0 {
        zero := 0;
      }
    }
    ValueZeroIff(w[..]);
  }

  /** l is the number of leading zeros of a 106-bit number counted from bit 104; 0x7F when bit 105
      is set, and 104 for zero as well as for one. */
  ghost predicate LeadingZeros(n: nat, l: nat) {
    if l == 0x7F then 0x200_0000_0000_0000_0000_0000_0000 <= n < 0x400_0000_0000_0000_0000_0000_0000
    else l <= 104 && n < Pow2(105 - l) && (l < 104 ==> Pow2(104 - l) <= n)
  }

  /** With nothing above bit i, bit i decides whether the number reaches Pow2(i). */
  lemma LeadingBit(s: seq<int>, i: nat)
    requires IsBits(s) && i < |s| && Value(s) < Pow2(i + 1)
    ensures s[i] == if Value(s) < Pow2(i) then 0 else 1
  {
    ValueBit(s, i);
    if Value(s) < Pow2(i) {
      ModSmall(Value(s), Pow2(i));
    } else {
      DivUnique(Value(s), Pow2(i), 1, Value(s) - Pow2(i));
    }
  }

  lemma Normalised(n: nat, lz: nat)
    requires n != 0 && lz <= 104 && LeadingZeros(n, lz)
    ensures 0x100_0000_0000_0000_0000_0000_0000 <= n * Pow2(lz) < 0x200_0000_0000_0000_0000_0000_0000
  {
    hide Pow2;
    Pow2Values();
    ShiftBounds(n, 104 - lz, 105 - lz, lz);
  }

  lemma ShiftBack(n: nat, k: nat)
    ensures n * Pow2(k) / Pow2(k) == n
  {
    hide Pow2;
    DivUnique(n * Pow2(k), Pow2(k), n, 0);
  }

  lemma NoShift(x: nat)
    ensures x / Pow2(0) == x
  {
  }
}
