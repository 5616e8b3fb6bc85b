/** The beats of a burst as the RTL wrapper addresses them, against the AXI4 definition. */
module AxiBeats {
  import opened Bits
  import opened AxiBurst

  // ------------------------------------------------------------------ the addresses AXI defines

  /** Bytes of a beat. */
  function Bytes(q: Request): nat {
    if q.size == 0 then 1 else if q.size == 1 then 2 else if q.size == 2 then 4 else 8
  }

  /** The address of beat k (ARM IHI 0022 section A3.4.1): a fixed burst (0) stays where it is; an
      incrementing one (1) goes on from its start aligned to the beat size; a wrapping one (2) stays inside
      the aligned block its beats fill. */
  function AxiAddr(q: Request, k: nat): int {
    if q.burst == 0 || k == 0 then q.addr
    else if q.burst == 1 then (q.addr - q.addr % Bytes(q) + Bytes(q) * k) % ADDR_MOD
    else Bytes(q) * WrapSlot(q.addr / Bytes(q), q.len + 1, k)
  }

  /** Beat k of a wrapping burst of n beats from w, in units of a beat. */
  function WrapSlot(w: nat, n: nat, k: nat): int
    requires n > 0
  {
    w - w % n + (w % n + k) % n
  }

  /** The requests AXI allows on an 8-byte bus, and single beats: a wrapping burst is aligned to its beats
      and has 2, 4, 8 or 16 of them. */
  predicate Legal(q: Request) {
    && q.addr < ADDR_MOD && q.burst <= 2 && q.size <= 3
    && (q.burst == 2 ==>
          && q.addr % Bytes(q) == 0
          && (q.len == 0 || q.len == 1 || q.len == 3 || q.len == 7 || q.len == 15))
  }

  // ------------------------------------------------------------------ three ways to be right

  /** Every beat is at its AXI address. */
  ghost predicate AddressesMatch(q: Request) {
    forall k: nat | k <= q.len :: BeatAddr(q, k) == AxiAddr(q, k)
  }

  /** A write goes to the 8-byte word of its address, in the lanes of its strobes. */
  ghost predicate WritesReach(q: Request) {
    forall k: nat | k <= q.len :: SameWord(BeatAddr(q, k), AxiAddr(q, k))
  }

  predicate SameWord(b: int, x: int) { b / 8 == x / 8 }

  /** A read delivers its word from the lane of its address on, and zeros below. */
  ghost predicate ReadsDeliver(q: Request) {
    forall k: nat | k <= q.len :: Serves(BeatAddr(q, k), AxiAddr(q, k))
  }

  predicate Serves(b: int, x: int) { SameWord(b, x) && b % 8 <= x % 8 }

  /** Lane j of a read beat at b: eight bytes from b, shifted up by the offset of b in its word. */
  function ReadLane(mem: int -> nat, b: int, j: int): nat {
    if j < b % 8 then 0 else mem(b + (j - b % 8))
  }

  /** Serves is what it takes: the lanes of a beat of n bytes at x hold the bytes of x, for every memory. */
  lemma LanesDelivered(b: int, x: int, n: nat)
    requires n == 1 || n == 2 || n == 4 || n == 8
    ensures (forall mem: int -> nat, j: int | x % 8 <= j < x % 8 - x % 8 % n + n ::
               ReadLane(mem, b, j) == mem(x + (j - x % 8))) <==> Serves(b, x)
  {
    if Serves(b, x) {
      assert b - b % 8 == x - x % 8;
    } else {
      var mem := (a: int) => if a == x then 1 else 0;
      assert x % 8 <= x % 8 < x % 8 - x % 8 % n + n;
      assert ReadLane(mem, b, x % 8) != mem(x + (x % 8 - x % 8));
    }
  }

  /** Where the addresses match: single beats, incrementing bursts of aligned 8-byte beats, fixed bursts at
      address 0, and wrapping bursts of two beats from the second one. */
  lemma BeatsAreAxi(q: Request)
    requires Legal(q)
    ensures AddressesMatch(q) <==>
      || q.len == 0
      || (q.burst == 1 && q.size == 3 && q.addr % 8 == 0)
      || (q.burst == 0 && q.addr == 0)
      || (q.burst == 2 && q.len == 1 && q.addr == Bytes(q))
  {
    hide BeatAddr, AxiAddr, WrapSlot;
    First(q);
    if q.burst == 0 { Fixed(q); }
    if q.burst == 1 { Increment(q); }
    if q.burst == 2 { WrapMatch(q); }
    if AddressesMatch(q) && q.len > 0 { assert BeatAddr(q, 1) == AxiAddr(q, 1); }
  }

  /** Where reads deliver: single beats, incrementing bursts of aligned 8-byte beats, fixed bursts in the
      lowest word, wrapping bursts that stay in it, and two 8-byte beats wrapping from address 8. */
  lemma ReadsRight(q: Request)
    requires Legal(q)
    ensures ReadsDeliver(q) <==>
      || q.len == 0
      || (q.burst == 1 && q.size == 3 && q.addr % 8 == 0)
      || (q.burst == 0 && q.addr < 8)
      || (q.burst == 2 && WrapsLow(q))
  {
    hide BeatAddr, AxiAddr, WrapSlot, WrapsLow;
    First(q);
    if q.burst == 0 { Fixed(q); }
    if q.burst == 1 { Increment(q); }
    if q.burst == 2 { WrapWords(q); }
    if ReadsDeliver(q) && q.len > 0 { assert Serves(BeatAddr(q, 1), AxiAddr(q, 1)); }
  }

  /** Where writes reach their words: the same, with incrementing bursts of 8-byte beats from any address,
      and two narrower beats on both sides of a word boundary. */
  lemma WritesRight(q: Request)
    requires Legal(q)
    ensures WritesReach(q) <==>
      || q.len == 0
      || (q.burst == 1 && (q.size == 3 || (q.len == 1 && q.addr % 8 >= 8 - Bytes(q))))
      || (q.burst == 0 && q.addr < 8)
      || (q.burst == 2 && WrapsLow(q))
  {
    hide BeatAddr, AxiAddr, WrapSlot, WrapsLow;
    First(q);
    if q.burst == 0 { Fixed(q); }
    if q.burst == 1 { Increment(q); }
    if q.burst == 2 { WrapWords(q); }
    if WritesReach(q) && q.len > 0 {
      assert SameWord(BeatAddr(q, 1), AxiAddr(q, 1));
      if q.len > 1 { assert SameWord(BeatAddr(q, 2), AxiAddr(q, 2)); }
    }
  }

  /** An incrementing burst from an unaligned address: its second beat is four bytes off. */
  lemma UnalignedCounterexample()
    ensures var q := Request(true, 0x1004, 1, 1, 3);
      Legal(q) && BeatAddr(q, 1) == 0x100C && AxiAddr(q, 1) == 0x1008 && !ReadsDeliver(q) && WritesReach(q)
  {
    var q := Request(true, 0x1004, 1, 1, 3);
    ReadsRight(q);
    WritesRight(q);
  }

  /** Beats of four bytes: the second one is in the wrong half of the wrong word. */
  lemma NarrowCounterexample()
    ensures var q := Request(true, 0x1000, 1, 1, 2);
      Legal(q) && BeatAddr(q, 1) == 0x1008 && AxiAddr(q, 1) == 0x1004 && !ReadsDeliver(q) && !WritesReach(q)
  {
    var q := Request(true, 0x1000, 1, 1, 2);
    ReadsRight(q);
    WritesRight(q);
  }

  // ------------------------------------------------------------------ first beats and fixed bursts

  lemma First(q: Request)
    ensures BeatAddr(q, 0) == AxiAddr(q, 0) == q.addr
  {
  }

  lemma Fixed(q: Request)
    requires q.burst == 0
    ensures forall k: nat :: AxiAddr(q, k) == q.addr && (k > 0 ==> BeatAddr(q, k) == 0)
  {
  }

  // ------------------------------------------------------------------ incrementing bursts

  lemma WordMod(y: nat, r: nat)
    requires r < 8
    ensures var x := (8 * y + r) % ADDR_MOD; x / 8 == y % 0x2000_0000_0000 && x % 8 == r
  {
    var c, w := y / 0x2000_0000_0000, y % 0x2000_0000_0000;
    DivUnique(8 * y + r, ADDR_MOD, c, 8 * w + r);
  }

  /** Word and offset of the beats of an incrementing burst, and of the AXI addresses. */
  lemma Increment(q: Request)
    requires Legal(q) && q.burst == 1
    ensures forall k: nat | k > 0 ::
      BeatAddr(q, k) / 8 == (q.addr / 8 + k) % 0x2000_0000_0000 && BeatAddr(q, k) % 8 == q.addr % 8
    ensures q.size == 3 ==> forall k: nat | k > 0 ::
      AxiAddr(q, k) / 8 == (q.addr / 8 + k) % 0x2000_0000_0000 && AxiAddr(q, k) % 8 == 0
    ensures q.size == 3 && q.addr % 8 == 0 ==> forall k: nat | k > 0 :: BeatAddr(q, k) == AxiAddr(q, k)
    ensures q.size < 3 && q.addr % 8 < 8 - Bytes(q) ==> AxiAddr(q, 1) / 8 == q.addr / 8
    ensures q.size < 3 && q.addr % 8 >= 8 - Bytes(q) ==>
      && AxiAddr(q, 1) / 8 == AxiAddr(q, 2) / 8 == (q.addr / 8 + 1) % 0x2000_0000_0000 && AxiAddr(q, 1) % 8 == 0
  {
    var w, r := q.addr / 8, q.addr % 8;
    assert q.addr == 8 * w + r;
    hide *;
    forall k: nat | k > 0
      ensures BeatAddr(q, k) / 8 == (w + k) % 0x2000_0000_0000 && BeatAddr(q, k) % 8 == r
      ensures q.size == 3 ==> AxiAddr(q, k) / 8 == (w + k) % 0x2000_0000_0000 && AxiAddr(q, k) % 8 == 0
      ensures q.size == 3 && r == 0 ==> BeatAddr(q, k) == AxiAddr(q, k)
    {
      WordMod(w + k, r);
      WordMod(w + k, 0);
      BeatSum(q, w, r, k);
    }
    if q.size < 3 { NarrowStep(q, w, r); }
  }

  lemma BeatSum(q: Request, w: nat, r: nat, k: nat)
    requires Legal(q) && q.burst == 1 && k > 0 && q.addr == 8 * w + r && r < 8
    ensures BeatAddr(q, k) == (8 * (w + k) + r) % ADDR_MOD
    ensures q.size == 3 ==> AxiAddr(q, k) == (8 * (w + k) + 0) % ADDR_MOD
  {
  }

  lemma NarrowStep(q: Request, w: nat, r: nat)
    requires Legal(q) && q.burst == 1 && q.size < 3 && q.addr == 8 * w + r && r < 8
    ensures r < 8 - Bytes(q) ==> AxiAddr(q, 1) / 8 == w
    ensures r >= 8 - Bytes(q) ==>
      AxiAddr(q, 1) / 8 == AxiAddr(q, 2) / 8 == (w + 1) % 0x2000_0000_0000 && AxiAddr(q, 1) % 8 == 0
  {
    var n := Bytes(q);
    var s := NarrowSlot(w, r, n);
    assert AxiAddr(q, 1) == (8 * w + (s + n)) % ADDR_MOD && AxiAddr(q, 2) == (8 * w + (s + 2 * n)) % ADDR_MOD;
    hide AxiAddr, Bytes;
    if r < 8 - n {
      WordMod(w, s + n);
    } else {
      assert 8 * w + (s + n) == 8 * (w + 1) + 0 && 8 * w + (s + 2 * n) == 8 * (w + 1) + n;
      WordMod(w + 1, 0);
      WordMod(w + 1, n);
    }
  }

  /** The aligned start of a narrow beat, inside its word. */
  lemma NarrowSlot(w: nat, r: nat, n: nat) returns (s: nat)
    requires r < 8 && (n == 1 || n == 2 || n == 4)
    ensures 8 * w + r - (8 * w + r) % n == 8 * w + s && s + n <= 8
    ensures r < 8 - n <==> s + n < 8
  {
    s := r - r % n;
    if n == 1 {
    } else if n == 2 {
      DivUnique(8 * w + r, 2, 4 * w + r / 2, r % 2);
    } else {
      DivUnique(8 * w + r, 4, 2 * w + r / 4, r % 4);
    }
  }

  // ------------------------------------------------------------------ wrapping bursts

  /** A wrapping burst all of whose beats but the first are in the lowest word. */
  predicate WrapsLow(q: Request) {
    || (Bytes(q) * (q.len + 1) <= 8 && q.addr < 8)
    || (q.size == 3 && q.len == 1 && q.addr == 8)
  }

  /** The first per slots: all beats after the first fall into them exactly when the whole block does, or
      the burst wraps from slot 1 to slot 0. */
  lemma WrapLow(w: nat, n: nat, per: nat)
    requires n > 1 && per > 0 && (if n <= per then per % n == 0 else n >= 2 * per)
    ensures (forall k: nat | 0 < k < n :: 0 <= WrapSlot(w, n, k) < per) <==>
      (n <= per && w < per) || (per == 1 && n == 2 && w == 1)
  {
    var b, r := w - w % n, w % n;
    BlockStart(w, n, per);
    forall k: nat | k < n ensures WrapSlot(w, n, k) == b + if r + k < n then r + k else r + k - n {
      if r + k < n { ModSmall(r + k, n); } else { DivUnique(r + k, n, 1, r + k - n); }
    }
    hide WrapSlot;
    if forall k: nat | 0 < k < n :: 0 <= WrapSlot(w, n, k) < per {
      var k := if r < n - 1 then n - 1 - r else n - 1;
      assert 0 <= WrapSlot(w, n, k) < per;
      assert WrapSlot(w, n, k) == b + if r < n - 1 then n - 1 else n - 2;
    }
  }

  /** Where the block of a slot starts; it does not run over the end of the first per slots. */
  lemma BlockStart(w: nat, n: nat, per: nat)
    requires n > 0 && (n <= per ==> per % n == 0)
    ensures w - w % n >= 0 && (w < n ==> w - w % n == 0) && (w >= n ==> w - w % n >= n)
    ensures n <= per && w - w % n < per ==> w - w % n + n <= per
  {
    var t := w / n;
    assert w - w % n == n * t;
    if w < n { ModSmall(w, n); } else { MulMono(n, 1, t + 1); QuotientPositive(w, n); MulMono(n, 1, t); }
    if n <= per && n * t < per {
      assert per == n * (per / n);
      MulStrict(n, t, per / n);
      MulMono(n, t + 1, per / n);
    }
  }

  lemma QuotientPositive(w: nat, n: nat)
    requires n > 0 && w >= n
    ensures w / n >= 1
  {
    var t := w / n;
    assert w == n * t + w % n;
    MulStrict(n, 0, t);
  }

  lemma WrapBeat(q: Request, k: nat)
    requires q.burst == 2 && k > 0
    ensures BeatAddr(q, k) == 0 && AxiAddr(q, k) == Bytes(q) * WrapSlot(q.addr / Bytes(q), q.len + 1, k)
  {
  }

  lemma WrapMatch(q: Request)
    requires Legal(q) && q.burst == 2
    ensures AddressesMatch(q) <==> q.len == 0 || (q.len == 1 && q.addr == Bytes(q))
  {
    hide BeatAddr, AxiAddr, WrapSlot;
    var w, n := q.addr / Bytes(q), q.len + 1;
    First(q);
    if q.len > 0 {
      WrapLow(w, n, 1);
      forall k: nat | 0 < k < n ensures BeatAddr(q, k) == AxiAddr(q, k) <==> 0 <= WrapSlot(w, n, k) < 1 {
        WrapBeat(q, k);
        SlotWord(Bytes(q), WrapSlot(w, n, k));
      }
      assert w == 1 <==> q.addr == Bytes(q);
      if forall k: nat | 0 < k < n :: 0 <= WrapSlot(w, n, k) < 1 {
        forall k: nat | k <= q.len ensures BeatAddr(q, k) == AxiAddr(q, k) {
          if k > 0 { assert 0 <= WrapSlot(w, n, k) < 1; }
        }
      } else {
        var k: nat :| 0 < k < n && !(0 <= WrapSlot(w, n, k) < 1);
        assert BeatAddr(q, k) != AxiAddr(q, k);
      }
    }
  }

  lemma WrapWords(q: Request)
    requires Legal(q) && q.burst == 2
    ensures WritesReach(q) <==> q.len == 0 || WrapsLow(q)
    ensures ReadsDeliver(q) <==> q.len == 0 || WrapsLow(q)
  {
    hide BeatAddr, AxiAddr, WrapSlot;
    var w, n, per := q.addr / Bytes(q), q.len + 1, 8 / Bytes(q);
    First(q);
    if q.len > 0 {
      BlockWords(q);
      WrapLow(w, n, per);
      hide WrapsLow;
      forall k: nat | 0 < k < n
        ensures SameWord(BeatAddr(q, k), AxiAddr(q, k)) <==> 0 <= WrapSlot(w, n, k) < per
        ensures BeatAddr(q, k) == 0
      {
        WrapBeat(q, k);
        SlotWord(Bytes(q), WrapSlot(w, n, k));
      }
      if forall k: nat | 0 < k < n :: 0 <= WrapSlot(w, n, k) < per {
        forall k: nat | k <= q.len ensures Serves(BeatAddr(q, k), AxiAddr(q, k)) {
          if k > 0 { assert 0 <= WrapSlot(w, n, k) < per; }
        }
      } else {
        var k: nat :| 0 < k < n && !(0 <= WrapSlot(w, n, k) < per);
        assert !SameWord(BeatAddr(q, k), AxiAddr(q, k));
      }
    }
  }

  /** WrapsLow in units of a beat. */
  lemma BlockWords(q: Request)
    requires Legal(q) && q.burst == 2 && q.len > 0
    ensures var w, n, per := q.addr / Bytes(q), q.len + 1, 8 / Bytes(q);
      && (WrapsLow(q) <==> (n <= per && w < per) || (per == 1 && n == 2 && w == 1))
      && per > 0 && if n <= per then per % n == 0 else n >= 2 * per
  {
    var n := q.len + 1;
    assert n == 2 || n == 4 || n == 8 || n == 16;
    assert q.size == 0 || q.size == 1 || q.size == 2 || q.size == 3;
  }

  lemma SlotWord(n: nat, slot: int)
    requires n == 1 || n == 2 || n == 4 || n == 8
    ensures 0 <= slot < 8 / n <==> n * slot / 8 == 0
    ensures n * slot == 0 <==> slot == 0
  {
    if n == 1 {} else if n == 2 {} else if n == 4 {} else {}
  }
}
