/** The functional instruction cache: four ways of even lines, four of odd lines, round-robin replacement. */
module ICache {
  import Bits

  const ICACHE_WAYS: nat := 4
  const LINES_PER_WAY: nat := 64

  type Byte = b: nat | b < 256

  /** A 64-bit address, and the sum the address adder gives. */
  type Addr = a: nat | a < 0x1_0000_0000_0000_0000

  function Plus(adr: nat, n: nat): nat {
    (adr + n) % 0x1_0000_0000_0000_0000
  }

  // ------------------------------------------------------------------ memory behind the cache

  /** The 16-bit and 64-bit little-endian values at an address. */
  function Mem16(mem: nat -> Byte, a: nat): (h: nat)
    ensures h < 65536
  {
    mem(a) + 256 * mem(a + 1)
  }

  function Mem64(mem: nat -> Byte, a: nat): nat {
    Mem16(mem, a) + 0x1_0000 * Mem16(mem, a + 2)
    + 0x1_0000_0000 * Mem16(mem, a + 4) + 0x1_0000_0000_0000 * Mem16(mem, a + 6)
  }

  /** buf16[k] of a 64-bit register. */
  function Half(w: nat, k: nat): nat
    requires k < 4
  {
    if k == 0 then w % 0x1_0000
    else if k == 1 then w / 0x1_0000 % 0x1_0000
    else if k == 2 then w / 0x1_0000_0000 % 0x1_0000
    else w / 0x1_0000_0000_0000 % 0x1_0000
  }

  lemma HalfOfWord(mem: nat -> Byte, a: nat, k: nat)
    requires k < 4
    ensures Half(Mem64(mem, a), k) == Mem16(mem, a + 2 * k)
  {
    Digits(Mem16(mem, a), Mem16(mem, a + 2), Mem16(mem, a + 4), Mem16(mem, a + 6));
  }

  lemma Digits(a: nat, b: nat, c: nat, d: nat)
    requires a < 0x1_0000 && b < 0x1_0000 && c < 0x1_0000 && d < 0x1_0000
    ensures var w := a + 0x1_0000 * b + 0x1_0000_0000 * c + 0x1_0000_0000_0000 * d;
      Half(w, 0) == a && Half(w, 1) == b && Half(w, 2) == c && Half(w, 3) == d
  {
    var w := a + 0x1_0000 * b + 0x1_0000_0000 * c + 0x1_0000_0000_0000 * d;
    assert w / 0x1_0000 == b + 0x1_0000 * c + 0x1_0000_0000 * d;
    assert w / 0x1_0000_0000 == c + 0x1_0000 * d;
    assert w / 0x1_0000_0000_0000 == d;
  }

  // ------------------------------------------------------------------ address slices

  function AdrLine(adr: nat): nat { adr % 0x1_0000_0000 / 32 * 32 }
  function AdrTag(adr: nat): nat { adr % 0x1_0000_0000 / 4096 }
  function AdrIndex(adr: nat): (i: nat)
    ensures i < LINES_PER_WAY
  {
    adr % 4096 / 64
  }
  function AdrOddEven(adr: nat): nat { adr / 32 % 2 }
  function AdrOffset(adr: nat): nat { adr % 32 }

  /** The slices of the address with line number q and offset r. */
  lemma LineNumber(q: nat, r: nat)
    requires q < 0x800_0000 && r < 32
    ensures AdrLine(32 * q + r) == 32 * q && AdrOffset(32 * q + r) == r
    ensures AdrOddEven(32 * q + r) == q % 2
    ensures AdrTag(32 * q + r) == q / 128
    ensures AdrIndex(32 * q + r) == q / 2 % 64
  {
    var t, u := q / 128, q % 128;
    assert q == 128 * t + u;
    LineParts(t, u, r);
    assert u / 2 == q / 2 % 64 && u % 2 == q % 2 by { assert q / 2 == 64 * t + u / 2; }
  }

  lemma LineParts(t: nat, u: nat, r: nat)
    requires u < 128 && r < 32 && t < 0x10_0000
    ensures var adr := 4096 * t + 32 * u + r;
      && adr % 4096 == 32 * u + r && adr / 4096 == t
      && adr / 32 == 128 * t + u && adr % 32 == r && (32 * u + r) / 64 == u / 2
  {
  }

  /** A 32-bit address is its tag, index, bank bit and offset. */
  lemma Slices(adr: nat)
    requires adr < 0x1_0000_0000
    ensures adr == 4096 * AdrTag(adr) + 64 * AdrIndex(adr) + 32 * AdrOddEven(adr) + AdrOffset(adr)
    ensures AdrLine(adr) == adr - AdrOffset(adr)
  {
    hide AdrTag, AdrIndex, AdrLine, AdrOddEven, AdrOffset;
    var q, r := adr / 32, adr % 32;
    LineNumber(q, r);
    assert q == 2 * (q / 2) + q % 2 && q / 2 == 64 * (q / 128) + q / 2 % 64;
  }

  /** Tag and index of a line address are those of every address in the line. */
  lemma LineSlices(adr: nat)
    ensures AdrTag(AdrLine(adr)) == AdrTag(adr) && AdrIndex(AdrLine(adr)) == AdrIndex(adr)
  {
    Wrapped(adr);
    hide AdrTag, AdrIndex, AdrLine, AdrOddEven, AdrOffset;
    var a := adr % 0x1_0000_0000;
    var q, r := a / 32, a % 32;
    LineNumber(q, r);
    LineNumber(q, 0);
  }

  /** The slices see the address modulo 2^32 only. */
  lemma Wrapped(adr: nat)
    ensures var a := adr % 0x1_0000_0000;
      && AdrTag(adr) == AdrTag(a) && AdrIndex(adr) == AdrIndex(a) && AdrLine(adr) == AdrLine(a)
      && AdrOddEven(adr) == AdrOddEven(a) && AdrOffset(adr) == AdrOffset(a)
  {
    var c, a := adr / 0x1_0000_0000, adr % 0x1_0000_0000;
    assert a % 0x1_0000_0000 == a;
    LowBits(adr, c, a);
  }

  lemma LowBits(adr: nat, c: nat, a: nat)
    requires adr == 0x1_0000_0000 * c + a
    ensures adr % 4096 == a % 4096 && adr % 32 == a % 32 && adr / 32 % 2 == a / 32 % 2
  {
    Bits.DivUnique(adr, 4096, 0x10_0000 * c + a / 4096, a % 4096);
    Bits.DivUnique(adr, 32, 0x800_0000 * c + a / 32, a % 32);
    Bits.EvenShift(a / 32, 0x400_0000 * c);
  }

  // ------------------------------------------------------------------ cache state as values

  datatype Line = Line(tag: nat, mem64: seq<nat>)

  /** One bank: its ways, and the replacement order of each row (two bits a way, next victim lowest). */
  datatype Bank = Bank(ways: seq<seq<Line>>, lru: seq<nat>)

  datatype Cache = Cache(even: Bank, odd: Bank)

  predicate Shaped(b: Bank) {
    && |b.ways| == ICACHE_WAYS && |b.lru| == LINES_PER_WAY
    && (forall n | 0 <= n < |b.ways| :: |b.ways[n]| == LINES_PER_WAY)
    && (forall n, i | 0 <= n < |b.ways| && 0 <= i < |b.ways[n]| :: |b.ways[n][i].mem64| == 4)
    && (forall i | 0 <= i < |b.lru| :: b.lru[i] < 256)
  }

  /** The line readLine leaves behind: the 32 bytes around adr. */
  function LineOf(mem: nat -> Byte, adr: nat): Line {
    Line(AdrTag(adr), seq(4, i requires 0 <= i => Mem64(mem, adr - adr % 32 + 8 * i)))
  }

  /** n0 becomes n3, the others move down. */
  function Rotate(row: nat): (r: nat)
    ensures r < 256
  {
    row / 4 % 64 + 64 * (row % 4)
  }

  function Fill(b: Bank, mem: nat -> Byte, adr: nat): Bank
    requires Shaped(b)
  {
    var i := AdrIndex(adr);
    var way := b.lru[i] % 4;
    Bank(b.ways[way := b.ways[way][i := LineOf(mem, adr)]], b.lru[i := Rotate(b.lru[i])])
  }

  /** The last way whose tag matches; ICACHE_WAYS when none does. */
  function HitWay(b: Bank, index: nat, tag: nat, n: nat): (way: nat)
    requires Shaped(b) && index < LINES_PER_WAY && n <= ICACHE_WAYS
    ensures way < n || way == ICACHE_WAYS
    ensures way < n ==> b.ways[way][index].tag == tag
    ensures way == ICACHE_WAYS ==> forall m | 0 <= m < n :: b.ways[m][index].tag != tag
  {
    if n == 0 then ICACHE_WAYS
    else if b.ways[n - 1][index].tag == tag then n - 1
    else HitWay(b, index, tag, n - 1)
  }

  /** The 16-bit value at an offset of a line; the offset wraps. */
  function HalfAt(line: Line, off: nat): nat
    requires |line.mem64| == 4
  {
    Half(line.mem64[off / 8 % 4], off / 2 % 4)
  }

  datatype Selected = Selected(hit: nat, half0: nat, half1: nat)

  function Select(b: Bank, adr: nat, off: nat): Selected
    requires Shaped(b)
  {
    var way := HitWay(b, AdrIndex(adr), AdrTag(adr), ICACHE_WAYS);
    if way == ICACHE_WAYS then Selected(ICACHE_WAYS, 0, 0)
    else
      var line := b.ways[way][AdrIndex(adr)];
      Selected(way, HalfAt(line, off), HalfAt(line, off + 2))
  }

  datatype Fetched = Fetched(hit0: nat, hit1: nat, half0: nat, half1: nat)

  predicate Crossing(adr: nat) { adr % 32 / 2 == 15 }

  function Same(c: Cache, adr: nat): Bank { if AdrOddEven(adr) == 0 then c.even else c.odd }
  function Other(c: Cache, adr: nat): Bank { if AdrOddEven(adr) == 0 then c.odd else c.even }

  /** getCachedValue. */
  function Lookup(c: Cache, adr: nat): Fetched
    requires Shaped(c.even) && Shaped(c.odd)
  {
    var first := Select(Same(c, adr), adr, AdrOffset(adr));
    if !Crossing(adr) then Fetched(first.hit, first.hit, first.half0, first.half1)
    else
      var second := Select(Other(c, adr), Plus(adr, 32), 0);
      Fetched(first.hit, second.hit, first.half0, second.half0)
  }

  function FillSame(c: Cache, mem: nat -> Byte, adr: nat): Cache
    requires Shaped(c.even) && Shaped(c.odd)
  {
    if AdrOddEven(adr) == 0 then c.(even := Fill(c.even, mem, adr)) else c.(odd := Fill(c.odd, mem, adr))
  }

  function FillOther(c: Cache, mem: nat -> Byte, adr: nat): Cache
    requires Shaped(c.even) && Shaped(c.odd)
  {
    var next := Plus(adr, 2);
    if AdrOddEven(adr) == 1 then c.(even := Fill(c.even, mem, next)) else c.(odd := Fill(c.odd, mem, next))
  }

  lemma FillShaped(b: Bank, mem: nat -> Byte, adr: nat)
    requires Shaped(b)
    ensures Shaped(Fill(b, mem, adr))
  {
  }

  /** The cache after b_transport: a missing line is fetched into its bank's next victim, and so is the
      line the access runs into. */
  function Access(c: Cache, mem: nat -> Byte, adr: nat): (r: Cache)
    requires Shaped(c.even) && Shaped(c.odd)
    ensures Shaped(r.even) && Shaped(r.odd)
  {
    FillShaped(Same(c, adr), mem, adr);
    FillShaped(Other(c, adr), mem, Plus(adr, 2));
    var miss := Lookup(c, adr);
    var c1 := if miss.hit0 == ICACHE_WAYS then FillSame(c, mem, adr) else c;
    if miss.hit1 == ICACHE_WAYS && AdrLine(adr) != AdrLine(Plus(adr, 2)) then FillOther(c1, mem, adr) else c1
  }

  // ------------------------------------------------------------------ coherence

  /** A line whose tag is possible holds the memory it stands for. */
  ghost predicate LineCoherent(line: Line, bank: nat, index: nat, mem: nat -> Byte) {
    line.tag < 0x10_0000 ==> line == LineOf(mem, 4096 * line.tag + 64 * index + 32 * bank)
  }

  ghost predicate BankCoherent(b: Bank, bank: nat, mem: nat -> Byte) {
    && Shaped(b)
    && forall n, i | 0 <= n < |b.ways| && 0 <= i < |b.ways[n]| :: LineCoherent(b.ways[n][i], bank, i, mem)
  }

  ghost predicate Coherent(c: Cache, mem: nat -> Byte) {
    BankCoherent(c.even, 0, mem) && BankCoherent(c.odd, 1, mem)
  }

  /** Memory repeats after 2^32 bytes, as far as the tags reach. */
  ghost predicate Repeats(mem: nat -> Byte) {
    forall a: Addr :: mem(a) == mem(a % 0x1_0000_0000)
  }

  /** The tag tells the line of adr from the others. */
  ghost predicate Known(mem: nat -> Byte, adr: nat) {
    adr < 0x1_0000_0000 || (adr < 0x1_0000_0000_0000_0000 && Repeats(mem))
  }

  /** An access that ends below 2^32, or anywhere if memory repeats. */
  ghost predicate Within(mem: nat -> Byte, adr: nat) {
    adr + 2 < 0x1_0000_0000 || (adr < 0x1_0000_0000_0000_0000 && Repeats(mem))
  }

  lemma Congruent(a: nat, b: nat, k: nat)
    requires a % 0x1_0000_0000 == b % 0x1_0000_0000
    ensures (a + k) % 0x1_0000_0000 == (b + k) % 0x1_0000_0000
  {
  }

  lemma Mem16Repeats(mem: nat -> Byte, a: nat, b: nat)
    requires Repeats(mem) && a % 0x1_0000_0000 == b % 0x1_0000_0000
    requires a + 1 < 0x1_0000_0000_0000_0000 && b + 1 < 0x1_0000_0000_0000_0000
    ensures Mem16(mem, a) == Mem16(mem, b)
  {
    Congruent(a, b, 1);
    assert mem(a) == mem(b);
    assert mem(a + 1) == mem(b + 1);
  }

  lemma Mem64Repeats(mem: nat -> Byte, a: nat, b: nat)
    requires Repeats(mem) && a % 0x1_0000_0000 == b % 0x1_0000_0000
    requires a + 7 < 0x1_0000_0000_0000_0000 && b + 7 < 0x1_0000_0000_0000_0000
    ensures Mem64(mem, a) == Mem64(mem, b)
  {
    hide Mem16, Repeats;
    Congruent(a, b, 2);
    Congruent(a, b, 4);
    Congruent(a, b, 6);
    Mem16Repeats(mem, a, b);
    Mem16Repeats(mem, a + 2, b + 2);
    Mem16Repeats(mem, a + 4, b + 4);
    Mem16Repeats(mem, a + 6, b + 6);
  }

  lemma SameLine(mem: nat -> Byte, a: nat, b: nat, x: nat, y: nat)
    requires Repeats(mem) && AdrTag(a) == AdrTag(b)
    requires x == a - a % 32 && y == b - b % 32 && x % 0x1_0000_0000 == y % 0x1_0000_0000
    requires x + 31 < 0x1_0000_0000_0000_0000 && y + 31 < 0x1_0000_0000_0000_0000
    ensures LineOf(mem, a) == LineOf(mem, b)
  {
    hide Mem64, Repeats, AdrTag;
    forall i: nat | i < 4 ensures Mem64(mem, x + 8 * i) == Mem64(mem, y + 8 * i) {
      Congruent(x, y, 8 * i);
      Mem64Repeats(mem, x + 8 * i, y + 8 * i);
    }
  }

  lemma LineRepeats(mem: nat -> Byte, adr: nat)
    requires Repeats(mem) && adr < 0x1_0000_0000_0000_0000
    ensures LineOf(mem, adr) == LineOf(mem, adr % 0x1_0000_0000)
  {
    hide LineOf, Repeats, AdrTag, AdrIndex, AdrLine, AdrOddEven, AdrOffset;
    var low := adr % 0x1_0000_0000;
    Wrapped(adr);
    LineBase(adr);
    RowEnd(adr);
    RowEnd(low);
    SameLine(mem, adr, low, adr - adr % 32, low - low % 32);
  }

  lemma RowEnd(adr: nat)
    requires adr < 0x1_0000_0000_0000_0000
    ensures adr - adr % 32 + 31 < 0x1_0000_0000_0000_0000
  {
    assert adr / 32 < 0x800_0000_0000_0000;
  }

  lemma LineBase(adr: nat)
    ensures var low := adr % 0x1_0000_0000;
      (adr - adr % 32) % 0x1_0000_0000 == (low - low % 32) % 0x1_0000_0000
  {
    var hi, low := adr / 0x1_0000_0000, adr % 0x1_0000_0000;
    assert low % 32 == adr % 32;
    assert adr - adr % 32 == 0x1_0000_0000 * hi + (low - low % 32);
  }

  lemma LineOfBase(mem: nat -> Byte, adr: nat)
    requires Known(mem, adr)
    ensures LineOf(mem, adr) == LineOf(mem, 4096 * AdrTag(adr) + 64 * AdrIndex(adr) + 32 * AdrOddEven(adr))
  {
    hide AdrTag, AdrIndex, AdrLine, AdrOddEven, AdrOffset, LineOf, Repeats;
    if adr < 0x1_0000_0000 {
      LineAtBase(mem, adr);
    } else {
      Wrapped(adr);
      LineRepeats(mem, adr);
      LineAtBase(mem, adr % 0x1_0000_0000);
    }
  }

  lemma LineAtBase(mem: nat -> Byte, adr: nat)
    requires adr < 0x1_0000_0000
    ensures LineOf(mem, adr) == LineOf(mem, 4096 * AdrTag(adr) + 64 * AdrIndex(adr) + 32 * AdrOddEven(adr))
  {
    Slices(adr);
    var base := 4096 * AdrTag(adr) + 64 * AdrIndex(adr) + 32 * AdrOddEven(adr);
    assert base % 32 == 0 && adr - adr % 32 == base;
    assert AdrTag(base) == AdrTag(adr);
  }

  /** Filling keeps a bank coherent. */
  lemma FillCoherent(b: Bank, bank: nat, mem: nat -> Byte, adr: nat)
    requires BankCoherent(b, bank, mem) && Known(mem, adr) && AdrOddEven(adr) == bank
    ensures BankCoherent(Fill(b, mem, adr), bank, mem)
  {
    hide AdrTag, AdrIndex, AdrOddEven, LineOf;
    FillShaped(b, mem, adr);
    LineOfBase(mem, adr);
    LineTag(mem, adr);
  }

  lemma LineTag(mem: nat -> Byte, adr: nat)
    ensures LineOf(mem, adr).tag == AdrTag(adr) && |LineOf(mem, adr).mem64| == 4
  {
  }

  /** After a fill, the line is found. */
  lemma FillHits(b: Bank, mem: nat -> Byte, adr: nat)
    requires Shaped(b)
    ensures Shaped(Fill(b, mem, adr))
    ensures HitWay(Fill(b, mem, adr), AdrIndex(adr), AdrTag(adr), ICACHE_WAYS) < ICACHE_WAYS
  {
    hide AdrTag, AdrIndex, LineOf;
    FillShaped(b, mem, adr);
    LineTag(mem, adr);
    var r, i := Fill(b, mem, adr), AdrIndex(adr);
    assert r.ways[b.lru[i] % 4][i].tag == AdrTag(adr);
  }

  /** A hit in a coherent bank delivers memory. */
  lemma HitReadsMemory(b: Bank, bank: nat, mem: nat -> Byte, adr: nat, off: nat)
    requires BankCoherent(b, bank, mem) && Known(mem, adr) && AdrOddEven(adr) == bank && off < 32
    requires Select(b, adr, off).hit < ICACHE_WAYS
    ensures Select(b, adr, off).half0 == Mem16(mem, adr - adr % 32 + off - off % 2)
    ensures off < 30 ==> Select(b, adr, off).half1 == Mem16(mem, adr - adr % 32 + off - off % 2 + 2)
  {
    hide Mem16, Half, AdrTag, AdrIndex, AdrOddEven, LineOf;
    var i := AdrIndex(adr);
    var line := b.ways[HitWay(b, i, AdrTag(adr), ICACHE_WAYS)][i];
    TagBound(adr);
    assert LineCoherent(line, bank, i, mem);
    LineOfBase(mem, adr);
    assert line == LineOf(mem, adr);
    HalfOfLine(mem, adr, off);
    if off < 30 { HalfOfLine(mem, adr, off + 2); }
  }

  lemma TagBound(adr: nat)
    ensures AdrTag(adr) < 0x10_0000
  {
  }

  lemma HalfOfLine(mem: nat -> Byte, adr: nat, off: nat)
    requires off < 32
    ensures HalfAt(LineOf(mem, adr), off) == Mem16(mem, adr - adr % 32 + off - off % 2)
  {
    hide Mem64, Mem16, Half;
    var base, w, k := adr - adr % 32, off / 8, off / 2 % 4;
    assert off / 8 % 4 == w;
    HalfOfWord(mem, base + 8 * w, k);
    assert off / 2 == 4 * w + k;
    assert base + 8 * w + 2 * k == base + off - off % 2;
  }

  // ------------------------------------------------------------------ transparency

  /** The line an access runs into: the other bank, and the same line 2 or 32 bytes on. */
  lemma NextLine(adr: nat)
    requires adr < 0x1_0000_0000_0000_0000
    ensures Crossing(adr) <==> AdrLine(adr) != AdrLine(Plus(adr, 2))
    ensures Crossing(adr) ==> SameEnd(adr)
    ensures Crossing(adr) ==>
      AdrTag(Plus(adr, 32)) == AdrTag(Plus(adr, 2)) && AdrIndex(Plus(adr, 32)) == AdrIndex(Plus(adr, 2))
    ensures Crossing(adr) ==> AdrOddEven(Plus(adr, 2)) == 1 - AdrOddEven(adr) == AdrOddEven(Plus(adr, 32))
  {
    hide AdrTag, AdrIndex, AdrLine, AdrOddEven, AdrOffset;
    var q, r, next := NextSlot(adr);
    Wrapped(adr);
    Wrapped(Plus(adr, 2));
    Wrapped(Plus(adr, 32));
    LineNumber(q, r);
    if Crossing(adr) {
      LineNumber(next, r - 30);
      LineNumber(next, r);
    } else {
      LineNumber(q, r + 2);
    }
  }

  /** 2 and 32 bytes on, an access across a line end is in the same line, which starts where the second
      half is. */
  predicate SameEnd(adr: nat) {
    Plus(adr, 32) - Plus(adr, 32) % 32 == Plus(adr, 2) - Plus(adr, 2) % 32 == Plus(adr - adr % 2, 2)
  }

  /** The line and offset of an address, and the line after it, which may be line 0. */
  lemma NextSlot(adr: nat) returns (q: nat, r: nat, next: nat)
    requires adr < 0x1_0000_0000_0000_0000
    ensures q < 0x800_0000 && next == (if q == 0x7FF_FFFF then 0 else q + 1) && r == adr % 32
    ensures adr % 0x1_0000_0000 == 32 * q + r
    ensures r < 30 ==> Plus(adr, 2) % 0x1_0000_0000 == 32 * q + (r + 2)
    ensures r >= 30 ==>
      && Plus(adr, 2) % 0x1_0000_0000 == 32 * next + (r - 30) && Plus(adr, 32) % 0x1_0000_0000 == 32 * next + r
      && SameEnd(adr) && (adr + 2 < 0x1_0000_0000 ==> Plus(adr, 2) < Plus(adr, 32) < 0x1_0000_0000)
  {
    var hi, low := adr / 0x1_0000_0000, adr % 0x1_0000_0000;
    q, r := low / 32, low % 32;
    next := if q == 0x7FF_FFFF then 0 else q + 1;
    InRow(adr, 0x800_0000 * hi + q, r);
    LowWord(adr + 2);
    LowWord(adr + 32);
    if r < 30 {
      Residue(adr + 2, hi, 32 * q + (r + 2));
    } else if next == 0 {
      Residue(adr + 2, hi + 1, r - 30);
      Residue(adr + 32, hi + 1, r);
    } else {
      Residue(adr + 2, hi, 32 * next + (r - 30));
      Residue(adr + 32, hi, 32 * next + r);
    }
  }

  lemma LowWord(x: nat)
    ensures x % 0x1_0000_0000_0000_0000 % 0x1_0000_0000 == x % 0x1_0000_0000
  {
    var c, r := x / 0x1_0000_0000_0000_0000, x % 0x1_0000_0000_0000_0000;
    assert x == 0x1_0000_0000 * (0x1_0000_0000 * c + r / 0x1_0000_0000) + r % 0x1_0000_0000;
  }

  lemma Residue(x: nat, hi: nat, low: nat)
    requires x == 0x1_0000_0000 * hi + low && low < 0x1_0000_0000
    ensures x % 0x1_0000_0000 == low
  {
  }

  lemma InRow(adr: nat, w: nat, r: nat)
    requires adr == 32 * w + r && r < 32 && adr < 0x1_0000_0000_0000_0000
    ensures adr % 32 == r
    ensures r >= 30 ==> SameEnd(adr)
    ensures r >= 30 && adr + 2 < 0x1_0000_0000 ==> Plus(adr, 2) < Plus(adr, 32) < 0x1_0000_0000
  {
    if r >= 30 {
      assert adr % 2 == r - 30;
      NextRow(adr, w, r);
    }
  }

  lemma NextRow(adr: nat, w: nat, r: nat)
    requires adr == 32 * w + r && 30 <= r < 32 && adr < 0x1_0000_0000_0000_0000
    ensures var n := if w == 0x7FF_FFFF_FFFF_FFFF then 0 else w + 1;
      && Plus(adr, 2) == 32 * n + (r - 30) && Plus(adr, 32) == 32 * n + r && Plus(adr - (r - 30), 2) == 32 * n
      && Plus(adr, 2) % 32 == r - 30 && Plus(adr, 32) % 32 == r
  {
  }

  /** Where the end of an access is known, all of it is. */
  lemma KnownBelow(mem: nat -> Byte, adr: nat)
    requires Within(mem, adr)
    ensures Known(mem, adr) && (Crossing(adr) ==> Known(mem, Plus(adr, 2)) && Known(mem, Plus(adr, 32)))
  {
    hide Repeats;
    var q, r, next := NextSlot(adr);
  }

  /** What an access must deliver: two hits and the four bytes at the even address. */
  ghost predicate Delivered(f: Fetched, mem: nat -> Byte, adr: nat) {
    && f.hit0 < ICACHE_WAYS && f.hit1 < ICACHE_WAYS
    && f.half0 == Mem16(mem, adr - adr % 2) && f.half1 == Mem16(mem, Plus(adr - adr % 2, 2))
  }

  /** One access: it hits in both halves afterwards, delivers the four bytes at the even address, and
      leaves the cache coherent. */
  lemma Transparent(c: Cache, mem: nat -> Byte, adr: nat)
    requires Coherent(c, mem) && Within(mem, adr)
    ensures Coherent(Access(c, mem, adr), mem) && Delivered(Lookup(Access(c, mem, adr), adr), mem, adr)
  {
    CoherentShaped(c.even, 0, mem);
    CoherentShaped(c.odd, 1, mem);
    hide *;
    FirstHalf(c, mem, adr);
    if Crossing(adr) { SecondHalf(c, mem, adr); }
    Halves(Access(c, mem, adr), mem, adr);
  }

  lemma CoherentShaped(b: Bank, bank: nat, mem: nat -> Byte)
    requires BankCoherent(b, bank, mem)
    ensures Shaped(b)
  {
  }

  lemma BankBit(adr: nat)
    ensures AdrOddEven(adr) == 0 || AdrOddEven(adr) == 1
  {
  }

  /** After the access, both banks are coherent and the line of adr is in its bank. */
  lemma FirstHalf(c: Cache, mem: nat -> Byte, adr: nat)
    requires Coherent(c, mem) && Within(mem, adr)
    ensures Coherent(Access(c, mem, adr), mem)
    ensures Select(Same(Access(c, mem, adr), adr), adr, AdrOffset(adr)).hit < ICACHE_WAYS
  {
    hide Known, Fill, AdrTag, AdrIndex, AdrLine, AdrOddEven, Mem16, Shaped, HitWay, BankCoherent, HalfAt;
    KnownBelow(mem, adr);
    BankBit(adr);
    NextLine(adr);
    CoherentShaped(c.even, 0, mem);
    CoherentShaped(c.odd, 1, mem);
    FillHits(Same(c, adr), mem, adr);
    FillCoherent(Same(c, adr), AdrOddEven(adr), mem, adr);
    if Crossing(adr) { FillCoherent(Other(c, adr), 1 - AdrOddEven(adr), mem, Plus(adr, 2)); }
  }

  lemma SecondHalf(c: Cache, mem: nat -> Byte, adr: nat)
    requires Coherent(c, mem) && Within(mem, adr) && Crossing(adr)
    ensures Coherent(Access(c, mem, adr), mem)
    ensures Select(Other(Access(c, mem, adr), adr), Plus(adr, 32), 0).hit < ICACHE_WAYS
  {
    hide Known, Fill, AdrTag, AdrIndex, AdrLine, AdrOddEven, Mem16, Shaped, HitWay, BankCoherent, HalfAt, Crossing;
    FirstHalf(c, mem, adr);
    KnownBelow(mem, adr);
    BankBit(adr);
    NextLine(adr);
    CoherentShaped(c.even, 0, mem);
    CoherentShaped(c.odd, 1, mem);
    FillHits(Other(c, adr), mem, Plus(adr, 2));
  }

  /** Hits in a coherent cache deliver memory, across a line boundary too. */
  lemma Halves(c: Cache, mem: nat -> Byte, adr: nat)
    requires Coherent(c, mem) && Within(mem, adr)
    requires Select(Same(c, adr), adr, AdrOffset(adr)).hit < ICACHE_WAYS
    requires Crossing(adr) ==> Select(Other(c, adr), Plus(adr, 32), 0).hit < ICACHE_WAYS
    ensures Delivered(Lookup(c, adr), mem, adr)
  {
    hide Known, AdrTag, AdrIndex, AdrLine, AdrOddEven, Mem16, Shaped, Select, BankCoherent, Plus, Repeats;
    CoherentShaped(c.even, 0, mem);
    CoherentShaped(c.odd, 1, mem);
    KnownBelow(mem, adr);
    BankBit(adr);
    NextLine(adr);
    Inner(adr);
    HitReadsMemory(Same(c, adr), AdrOddEven(adr), mem, adr, AdrOffset(adr));
    if Crossing(adr) { HitReadsMemory(Other(c, adr), 1 - AdrOddEven(adr), mem, Plus(adr, 32), 0); }
  }

  /** Inside a line, the second half follows the first one without a wrap. */
  lemma Inner(adr: nat)
    requires adr < 0x1_0000_0000_0000_0000
    ensures adr - adr % 32 + adr % 32 - adr % 32 % 2 == adr - adr % 2
    ensures !Crossing(adr) ==> adr % 32 < 30 && Plus(adr - adr % 2, 2) == adr - adr % 2 + 2
  {
    assert adr / 32 < 0x800_0000_0000_0000;
    assert adr % 32 % 2 == adr % 2;
  }

  /** Byte by byte: the low byte of a half is the one at the lower address. */
  lemma DeliveredBytes(f: Fetched, mem: nat -> Byte, adr: nat)
    requires Delivered(f, mem, adr)
    ensures var a, b := adr - adr % 2, Plus(adr - adr % 2, 2);
      && f.half0 % 256 == mem(a) && f.half0 / 256 == mem(a + 1)
      && f.half1 % 256 == mem(b) && f.half1 / 256 == mem(b + 1)
  {
  }

  /** The eight bytes of a bus word, the lowest one first. */
  lemma WordBytes(mem: nat -> Byte, a: nat)
    ensures Mem64(mem, a) ==
      mem(a) + 0x100 * mem(a + 1) + 0x1_0000 * mem(a + 2) + 0x100_0000 * mem(a + 3)
      + 0x1_0000_0000 * mem(a + 4) + 0x100_0000_0000 * mem(a + 5)
      + 0x1_0000_0000_0000 * mem(a + 6) + 0x100_0000_0000_0000 * mem(a + 7)
  {
  }

  /** An access that finds both halves changes nothing; one that misses only the second half keeps the bank
      of the first. */
  lemma HitKeeps(c: Cache, mem: nat -> Byte, adr: nat)
    requires Shaped(c.even) && Shaped(c.odd)
    ensures Lookup(c, adr).hit0 < ICACHE_WAYS && Lookup(c, adr).hit1 < ICACHE_WAYS ==> Access(c, mem, adr) == c
    ensures Lookup(c, adr).hit0 < ICACHE_WAYS ==> Same(Access(c, mem, adr), adr) == Same(c, adr)
  {
    hide Lookup, Fill, AdrLine, AdrOddEven, Shaped;
    BankBit(adr);
    FillShaped(Other(c, adr), mem, Plus(adr, 2));
  }

  /** The way that answers is the last one with the tag of the address. */
  lemma {:induction false} LastWay(b: Bank, index: nat, tag: nat, n: nat, way: nat)
    requires Shaped(b) && index < LINES_PER_WAY && way < n <= ICACHE_WAYS && b.ways[way][index].tag == tag
    requires forall m | way < m < n :: b.ways[m][index].tag != tag
    ensures HitWay(b, index, tag, n) == way
    decreases n
  {
    if way < n - 1 { LastWay(b, index, tag, n - 1, way); }
  }

  /** The cache after a run of accesses, and what they delivered. */
  function Run(c: Cache, mem: nat -> Byte, addrs: seq<Addr>): (r: (Cache, seq<Fetched>))
    requires Shaped(c.even) && Shaped(c.odd)
    ensures |r.1| == |addrs|
    decreases addrs
  {
    if addrs == [] then (c, [])
    else
      var c1 := Access(c, mem, addrs[0]);
      var (last, rest) := Run(c1, mem, addrs[1..]);
      (last, [Lookup(c1, addrs[0])] + rest)
  }

  /** Over every run from a coherent cache, every access delivers memory. */
  lemma {:induction false} RunTransparent(c: Cache, mem: nat -> Byte, addrs: seq<Addr>)
    requires Coherent(c, mem) && forall k | 0 <= k < |addrs| :: Within(mem, addrs[k])
    ensures Coherent(Run(c, mem, addrs).0, mem)
    ensures forall k | 0 <= k < |addrs| :: Delivered(Run(c, mem, addrs).1[k], mem, addrs[k])
    decreases addrs
  {
    CoherentShaped(c.even, 0, mem);
    CoherentShaped(c.odd, 1, mem);
    hide Access, Lookup, Coherent, Delivered, Shaped;
    if addrs != [] {
      Transparent(c, mem, addrs[0]);
      RunTransparent(Access(c, mem, addrs[0]), mem, addrs[1..]);
    }
  }

  /** Every run of accesses, at whatever addresses, delivers memory. */
  ghost predicate AlwaysFaithful(c: Cache, mem: nat -> Byte)
    requires Shaped(c.even) && Shaped(c.odd)
  {
    forall addrs: seq<Addr> :: RunDelivers(c, mem, addrs)
  }

  ghost predicate RunDelivers(c: Cache, mem: nat -> Byte, addrs: seq<Addr>)
    requires Shaped(c.even) && Shaped(c.odd)
  {
    forall k | 0 <= k < |addrs| :: Delivered(Run(c, mem, addrs).1[k], mem, addrs[k])
  }

  /** The tags are those of a 32-bit address: a coherent cache is transparent at every address if and only
      if memory repeats after 2^32 bytes. */
  lemma WholeRange(c: Cache, mem: nat -> Byte)
    requires Coherent(c, mem)
    ensures AlwaysFaithful(c, mem) <==> Repeats(mem)
  {
    hide Run, Shaped, Delivered, LineOf, Repeats, RunDelivers, BankCoherent;
    CoherentShaped(c.even, 0, mem);
    CoherentShaped(c.odd, 1, mem);
    if Repeats(mem) {
      forall addrs: seq<Addr> ensures RunDelivers(c, mem, addrs) { RunRepeats(c, mem, addrs); }
    }
    if AlwaysFaithful(c, mem) { FaithfulRepeats(c, mem); }
  }

  lemma RunRepeats(c: Cache, mem: nat -> Byte, addrs: seq<Addr>)
    requires Coherent(c, mem) && Shaped(c.even) && Shaped(c.odd) && Repeats(mem)
    ensures RunDelivers(c, mem, addrs)
  {
    hide Run, Shaped, Delivered, Repeats, Coherent;
    RunTransparent(c, mem, addrs);
  }

  /** A cache in whatever state that always delivers memory stands for memory that repeats: an access and
      the one 2^32 bytes above it find the same line. */
  lemma FaithfulRepeats(c: Cache, mem: nat -> Byte)
    requires Shaped(c.even) && Shaped(c.odd) && AlwaysFaithful(c, mem)
    ensures Repeats(mem)
  {
    hide Access, Lookup, Shaped, Run, Delivered, Mem16;
    hide RunDelivers, Repeats;
    forall a: Addr ensures mem(a) == mem(a % 0x1_0000_0000) {
      EvenLow(a);
      AliasedPair(c, mem, (a - a % 2) % 0x1_0000_0000, a - a % 2);
      EvenBytes(mem, a);
    }
    RepeatsIs(mem);
  }

  lemma RepeatsIs(mem: nat -> Byte)
    requires forall a: Addr :: mem(a) == mem(a % 0x1_0000_0000)
    ensures Repeats(mem)
  {
  }

  lemma EvenLow(a: nat)
    ensures (a - a % 2) % 2 == 0 && (a - a % 2) % 0x1_0000_0000 % 2 == 0
  {
  }

  lemma EvenBytes(mem: nat -> Byte, a: nat)
    requires Mem16(mem, a - a % 2) == Mem16(mem, (a - a % 2) % 0x1_0000_0000)
    ensures mem(a) == mem(a % 0x1_0000_0000)
  {
    var high := a - a % 2;
    var low := high % 0x1_0000_0000;
    assert a % 0x1_0000_0000 == low + a % 2;
    Bytes(mem(high), mem(high + 1), mem(low), mem(low + 1));
  }

  lemma Bytes(a: Byte, b: Byte, c: Byte, d: Byte)
    requires a + 256 * b == c + 256 * d
    ensures a == c && b == d
  {
  }

  /** Two even addresses 2^32 bytes apart: if both accesses deliver memory, memory is the same at both. */
  lemma AliasedPair(c: Cache, mem: nat -> Byte, low: Addr, high: Addr)
    requires Shaped(c.even) && Shaped(c.odd) && low == high % 0x1_0000_0000 && low % 2 == 0 && high % 2 == 0
    requires RunDelivers(c, mem, [low, high])
    ensures Mem16(mem, low) == Mem16(mem, high)
  {
    hide Access, Lookup, Shaped, Mem16, Run, Delivered;
    var c1, run := Access(c, mem, low), [low, high];
    RunTwo(c, mem, low, high);
    assert Delivered(Run(c, mem, run).1[0], mem, run[0]) && Delivered(Run(c, mem, run).1[1], mem, run[1]);
    hide RunDelivers;
    FirstDelivered(Lookup(c1, low), mem, low);
    FirstDelivered(Lookup(Access(c1, mem, high), high), mem, high);
    SamePlace(c1, mem, low, high);
  }

  lemma FirstDelivered(f: Fetched, mem: nat -> Byte, adr: nat)
    requires Delivered(f, mem, adr) && adr % 2 == 0
    ensures f.hit0 < ICACHE_WAYS && f.half0 == Mem16(mem, adr)
  {
  }

  lemma RunTwo(c: Cache, mem: nat -> Byte, a: Addr, b: Addr)
    requires Shaped(c.even) && Shaped(c.odd)
    ensures var c1 := Access(c, mem, a); Run(c, mem, [a, b]).1 == [Lookup(c1, a), Lookup(Access(c1, mem, b), b)]
  {
    hide Access, Lookup, Shaped;
    assert [a, b][1..] == [b] && [b][1..] == [];
  }

  /** Where the lower address hits, the access to the higher one finds the same half and keeps the bank. */
  lemma SamePlace(c: Cache, mem: nat -> Byte, low: Addr, high: Addr)
    requires Shaped(c.even) && Shaped(c.odd) && low == high % 0x1_0000_0000 && Lookup(c, low).hit0 < ICACHE_WAYS
    ensures Lookup(Access(c, mem, high), high).half0 == Lookup(c, low).half0
  {
    hide AdrTag, AdrIndex, AdrLine, AdrOddEven, AdrOffset, Fill, Shaped, HitWay, HalfAt;
    Wrapped(high);
    BankBit(high);
    FillShaped(Other(c, high), mem, Plus(high, 2));
  }

  /** Two addresses 2^32 bytes apart with different contents: the second access gets the first one's. */
  lemma AliasCounterexample(c: Cache, mem: nat -> Byte)
    requires Shaped(c.even) && Shaped(c.odd) && mem(0x1000) == 1 && mem(0x1_0000_1000) == 2
    ensures !RunDelivers(c, mem, [0x1000, 0x1_0000_1000])
  {
    hide Run, Shaped, RunDelivers, Mem16;
    if RunDelivers(c, mem, [0x1000, 0x1_0000_1000]) {
      AliasedPair(c, mem, 0x1000, 0x1_0000_1000);
      FirstBytes(mem, 0x1000, 0x1_0000_1000);
    }
  }

  lemma FirstBytes(mem: nat -> Byte, a: nat, b: nat)
    requires Mem16(mem, a) == Mem16(mem, b)
    ensures mem(a) == mem(b)
  {
    Bytes(mem(a), mem(a + 1), mem(b), mem(b + 1));
  }

  // ------------------------------------------------------------------ replacement order

  /** A row is a permutation of the four ways. */
  predicate Permutation(row: nat) {
    && row < 256
    && row % 4 != row / 4 % 4 && row % 4 != row / 16 % 4 && row % 4 != row / 64
    && row / 4 % 4 != row / 16 % 4 && row / 4 % 4 != row / 64 && row / 16 % 4 != row / 64
  }

  /** Rotating keeps the row a permutation; four fills in a row replace four different ways, and then
      the order starts again. */
  lemma RoundRobin(row: nat)
    requires Permutation(row)
    ensures Permutation(Rotate(row))
    ensures var v0, v1, v2, v3 := row % 4, Rotate(row) % 4, Rotate(Rotate(row)) % 4, Rotate(Rotate(Rotate(row))) % 4;
      v0 != v1 && v0 != v2 && v0 != v3 && v1 != v2 && v1 != v3 && v2 != v3
    ensures Rotate(Rotate(Rotate(Rotate(row)))) == row
  {
    hide Rotate, Permutation;
    var a, b, c, d := DigitsOf(row);
    RotateDigits(a, b, c, d);
    RotateDigits(b, c, d, a);
    RotateDigits(c, d, a, b);
    RotateDigits(d, a, b, c);
    PermutationDigits(b, c, d, a);
  }

  lemma DigitsOf(row: nat) returns (a: nat, b: nat, c: nat, d: nat)
    requires Permutation(row)
    ensures a < 4 && b < 4 && c < 4 && d < 4 && row == a + 4 * b + 16 * c + 64 * d
    ensures a != b && a != c && a != d && b != c && b != d && c != d
  {
    a, b, c, d := row % 4, row / 4 % 4, row / 16 % 4, row / 64;
    BaseFour(row);
  }

  lemma BaseFour(row: nat)
    requires row < 256
    ensures row == row % 4 + 4 * (row / 4 % 4) + 16 * (row / 16 % 4) + 64 * (row / 64)
  {
    var q, r := row / 4, row / 16;
    assert r == q / 4 && row / 64 == r / 4;
  }

  lemma PermutationDigits(a: nat, b: nat, c: nat, d: nat)
    requires a < 4 && b < 4 && c < 4 && d < 4
    ensures Permutation(a + 4 * b + 16 * c + 64 * d) <==> a != b && a != c && a != d && b != c && b != d && c != d
  {
    RotateDigits(a, b, c, d);
  }

  lemma RotateDigits(a: nat, b: nat, c: nat, d: nat)
    requires a < 4 && b < 4 && c < 4 && d < 4
    ensures var row := a + 4 * b + 16 * c + 64 * d;
      && Rotate(row) == b + 4 * c + 16 * d + 64 * a
      && row % 4 == a && row / 4 % 4 == b && row / 16 % 4 == c && row / 64 == d
  {
    var row := a + 4 * b + 16 * c + 64 * d;
    assert row / 4 == b + 4 * c + 16 * d && row / 16 == c + 4 * d;
  }

  ghost predicate Permutations(c: Cache) {
    && (forall i | 0 <= i < |c.even.lru| :: Permutation(c.even.lru[i]))
    && (forall i | 0 <= i < |c.odd.lru| :: Permutation(c.odd.lru[i]))
  }

  lemma {:induction false} RunPermutations(c: Cache, mem: nat -> Byte, addrs: seq<Addr>)
    requires Shaped(c.even) && Shaped(c.odd) && Permutations(c)
    ensures Permutations(Run(c, mem, addrs).0)
    decreases addrs
  {
    hide Permutation, Rotate, Lookup, AdrLine, LineOf;
    if addrs != [] {
      FillPermutations(c.even, mem, addrs[0]);
      FillPermutations(c.odd, mem, addrs[0]);
      FillPermutations(c.even, mem, Plus(addrs[0], 2));
      FillPermutations(c.odd, mem, Plus(addrs[0], 2));
      RunPermutations(Access(c, mem, addrs[0]), mem, addrs[1..]);
    }
  }

  lemma FillPermutations(b: Bank, mem: nat -> Byte, adr: nat)
    requires Shaped(b) && forall i | 0 <= i < |b.lru| :: Permutation(b.lru[i])
    ensures forall i | 0 <= i < |b.lru| :: Permutation(Fill(b, mem, adr).lru[i])
  {
    hide Permutation, Rotate;
    RoundRobin(b.lru[AdrIndex(adr)]);
  }

  function Digit(row: nat, p: nat): nat
    requires p < 4
  {
    if p == 0 then row % 4 else if p == 1 then row / 4 % 4 else if p == 2 then row / 16 % 4 else row / 64
  }

  /** A fill of the row moves a way one place towards the victim, and evicts no line but the victim's. */
  lemma FillKeeps(b: Bank, mem: nat -> Byte, adr: nat, i: nat, way: nat, p: nat)
    requires Shaped(b) && i < LINES_PER_WAY && way < ICACHE_WAYS && 0 < p < 4 && AdrIndex(adr) == i
    requires Permutation(b.lru[i]) && Digit(b.lru[i], p) == way
    ensures var r := Fill(b, mem, adr); Shaped(r) && r.ways[way][i] == b.ways[way][i] && Permutation(r.lru[i])
    ensures Digit(Fill(b, mem, adr).lru[i], p - 1) == way
  {
    hide LineOf, AdrIndex, Rotate, Permutation;
    FillShaped(b, mem, adr);
    var w, x, y, z := DigitsOf(b.lru[i]);
    RotateDigits(w, x, y, z);
    RotateDigits(x, y, z, w);
    RoundRobin(b.lru[i]);
  }

  /** How many of the fills go to the row. */
  function RowFills(fills: seq<nat>, i: nat): nat {
    if fills == [] then 0 else (if AdrIndex(fills[0]) == i then 1 else 0) + RowFills(fills[1..], i)
  }

  /** A line stays for as many fills of its row as there are ways to replace before its own, whatever else
      is fetched into the bank. */
  lemma {:induction false} Survives(b: Bank, mem: nat -> Byte, i: nat, way: nat, p: nat, fills: seq<nat>)
    requires Shaped(b) && i < LINES_PER_WAY && way < ICACHE_WAYS && p < 4
    requires Permutation(b.lru[i]) && Digit(b.lru[i], p) == way && RowFills(fills, i) <= p
    ensures Fills(b, mem, fills).ways[way][i] == b.ways[way][i]
    decreases fills
  {
    hide Permutation, Digit, Fill, LineOf, AdrIndex;
    if fills != [] {
      var r := Fill(b, mem, fills[0]);
      if AdrIndex(fills[0]) != i {
        OtherRow(b, mem, fills[0], i, way);
        Survives(r, mem, i, way, p, fills[1..]);
      } else {
        FillKeeps(b, mem, fills[0], i, way, p);
        Survives(r, mem, i, way, p - 1, fills[1..]);
      }
    }
  }

  lemma OtherRow(b: Bank, mem: nat -> Byte, adr: nat, i: nat, way: nat)
    requires Shaped(b) && i < LINES_PER_WAY && way < ICACHE_WAYS && AdrIndex(adr) != i
    ensures var r := Fill(b, mem, adr); Shaped(r) && r.ways[way][i] == b.ways[way][i] && r.lru[i] == b.lru[i]
  {
    hide LineOf, AdrIndex;
    FillShaped(b, mem, adr);
  }

  function Fills(b: Bank, mem: nat -> Byte, fills: seq<nat>): (r: Bank)
    requires Shaped(b)
    ensures Shaped(r)
    decreases fills
  {
    if fills == [] then b
    else
      FillShaped(b, mem, fills[0]);
      Fills(Fill(b, mem, fills[0]), mem, fills[1..])
  }

  /** The line just fetched is still there after any further fills of its bank, as long as no more than
      three of them go to its row. */
  lemma FetchedStays(b: Bank, mem: nat -> Byte, adr: nat, fills: seq<nat>)
    requires Shaped(b) && Permutation(b.lru[AdrIndex(adr)]) && RowFills(fills, AdrIndex(adr)) <= 3
    ensures Shaped(Fill(b, mem, adr))
    ensures Fills(Fill(b, mem, adr), mem, fills).ways[b.lru[AdrIndex(adr)] % 4][AdrIndex(adr)] == LineOf(mem, adr)
  {
    hide LineOf, AdrIndex, Rotate, Permutation, Fills;
    var i := AdrIndex(adr);
    FillShaped(b, mem, adr);
    RoundRobin(b.lru[i]);
    var w, x, y, z := DigitsOf(b.lru[i]);
    RotateDigits(w, x, y, z);
    RotateDigits(x, y, z, w);
    Survives(Fill(b, mem, adr), mem, i, w, 3, fills);
  }

  // ------------------------------------------------------------------ the power-up state

  /** With no possible tag anywhere, the cache is coherent whatever the memory is. */
  lemma EmptyCoherent(c: Cache, mem: nat -> Byte)
    requires Shaped(c.even) && Shaped(c.odd)
    requires forall n, i | 0 <= n < ICACHE_WAYS && 0 <= i < LINES_PER_WAY ::
      c.even.ways[n][i].tag >= 0x10_0000 && c.odd.ways[n][i].tag >= 0x10_0000
    ensures Coherent(c, mem)
  {
    hide LineOf;
  }

  /** The constructor leaves the tags as it finds them; lines that start as zeros claim the first 4 KB. */
  ghost predicate Zeroed(c: Cache) {
    && Shaped(c.even) && Shaped(c.odd)
    && forall n, i | 0 <= n < ICACHE_WAYS && 0 <= i < LINES_PER_WAY ::
         c.even.ways[n][i] == Line(0, [0, 0, 0, 0]) && c.odd.ways[n][i] == Line(0, [0, 0, 0, 0])
  }

  /** Every run of accesses below the top of memory delivers memory. */
  ghost predicate Faithful(c: Cache, mem: nat -> Byte)
    requires Shaped(c.even) && Shaped(c.odd)
  {
    forall addrs: seq<Addr> :: AllBelow(addrs) ==> RunDelivers(c, mem, addrs)
  }

  ghost predicate AllBelow(addrs: seq<Addr>) {
    forall k | 0 <= k < |addrs| :: addrs[k] < 0xFFFF_FFFE
  }

  /** A zeroed cache is transparent if and only if the first 4 KB of memory are zero. */
  lemma ZeroedCache(c: Cache, mem: nat -> Byte)
    requires Zeroed(c)
    ensures Faithful(c, mem) <==> forall a: nat | a < 4096 :: mem(a) == 0
  {
    hide Run, Shaped, Coherent, Delivered, LineOf;
    if forall a: nat | a < 4096 :: mem(a) == 0 {
      ZeroMemoryCoherent(c, mem);
      forall addrs: seq<Addr> | AllBelow(addrs) ensures RunDelivers(c, mem, addrs) { RunTransparent(c, mem, addrs); }
    } else {
      var a: nat :| a < 4096 && mem(a) != 0;
      FirstReadLies(c, mem, a);
    }
  }

  /** The same over all addresses. */
  lemma ZeroedWholeRange(c: Cache, mem: nat -> Byte)
    requires Zeroed(c)
    ensures AlwaysFaithful(c, mem) <==> Repeats(mem) && forall a: nat | a < 4096 :: mem(a) == 0
  {
    hide RunDelivers, Shaped, Coherent, Repeats, Zeroed, AllBelow;
    assert Shaped(c.even) && Shaped(c.odd) by { ZeroedShaped(c); }
    if AlwaysFaithful(c, mem) {
      assert Faithful(c, mem);
      ZeroedCache(c, mem);
      FaithfulRepeats(c, mem);
    }
    if Repeats(mem) && forall a: nat | a < 4096 :: mem(a) == 0 {
      ZeroMemoryCoherent(c, mem);
      WholeRange(c, mem);
    }
  }

  lemma ZeroedShaped(c: Cache)
    requires Zeroed(c)
    ensures Shaped(c.even) && Shaped(c.odd)
  {
  }

  lemma ZeroMemoryCoherent(c: Cache, mem: nat -> Byte)
    requires Zeroed(c) && forall a: nat | a < 4096 :: mem(a) == 0
    ensures Coherent(c, mem)
  {
    hide LineCoherent;
    forall bank: nat, i: nat | bank < 2 && i < LINES_PER_WAY
      ensures LineCoherent(Line(0, [0, 0, 0, 0]), bank, i, mem)
    {
      ZeroLineCoherent(mem, bank, i);
    }
  }

  lemma ZeroLineCoherent(mem: nat -> Byte, bank: nat, i: nat)
    requires bank < 2 && i < LINES_PER_WAY && forall a: nat | a < 4096 :: mem(a) == 0
    ensures LineCoherent(Line(0, [0, 0, 0, 0]), bank, i, mem)
  {
    hide LineOf;
    ZeroLine(mem, 64 * i + 32 * bank);
  }

  lemma ZeroLine(mem: nat -> Byte, adr: nat)
    requires adr % 32 == 0 && adr < 4096 && forall a: nat | a < 4096 :: mem(a) == 0
    ensures LineOf(mem, adr) == Line(0, [0, 0, 0, 0])
  {
    assert adr + 32 <= 4096;
    assert forall i: nat | i < 4 :: Mem64(mem, adr + 8 * i) == 0;
  }

  /** The one access that reaches a nonzero byte of the first 4 KB hits a zeroed line. */
  lemma FirstReadLies(c: Cache, mem: nat -> Byte, a: nat)
    requires Zeroed(c) && a < 4096 && mem(a) != 0
    ensures AllBelow([a - a % 2]) && !RunDelivers(c, mem, [a - a % 2])
  {
    hide Access, Lookup, Shaped, Run;
    var adr := a - a % 2;
    assert adr == a || adr + 1 == a;
    ZeroHit(c, mem, adr);
    RunOne(c, mem, adr);
    assert Mem16(mem, adr - adr % 2) != 0;
    assert !Delivered(Run(c, mem, [adr]).1[0], mem, [adr][0]);
  }

  lemma RunOne(c: Cache, mem: nat -> Byte, adr: Addr)
    requires Shaped(c.even) && Shaped(c.odd)
    ensures Run(c, mem, [adr]).1 == [Lookup(Access(c, mem, adr), adr)]
  {
    hide Access, Lookup, Shaped;
    assert [adr][1..] == [];
  }

  lemma ZeroHit(c: Cache, mem: nat -> Byte, adr: nat)
    requires Zeroed(c) && adr < 4096
    ensures Lookup(Access(c, mem, adr), adr).half0 == 0
  {
    hide Fill, Shaped, AdrLine, HitWay;
    BankBit(adr);
    assert AdrTag(adr) == 0;
    hide AdrTag, AdrIndex, AdrOddEven;
    ZeroSelect(Same(c, adr), adr, AdrOffset(adr));
    FillShaped(Other(c, adr), mem, Plus(adr, 2));
  }

  lemma ZeroSelect(b: Bank, adr: nat, off: nat)
    requires Shaped(b) && AdrTag(adr) == 0
    requires forall n | 0 <= n < ICACHE_WAYS :: b.ways[n][AdrIndex(adr)] == Line(0, [0, 0, 0, 0])
    ensures Select(b, adr, off).half0 == 0 && Select(b, adr, off).hit < ICACHE_WAYS
  {
    hide AdrTag, AdrIndex;
    assert b.ways[3][AdrIndex(adr)].tag == 0;
  }

  // ------------------------------------------------------------------ the cache in place

  predicate Distinct(ways: seq<array<Line>>) {
    forall m, n | 0 <= m < n < |ways| :: ways[m] != ways[n]
  }

  ghost function BankOf(ways: seq<array<Line>>, lru: array<nat>): (b: Bank)
    reads ways, lru
    ensures |b.ways| == |ways| && (forall n | 0 <= n < |ways| :: b.ways[n] == ways[n][..]) && b.lru == lru[..]
  {
    Bank(seq(|ways|, n requires 0 <= n < |ways| reads ways => ways[n][..]), lru[..])
  }

  lemma OneHot(i: nat, k: nat)
    requires i < 4 && k < 4
    ensures Strobe(1 as bv8 << i, k) <==> i == k
  {
    assert (i == 0 || i == 1 || i == 2 || i == 3) && (k == 0 || k == 1 || k == 2 || k == 3);
  }

  predicate Strobe(wstrb: bv8, i: nat)
    requires i < 4
  {
    wstrb & (1 << i) != 0
  }

  /** WayMemType::writeLine. */
  method WriteLine(lines: array<Line>, index: nat, tag: nat, wstrb: bv8, wdata: nat)
    requires index < lines.Length && |lines[index].mem64| == 4
    modifies lines
    ensures forall k | 0 <= k < lines.Length && k != index :: lines[k] == old(lines[k])
    ensures |lines[index].mem64| == 4
    ensures forall i: nat | i < 4 ::
      lines[index].mem64[i] == if Strobe(wstrb, i) then wdata else old(lines[index].mem64[i])
    ensures lines[index].tag == if exists i: nat :: i < 4 && Strobe(wstrb, i) then tag else old(lines[index].tag)
  {
    hide Strobe;
    ghost var was := lines[index];
    for i := 0 to 4
      invariant |lines[index].mem64| == 4
      invariant forall k | 0 <= k < lines.Length && k != index :: lines[k] == old(lines[k])
      invariant forall k: nat | k < 4 ::
        lines[index].mem64[k] == if k < i && Strobe(wstrb, k) then wdata else was.mem64[k]
      invariant lines[index].tag == if exists k: nat :: k < i && Strobe(wstrb, k) then tag else was.tag
    {
      if Strobe(wstrb, i) {
        lines[index] := lines[index].(tag := tag, mem64 := lines[index].mem64[i := wdata]);
      }
    }
  }

  /** WayMemType::readTagValue. */
  method ReadTagValue(lines: array<Line>, index: nat, off: nat) returns (tag: nat, half0: nat, half1: nat)
    requires index < lines.Length && |lines[index].mem64| == 4
    ensures tag == lines[index].tag && half0 == HalfAt(lines[index], off) && half1 == HalfAt(lines[index], off + 2)
  {
    tag := lines[index].tag;
    var wcnt, bcnt := off / 8 % 4, off / 2 % 4;
    half0 := Half(lines[index].mem64[wcnt], bcnt);
    wcnt, bcnt := (off + 2) / 8 % 4, (off + 2) / 2 % 4;
    half1 := Half(lines[index].mem64[wcnt], bcnt);
  }

  /** readLine: four beats of eight bytes into one way. */
  method ReadLine(mem: nat -> Byte, adr: nat, way: array<Line>)
    requires way.Length == LINES_PER_WAY && |way[AdrIndex(adr)].mem64| == 4
    modifies way
    ensures way[..] == old(way[..])[AdrIndex(adr) := LineOf(mem, adr)]
  {
    hide Mem64;
    var index, tag := AdrIndex(adr), AdrTag(adr);
    var wstrb: bv8, addr := 1, adr - adr % 32;
    for burst := 0 to 4
      invariant addr == adr - adr % 32 + 8 * burst && wstrb == 1 as bv8 << burst
      invariant |way[index].mem64| == 4 && (burst > 0 ==> way[index].tag == tag)
      invariant forall k | 0 <= k < way.Length && k != index :: way[k] == old(way[k])
      invariant forall i | 0 <= i < burst :: way[index].mem64[i] == Mem64(mem, adr - adr % 32 + 8 * i)
    {
      forall i: nat | i < 4 ensures Strobe(wstrb, i) <==> i == burst { OneHot(burst, i); }
      assert Strobe(wstrb, burst);
      WriteLine(way, index, tag, wstrb, Mem64(mem, addr));
      wstrb := wstrb << 1;
      addr := addr + 8;
      Shifted(burst);
    }
    assert way[index] == LineOf(mem, adr);
  }

  lemma Shifted(k: nat)
    requires k < 4
    ensures (1 as bv8 << k) << 1 == 1 as bv8 << (k + 1)
  {
    assert k == 0 || k == 1 || k == 2 || k == 3;
  }

  /** Takes the next victim of the row and fetches the line into it. */
  method Replace(mem: nat -> Byte, ways: seq<array<Line>>, tbl: array<nat>, adr: nat)
    requires Distinct(ways) && Shaped(BankOf(ways, tbl))
    modifies ways, tbl
    ensures BankOf(ways, tbl) == Fill(old(BankOf(ways, tbl)), mem, adr)
  {
    hide LineOf, AdrIndex;
    ghost var was := BankOf(ways, tbl);
    var index := AdrIndex(adr);
    var lru := tbl[index] % 4;
    assert forall n | 0 <= n < |ways| :: ways[n][..] == was.ways[n];
    tbl[index] := tbl[index] / 4;
    tbl[index] := tbl[index] % 64 + 64 * lru;
    assert was.ways[lru][index] == ways[lru][index];
    ReadLine(mem, adr, ways[lru]);
    ghost var now := BankOf(ways, tbl);
    assert now.ways == Fill(was, mem, adr).ways;
    assert now.lru == Fill(was, mem, adr).lru;
  }

  /** The way muxes of one bank: every way is read, the last one with a matching tag is selected. */
  method SelectWay(ways: seq<array<Line>>, ghost tbl: array<nat>, adr: nat, off: nat)
    returns (hit: nat, half0: nat, half1: nat)
    requires Shaped(BankOf(ways, tbl))
    ensures Selected(hit, half0, half1) == Select(BankOf(ways, tbl), adr, off)
  {
    hide AdrTag, AdrIndex, HalfAt;
    ghost var b := BankOf(ways, tbl);
    var tag, index := AdrTag(adr), AdrIndex(adr);
    hit, half0, half1 := ICACHE_WAYS, 0, 0;
    for n := 0 to ICACHE_WAYS
      invariant hit == HitWay(b, index, tag, n)
      invariant hit == ICACHE_WAYS ==> half0 == 0 && half1 == 0
      invariant hit < ICACHE_WAYS ==>
        half0 == HalfAt(b.ways[hit][index], off) && half1 == HalfAt(b.ways[hit][index], off + 2)
    {
      assert b.ways[n][index] == ways[n][index];
      var memTag, buf0, buf1 := ReadTagValue(ways[n], index, off);
      if memTag == tag {
        hit, half0, half1 := n, buf0, buf1;
      }
    }
  }

  /** The order 0, 1, 2, 3: way 0 is replaced next. */
  predicate InOrder(row: nat) {
    Digit(row, 0) == 0 && Digit(row, 1) == 1 && Digit(row, 2) == 2 && Digit(row, 3) == 3
  }

  lemma InitialRow()
    ensures InOrder(0xE4)
    ensures Permutation(0xE4)
  {
  }

  /** The cache with its four arrays of even lines, four of odd lines and two replacement tables. */
  class ICacheFunctional {
    const mem: nat -> Byte
    const wayEven: seq<array<Line>>
    const wayOdd: seq<array<Line>>
    const tblLruEven: array<nat>
    const tblLruOdd: array<nat>

    ghost predicate Valid()
      reads this, wayEven, wayOdd, tblLruEven, tblLruOdd
    {
      && tblLruEven != tblLruOdd && Distinct(wayEven) && Distinct(wayOdd)
      && (forall m, n | 0 <= m < |wayEven| && 0 <= n < |wayOdd| :: wayEven[m] != wayOdd[n])
      && Shaped(State().even) && Shaped(State().odd)
    }

    ghost function State(): Cache
      reads this, wayEven, wayOdd, tblLruEven, tblLruOdd
    {
      Cache(BankOf(wayEven, tblLruEven), BankOf(wayOdd, tblLruOdd))
    }

    /** Sets the replacement order to 3, 2, 1, 0 in every row. The ways keep whatever they hold. */
    constructor (mem: nat -> Byte, wayEven: seq<array<Line>>, wayOdd: seq<array<Line>>)
      requires Distinct(wayEven) && Distinct(wayOdd) && |wayEven| == ICACHE_WAYS && |wayOdd| == ICACHE_WAYS
      requires forall m, n | 0 <= m < |wayEven| && 0 <= n < |wayOdd| :: wayEven[m] != wayOdd[n]
      requires forall n | 0 <= n < ICACHE_WAYS ::
        wayEven[n].Length == LINES_PER_WAY && wayOdd[n].Length == LINES_PER_WAY
      requires forall n, i | 0 <= n < ICACHE_WAYS && 0 <= i < LINES_PER_WAY ::
        |wayEven[n][i].mem64| == 4 && |wayOdd[n][i].mem64| == 4
      ensures Valid() && Permutations(State())
      ensures forall i | 0 <= i < LINES_PER_WAY :: InOrder(tblLruEven[i]) && InOrder(tblLruOdd[i])
      ensures this.mem == mem && this.wayEven == wayEven && this.wayOdd == wayOdd
      ensures fresh(tblLruEven) && fresh(tblLruOdd)
    {
      this.mem, this.wayEven, this.wayOdd := mem, wayEven, wayOdd;
      tblLruEven := new nat[LINES_PER_WAY](_ => 0xE4);
      tblLruOdd := new nat[LINES_PER_WAY](_ => 0xE4);
      new;
      hide Permutation, BankOf, InOrder;
      InitialRow();
    }

    /** getCachedValue: the two halves at addr and the ways they were found in. */
    method GetCachedValue(addr: Addr) returns (f: Fetched)
      requires Valid()
      ensures f == Lookup(State(), addr)
    {
      hide Select, Shaped, AdrTag, AdrIndex, AdrLine, BankOf;
      var lineAdr, lineAdrOverlay := AdrLine(addr), AdrLine(Plus(addr, 32));
      var addr5 := AdrOddEven(addr);
      var useOverlay := addr / 2 % 16 == 15;
      assert useOverlay <==> Crossing(addr) by { Overlay(addr); }
      var evenAdr := if addr5 == 0 then lineAdr else lineAdrOverlay;
      var oddAdr := if addr5 == 0 then lineAdrOverlay else lineAdr;
      var evenOff := if addr5 == 0 then AdrOffset(addr) else 0;
      var oddOff := if addr5 == 0 then 0 else AdrOffset(addr);
      var evenHit, even0, even1 := SelectWay(wayEven, tblLruEven, evenAdr, evenOff);
      var oddHit, odd0, odd1 := SelectWay(wayOdd, tblLruOdd, oddAdr, oddOff);
      SelectLine(State().even, addr, evenOff);
      SelectLine(State().even, Plus(addr, 32), evenOff);
      SelectLine(State().odd, addr, oddOff);
      SelectLine(State().odd, Plus(addr, 32), oddOff);
      if addr5 == 0 {
        if !useOverlay {
          f := Fetched(evenHit, evenHit, even0, even1);
        } else {
          f := Fetched(evenHit, oddHit, even0, odd0);
        }
      } else {
        if !useOverlay {
          f := Fetched(oddHit, oddHit, odd0, odd1);
        } else {
          f := Fetched(oddHit, evenHit, odd0, even0);
        }
      }
    }

    /** b_transport: the state moves by Access and the answer is looked up afterwards; from a coherent
        state that answer is memory. */
    method BTransport(addr: Addr) returns (f: Fetched)
      requires Valid()
      modifies wayEven, wayOdd, tblLruEven, tblLruOdd
      ensures Valid() && State() == Access(old(State()), mem, addr) && f == Lookup(State(), addr)
      ensures Coherent(old(State()), mem) && Within(mem, addr) ==>
        Coherent(State(), mem) && Delivered(f, mem, addr)
    {
      hide Lookup, Fill, Shaped, AdrLine, BankOf, Coherent, Delivered, AdrOddEven;
      BankBit(addr);
      ghost var was := State();
      var addr5 := AdrOddEven(addr);
      var hit := GetCachedValue(addr);
      FillShaped(was.even, mem, addr);
      FillShaped(was.odd, mem, addr);
      FillShaped(was.even, mem, Plus(addr, 2));
      FillShaped(was.odd, mem, Plus(addr, 2));
      if hit.hit0 == ICACHE_WAYS {
        if addr5 == 0 {
          Replace(mem, wayEven, tblLruEven, addr);
        } else {
          Replace(mem, wayOdd, tblLruOdd, addr);
        }
      }
      if hit.hit1 == ICACHE_WAYS && AdrLine(addr) != AdrLine(Plus(addr, 2)) {
        if addr5 == 1 {
          Replace(mem, wayEven, tblLruEven, Plus(addr, 2));
        } else {
          Replace(mem, wayOdd, tblLruOdd, Plus(addr, 2));
        }
      }
      f := GetCachedValue(addr);
      if Coherent(was, mem) && Within(mem, addr) {
        Transparent(was, mem, addr);
      }
    }
  }

  lemma Overlay(addr: nat)
    ensures addr / 2 % 16 == 15 <==> Crossing(addr)
  {
    assert addr == 32 * (addr / 32) + addr % 32;
    assert addr / 2 == 16 * (addr / 32) + addr % 32 / 2;
  }

  lemma SelectLine(b: Bank, adr: nat, off: nat)
    requires Shaped(b)
    ensures Select(b, AdrLine(adr), off) == Select(b, adr, off)
  {
    LineSlices(adr);
    hide AdrTag, AdrIndex, AdrLine, HitWay, HalfAt;
  }
}
