/** Thumb PUSH and POP (encoding T1) of a register list, and the PC load at the end of POP. */
module PushPop {
  import opened Bits

  type Byte = b: nat | b < 256

  const SP: nat := 13
  const LR: nat := 14
  const PC: nat := 15
  const REG_TOTAL: nat := 16
  const WORD: nat := 0x1_0000_0000
  const DOUBLE: nat := 0x1_0000_0000_0000_0000

  // ------------------------------------------------------------------ memory

  function Load32(mem: nat -> Byte, a: nat): (w: nat)
    ensures w < WORD
  {
    mem(a) + 0x100 * mem(a + 1) + 0x1_0000 * mem(a + 2) + 0x100_0000 * mem(a + 3)
  }

  function Store32(mem: nat -> Byte, a: nat, w: nat): nat -> Byte {
    (x: nat) => if x == a then w % 0x100
                else if x == a + 1 then w / 0x100 % 0x100
                else if x == a + 2 then w / 0x1_0000 % 0x100
                else if x == a + 3 then w / 0x100_0000 % 0x100
                else mem(x)
  }

  lemma LoadStored(mem: nat -> Byte, a: nat, w: nat)
    ensures Load32(Store32(mem, a, w), a) == w % WORD
  {
    var q0, q1, q2 := w / 0x100, w / 0x1_0000, w / 0x100_0000;
    assert q1 == q0 / 0x100 && q2 == q1 / 0x100;
    assert w == 0x100 * q0 + w % 0x100 && q0 == 0x100 * q1 + q0 % 0x100 && q1 == 0x100 * q2 + q1 % 0x100;
    assert q2 == 0x100 * (q2 / 0x100) + q2 % 0x100 && w / WORD == q2 / 0x100;
  }

  lemma LoadUntouched(mem: nat -> Byte, next: nat -> Byte, a: nat)
    requires forall x: nat | a <= x < a + 4 :: next(x) == mem(x)
    ensures Load32(next, a) == Load32(mem, a)
  {
  }

  /** The four bytes from a address on are those of a word, the lowest one first. */
  ghost predicate Bytes(mem: nat -> Byte, a: nat, w: nat) {
    && mem(a) == w % 0x100 && mem(a + 1) == w / 0x100 % 0x100
    && mem(a + 2) == w / 0x1_0000 % 0x100 && mem(a + 3) == w / 0x100_0000 % 0x100
  }

  /** The word of four bytes, the lowest one first. */
  ghost function WordAt(mem: nat -> Byte, a: nat): nat {
    0x100_0000 * mem(a + 3) + 0x1_0000 * mem(a + 2) + 0x100 * mem(a + 1) + mem(a)
  }

  lemma LoadWord(mem: nat -> Byte, a: nat)
    ensures Load32(mem, a) == WordAt(mem, a)
  {
  }

  /** A load gives the word whose bytes are there, up to 32 bits. */
  lemma LoadBytes(mem: nat -> Byte, a: nat, w: nat)
    ensures Load32(mem, a) == w % WORD <==> Bytes(mem, a, w)
  {
    var b0, b1, b2, b3 := w % 0x100, w / 0x100 % 0x100, w / 0x1_0000 % 0x100, w / 0x100_0000 % 0x100;
    LoadStored(mem, a, w);
    assert w % WORD == b0 + 0x100 * b1 + 0x1_0000 * b2 + 0x100_0000 * b3;
    if Load32(mem, a) == w % WORD { SameBytes(mem(a), mem(a + 1), mem(a + 2), mem(a + 3), b0, b1, b2, b3); }
  }

  lemma SameBytes(a: Byte, b: Byte, c: Byte, d: Byte, e: Byte, f: Byte, g: Byte, h: Byte)
    requires a + 0x100 * b + 0x1_0000 * c + 0x100_0000 * d == e + 0x100 * f + 0x1_0000 * g + 0x100_0000 * h
    ensures a == e && b == f && c == g && d == h
  {
  }

  // ------------------------------------------------------------------ register lists

  /** Bit i of the instruction: register i is in the list; bit 8 adds LR on push and PC on pop. */
  predicate Listed(instr: nat, i: nat) {
    instr / Pow2(i) % 2 == 1
  }

  function Extra(instr: nat): nat { if Listed(instr, 8) then 1 else 0 }

  /** Listed registers from i to 7. */
  function Above(instr: nat, i: nat): (n: nat)
    requires i <= 8
    ensures n <= 8 - i
    decreases 8 - i
  {
    if i == 8 then 0 else (if Listed(instr, i) then 1 else 0) + Above(instr, i + 1)
  }

  /** Bytes a push needs below the stack pointer. */
  function Frame(instr: nat): nat { 4 * (Above(instr, 0) + Extra(instr)) }

  /** How far below the old stack pointer register i is saved. */
  function Depth(instr: nat, i: nat): nat
    requires i <= 8
  {
    4 * (Above(instr, i) + Extra(instr))
  }

  lemma {:induction false} AboveMonotone(instr: nat, i: nat, j: nat)
    requires i <= j <= 8
    ensures Above(instr, i) >= Above(instr, j) + if i < j && Listed(instr, i) then 1 else 0
    decreases j - i
  {
    hide Listed;
    if i < j { AboveMonotone(instr, i + 1, j); }
  }

  /** How far above its stack pointer a pop finds register i. */
  function Height(instr: nat, i: nat): nat
    requires i <= 8
  {
    AboveMonotone(instr, 0, i);
    4 * (Above(instr, 0) - Above(instr, i))
  }

  /** The listed registers from i up to, not including, j. */
  ghost function ListedFrom(instr: nat, i: nat, j: nat): set<nat> {
    set k: nat | i <= k < j && Listed(instr, k)
  }

  lemma {:induction false} AboveCounts(instr: nat, i: nat)
    requires i <= 8
    ensures Above(instr, i) == |ListedFrom(instr, i, 8)|
    decreases 8 - i
  {
    hide Listed;
    if i < 8 {
      AboveCounts(instr, i + 1);
      var rest := ListedFrom(instr, i + 1, 8);
      assert ListedFrom(instr, i, 8) == if Listed(instr, i) then {i} + rest else rest;
    }
  }

  /** The frame has one word for every listed register and LR; below register i in it are the words of the
      listed registers with lower numbers. */
  lemma FrameLayout(instr: nat, i: nat)
    requires i <= 8
    ensures Frame(instr) == 4 * |ListedFrom(instr, 0, 9)|
    ensures Height(instr, i) == 4 * |ListedFrom(instr, 0, i)|
    ensures Frame(instr) - Height(instr, i) == Depth(instr, i)
  {
    hide Listed, Above, ListedFrom;
    AboveCounts(instr, 0);
    AboveCounts(instr, i);
    SplitAt(instr, i);
    WithLink(instr);
  }

  lemma SplitAt(instr: nat, i: nat)
    requires i <= 8
    ensures |ListedFrom(instr, 0, 8)| == |ListedFrom(instr, 0, i)| + |ListedFrom(instr, i, 8)|
  {
    hide Listed;
    var low, high := ListedFrom(instr, 0, i), ListedFrom(instr, i, 8);
    assert ListedFrom(instr, 0, 8) == low + high && low !! high;
  }

  lemma WithLink(instr: nat)
    ensures |ListedFrom(instr, 0, 9)| == |ListedFrom(instr, 0, 8)| + Extra(instr)
  {
    hide Listed;
    var all := ListedFrom(instr, 0, 8);
    assert ListedFrom(instr, 0, 9) == if Listed(instr, 8) then all + {8} else all;
  }

  // ------------------------------------------------------------------ the two instructions as relations

  /** Processor state: general registers, memory, instruction set, and the pending control transfer. */
  datatype Transfer = Sequential | Branch(to: nat) | ExceptionReturn(code: nat)

  datatype Cpu = Cpu(R: seq<nat>, mem: nat -> Byte, thumb: bool, transfer: Transfer)

  ghost predicate Well(s: Cpu) { |s.R| == REG_TOTAL && forall k | 0 <= k < REG_TOTAL :: s.R[k] < WORD }

  /** The address a push uses at a depth below the stack pointer, in 64 bits. */
  function Slot(sp: nat, depth: nat): nat {
    (sp - depth) % DOUBLE
  }

  /** The bytes a push of n bytes may write: below the stack pointer, and at the top of the address range
      when the frame wraps. */
  predicate InFrame(sp: nat, n: nat, x: nat) {
    (x < sp && sp <= x + n) || (sp < n && DOUBLE + sp - n <= x < DOUBLE + 3)
  }

  /** What a push does. */
  ghost predicate Pushed(s: Cpu, t: Cpu, instr: nat)
    requires |s.R| == REG_TOTAL
  {
    var sp := s.R[SP];
    && t == s.(R := s.R[SP := Slot(sp, Frame(instr))], mem := t.mem)
    && (forall i | 0 <= i < 8 && Listed(instr, i) :: Load32(t.mem, Slot(sp, Depth(instr, i))) == s.R[i] % WORD)
    && (Listed(instr, 8) ==> Load32(t.mem, Slot(sp, 4)) == s.R[LR] % WORD)
    && (forall x: nat | !InFrame(sp, Frame(instr), x) :: t.mem(x) == s.mem(x))
  }

  /** What a push leaves in memory, byte by byte: LR and the listed registers, each in its slot. */
  lemma PushedBytes(s: Cpu, t: Cpu, instr: nat, i: nat)
    requires |s.R| == REG_TOTAL && Pushed(s, t, instr) && i <= 8 && Listed(instr, i)
    ensures Bytes(t.mem, Slot(s.R[SP], Depth(instr, i)), if i == 8 then s.R[LR] else s.R[i])
  {
    hide Listed, Load32, Bytes, Slot;
    LoadBytes(t.mem, Slot(s.R[SP], Depth(instr, i)), if i == 8 then s.R[LR] else s.R[i]);
  }

  /** LoadWritePC: an exception return, or a branch in the mode of bit 0. */
  function Loaded(s: Cpu, npc: nat): (r: Cpu)
    requires |s.R| == REG_TOTAL
    ensures |r.R| == REG_TOTAL
  {
    if npc / 0x80 == 0x1FF_FFFF then s.(transfer := ExceptionReturn(npc))
    else s.(thumb := npc % 2 == 1, R := s.R[PC := npc - npc % 2], transfer := Branch(npc - npc % 2))
  }

  /** Register i after a pop. */
  function PoppedReg(s: Cpu, instr: nat, i: nat): nat
    requires |s.R| == REG_TOTAL && i < 8
  {
    if Listed(instr, i) then Load32(s.mem, (s.R[SP] + Height(instr, i)) % WORD) else s.R[i]
  }

  /** The registers after a pop, before PC is loaded. */
  function PoppedRegs(s: Cpu, instr: nat): (r: seq<nat>)
    requires |s.R| == REG_TOTAL
    ensures |r| == REG_TOTAL
  {
    seq(REG_TOTAL, i requires 0 <= i < REG_TOTAL =>
      if i < 8 then PoppedReg(s, instr, i) else if i == SP then (s.R[SP] + Frame(instr)) % WORD else s.R[i])
  }

  /** What a pop does, in 32-bit addresses. */
  function Popped(s: Cpu, instr: nat): (r: Cpu)
    requires |s.R| == REG_TOTAL
    ensures |r.R| == REG_TOTAL
  {
    var t := s.(R := PoppedRegs(s, instr));
    if Listed(instr, 8) then Loaded(t, Load32(s.mem, (s.R[SP] + Height(instr, 8)) % WORD)) else t
  }

  /** After a pop every listed register holds the four bytes of its word, and execution goes on at the word
      for PC, in the mode of its bit 0, or takes an exception return. */
  ghost predicate HoldsWords(s: Cpu, t: Cpu, instr: nat)
    requires |s.R| == REG_TOTAL && |t.R| == REG_TOTAL
  {
    && (forall i | 0 <= i < 8 && Listed(instr, i) :: t.R[i] == WordAt(s.mem, (s.R[SP] + Height(instr, i)) % WORD))
    && (Listed(instr, 8) ==>
          var npc := WordAt(s.mem, (s.R[SP] + Height(instr, 8)) % WORD);
          if npc >= 0xFFFF_FF80 then t.transfer == ExceptionReturn(npc)
          else t.R[PC] == npc - npc % 2 && t.thumb == (npc % 2 == 1) && t.transfer == Branch(npc - npc % 2))
  }

  lemma PoppedWords(s: Cpu, instr: nat)
    requires |s.R| == REG_TOTAL
    ensures HoldsWords(s, Popped(s, instr), instr)
  {
    hide Listed, Load32, Height, WordAt;
    forall a: nat ensures Load32(s.mem, a) == WordAt(s.mem, a) { LoadWord(s.mem, a); }
    ExceptionRange(Load32(s.mem, (s.R[SP] + Height(instr, 8)) % WORD));
  }

  /** Nobody has touched the stack pointer and the pushed bytes. */
  ghost predicate KeepsFrame(s: Cpu, t: Cpu, u: Cpu, instr: nat)
    requires |s.R| == REG_TOTAL && |t.R| == REG_TOTAL
  {
    && |u.R| == REG_TOTAL && u.R[SP] == t.R[SP]
    && forall x: nat | InFrame(s.R[SP], Frame(instr), x) :: u.mem(x) == t.mem(x)
  }

  /** The state u with everything restored that a push of s saved, and execution resumed at its LR. */
  function Restored(s: Cpu, u: Cpu, instr: nat): (r: Cpu)
    requires |s.R| == REG_TOTAL && |u.R| == REG_TOTAL
    ensures |r.R| == REG_TOTAL
  {
    var v := u.(R := RestoredRegs(s, u, instr));
    if Listed(instr, 8) then Loaded(v, s.R[LR]) else v
  }

  function RestoredRegs(s: Cpu, u: Cpu, instr: nat): (r: seq<nat>)
    requires |s.R| == REG_TOTAL && |u.R| == REG_TOTAL
    ensures |r| == REG_TOTAL
  {
    seq(REG_TOTAL, i requires 0 <= i < REG_TOTAL =>
      if i == SP || (i < 8 && Listed(instr, i)) then s.R[i] else u.R[i])
  }

  /** A pop undoes a push of the same list, whatever happened to the registers in between, as long as the
      stack pointer and the pushed bytes are still there. */
  lemma PopRestores(s: Cpu, t: Cpu, u: Cpu, instr: nat)
    requires Well(s) && Frame(instr) <= s.R[SP] && Pushed(s, t, instr) && KeepsFrame(s, t, u, instr)
    ensures Popped(u, instr) == Restored(s, u, instr)
  {
    hide Listed, Load32, Above, Height;
    var sp := s.R[SP];
    FrameHeight(instr);
    SlotInside(sp, Frame(instr));
    assert t.R[SP] == sp - Frame(instr);
    forall i | 0 <= i < 8 && Listed(instr, i) ensures PoppedReg(u, instr, i) == s.R[i] {
      HeightDepth(instr, i);
      SlotInside(sp, Depth(instr, i));
      SlotFound(t.mem, u.mem, sp, Frame(instr), Depth(instr, i));
      assert u.R[SP] + Height(instr, i) == sp - Depth(instr, i);
    }
    if Listed(instr, 8) {
      assert u.R[SP] + Height(instr, 8) == sp - 4;
      SlotInside(sp, 4);
      SlotFound(t.mem, u.mem, sp, Frame(instr), 4);
    }
    assert PoppedRegs(u, instr) == RestoredRegs(s, u, instr);
  }

  lemma SlotInside(sp: nat, depth: nat)
    requires depth <= sp < WORD
    ensures Slot(sp, depth) == sp - depth == (sp - depth) % WORD
  {
  }

  lemma SlotFound(mem: nat -> Byte, next: nat -> Byte, sp: nat, n: nat, depth: nat)
    requires forall x: nat | InFrame(sp, n, x) :: next(x) == mem(x)
    requires 4 <= depth <= n <= sp
    ensures Load32(next, sp - depth) == Load32(mem, sp - depth)
  {
    forall x: nat | sp - depth <= x < sp - depth + 4 ensures next(x) == mem(x) { assert InFrame(sp, n, x); }
    LoadUntouched(mem, next, sp - depth);
  }

  /** Every listed register and the stack pointer get their values back, every other register keeps its
      own, and with LR and PC in the list execution resumes at LR, in the mode of its bit 0, or takes the
      exception return. */
  lemma PopUndoesPush(s: Cpu, t: Cpu, u: Cpu, instr: nat)
    requires Well(s) && Frame(instr) <= s.R[SP] && Pushed(s, t, instr)
    requires |u.R| == REG_TOTAL && u.R[SP] == t.R[SP]
    requires forall x: nat | s.R[SP] - Frame(instr) <= x < s.R[SP] :: u.mem(x) == t.mem(x)
    ensures var v := Popped(u, instr);
      && v.R[SP] == s.R[SP] && v.mem == u.mem
      && (forall i | 0 <= i < 8 :: v.R[i] == if Listed(instr, i) then s.R[i] else u.R[i])
      && (forall i | 8 <= i < PC && i != SP :: v.R[i] == u.R[i])
    ensures !Listed(instr, 8) ==> var v := Popped(u, instr);
      v.R[PC] == u.R[PC] && v.thumb == u.thumb && v.transfer == u.transfer
    ensures Listed(instr, 8) && s.R[LR] < 0xFFFF_FF80 ==> var v, to := Popped(u, instr), s.R[LR] - s.R[LR] % 2;
      v.R[PC] == to && v.transfer == Branch(to) && (v.thumb <==> s.R[LR] % 2 == 1)
    ensures Listed(instr, 8) && s.R[LR] >= 0xFFFF_FF80 ==> var v := Popped(u, instr);
      v.transfer == ExceptionReturn(s.R[LR]) && v.R[PC] == u.R[PC] && v.thumb == u.thumb
  {
    hide Listed, Load32, Frame, Popped;
    PopRestores(s, t, u, instr);
    if Listed(instr, 8) { ExceptionRange(s.R[LR]); }
  }

  /** A push is undone by every pop that finds the stack pointer and the pushed bytes as they were left, if
      and only if its frame fits below the stack pointer: a push wraps in 64 bits and a pop in 32. */
  lemma UndoneExactly(s: Cpu, t: Cpu, instr: nat)
    requires Well(s) && Pushed(s, t, instr)
    ensures (forall u: Cpu | KeepsFrame(s, t, u, instr) :: Popped(u, instr) == Restored(s, u, instr)) <==>
      Frame(instr) <= s.R[SP]
  {
    hide Listed, Load32, Above, Height, Popped, Restored;
    if Frame(instr) <= s.R[SP] {
      forall u: Cpu | KeepsFrame(s, t, u, instr) ensures Popped(u, instr) == Restored(s, u, instr) {
        PopRestores(s, t, u, instr);
      }
    } else {
      var u := WrapLoses(s, t, instr);
    }
  }

  /** When the frame wraps, the pop looks for the deepest word 2^64 - 2^32 bytes below where it is. */
  lemma WrapLoses(s: Cpu, t: Cpu, instr: nat) returns (u: Cpu)
    requires Well(s) && Pushed(s, t, instr) && s.R[SP] < Frame(instr)
    ensures KeepsFrame(s, t, u, instr) && Popped(u, instr) != Restored(s, u, instr)
  {
    hide Listed, Load32, Height, Above, Popped, Restored, KeepsFrame, Odd, Frame, Slot, InFrame;
    var at := Aliased(s.R[SP], instr);
    var i := DeepestWord(instr);
    u := t.(mem := Odd(t.mem, at, s.R[i]));
    OddKeeps(s, t, instr, at, s.R[i]);
    OddLoad(t.mem, at, s.R[i]);
    if i == LR { LinkLost(s, u, instr, at); } else { RegisterLost(s, u, instr, i, at); }
  }

  /** Where a pop looks for the deepest word of a push that wrapped. */
  function Aliased(sp: nat, instr: nat): (at: nat)
    requires sp < Frame(instr)
    ensures at == WORD + sp - Frame(instr)
  {
    hide Listed;
    WORD + sp - Frame(instr)
  }

  /** The register a push saves last: the lowest listed one, or LR alone. */
  lemma DeepestWord(instr: nat) returns (i: nat)
    requires Frame(instr) > 0
    ensures if i == LR then Listed(instr, 8) && Height(instr, 8) == 0
            else i < 8 && Listed(instr, i) && Height(instr, i) == 0
  {
    hide Listed;
    FrameHeight(instr);
    if Above(instr, 0) > 0 { i := Lowest(instr, 0); } else { i := LR; }
  }

  lemma RegisterLost(s: Cpu, u: Cpu, instr: nat, i: nat, at: nat)
    requires |s.R| == REG_TOTAL && |u.R| == REG_TOTAL && i < 8 && Listed(instr, i) && Height(instr, i) == 0
    requires u.R[SP] % WORD == at && Load32(u.mem, at) % 2 != s.R[i] % 2
    ensures Popped(u, instr) != Restored(s, u, instr)
  {
    hide Listed, Load32, Height, Popped, Restored;
    RegisterPopped(u, instr, i);
    RegisterRestored(s, u, instr, i);
  }

  lemma LinkLost(s: Cpu, u: Cpu, instr: nat, at: nat)
    requires |s.R| == REG_TOTAL && |u.R| == REG_TOTAL && Listed(instr, 8) && Height(instr, 8) == 0
    requires u.R[SP] % WORD == at && Load32(u.mem, at) % 2 != s.R[LR] % 2
    ensures Popped(u, instr) != Restored(s, u, instr)
  {
    hide Listed, Load32, Height, Loaded, PoppedRegs, RestoredRegs;
    var popped, restored := u.(R := PoppedRegs(u, instr)), u.(R := RestoredRegs(s, u, instr));
    LoadedDiffers(popped, restored, Load32(u.mem, at), s.R[LR]);
  }

  lemma OddKeeps(s: Cpu, t: Cpu, instr: nat, at: nat, w: nat)
    requires Well(s) && Pushed(s, t, instr) && s.R[SP] < Frame(instr) && at == WORD + s.R[SP] - Frame(instr)
    ensures KeepsFrame(s, t, t.(mem := Odd(t.mem, at, w)), instr) && t.R[SP] % WORD == at
  {
    hide Listed, Load32;
    assert Frame(instr) <= 36;
    assert t.R[SP] == DOUBLE + s.R[SP] - Frame(instr);
  }

  lemma RegisterPopped(u: Cpu, instr: nat, i: nat)
    requires |u.R| == REG_TOTAL && i < 8 && Listed(instr, i)
    ensures Popped(u, instr).R[i] == Load32(u.mem, (u.R[SP] + Height(instr, i)) % WORD)
  {
    hide Listed, Load32, Height;
  }

  lemma RegisterRestored(s: Cpu, u: Cpu, instr: nat, i: nat)
    requires |s.R| == REG_TOTAL && |u.R| == REG_TOTAL && i < 8 && Listed(instr, i)
    ensures Restored(s, u, instr).R[i] == s.R[i]
  {
    hide Listed;
  }

  /** Memory with a byte at an address that differs from that of w in its lowest bit. */
  function Odd(mem: nat -> Byte, at: nat, w: nat): nat -> Byte {
    (x: nat) => if x == at then (w + 1) % 2 else mem(x)
  }

  lemma OddLoad(mem: nat -> Byte, at: nat, w: nat)
    ensures Load32(Odd(mem, at, w), at) % 2 != w % 2
  {
    var next := Odd(mem, at, w);
    var upper := 0x80 * next(at + 1) + 0x8000 * next(at + 2) + 0x80_0000 * next(at + 3);
    assert Load32(next, at) == (w + 1) % 2 + 2 * upper;
  }

  /** Loading different words into PC has different effects. */
  lemma LoadedDiffers(s: Cpu, t: Cpu, v: nat, w: nat)
    requires |s.R| == REG_TOTAL && |t.R| == REG_TOTAL && v % 2 != w % 2
    ensures Loaded(s, v) != Loaded(t, w)
  {
  }

  lemma {:induction false} Lowest(instr: nat, i: nat) returns (k: nat)
    requires i <= 8 && Above(instr, i) > 0
    ensures i <= k < 8 && Listed(instr, k) && Above(instr, k) == Above(instr, i)
    ensures i == 0 ==> Height(instr, k) == 0
    decreases 8 - i
  {
    hide Listed;
    AboveUnfold(instr, i);
    if Listed(instr, i) { k := i; } else { k := Lowest(instr, i + 1); }
  }

  lemma HeightDepth(instr: nat, i: nat)
    requires i < 8 && Listed(instr, i)
    ensures Frame(instr) - Height(instr, i) == Depth(instr, i) >= 4
  {
    hide Listed;
    AboveMonotone(instr, 0, i);
  }

  lemma FrameHeight(instr: nat)
    ensures Frame(instr) == Height(instr, 8) + 4 * Extra(instr) && Height(instr, 0) == 0
  {
  }

  lemma HeightStep(instr: nat, i: nat)
    requires i < 8
    ensures Height(instr, i + 1) == Height(instr, i) + if Listed(instr, i) then 4 else 0
    ensures Height(instr, i + 1) <= Frame(instr)
  {
    hide Listed;
    AboveUnfold(instr, i);
    AboveMonotone(instr, 0, i + 1);
  }

  lemma ExceptionRange(w: nat)
    requires w < WORD
    ensures w / 0x80 == 0x1FF_FFFF <==> w >= 0xFFFF_FF80
  {
  }

  // ------------------------------------------------------------------ the instructions in place

  class CpuCortex {
    const R: array<nat>
    var mem: nat -> Byte
    var thumb: bool
    var transfer: Transfer

    ghost predicate Valid()
      reads this, R
    {
      R.Length == REG_TOTAL && forall k | 0 <= k < REG_TOTAL :: R[k] < 0x1_0000_0000_0000_0000
    }

    ghost function Now(): Cpu
      reads this, R
    {
      Cpu(R[..], mem, thumb, transfer)
    }

    constructor (mem: nat -> Byte)
      ensures Valid() && fresh(R) && this.mem == mem && forall k | 0 <= k < REG_TOTAL :: R[k] == 0
    {
      R := new nat[REG_TOTAL](_ => 0);
      this.mem, thumb, transfer := mem, true, Sequential;
    }

    /** PUSH_T1::exec: LR first, then the listed registers from the highest down. */
    method Push(instr: nat)
      requires Valid()
      modifies R, this`mem
      ensures Valid()
      ensures Pushed(old(Now()), Now(), instr)
      ensures forall i | 0 <= i < 8 && Listed(instr, i) :: Bytes(mem, Slot(old(R[SP]), Depth(instr, i)), old(R[i]))
      ensures Listed(instr, 8) ==> Bytes(mem, Slot(old(R[SP]), 4), old(R[LR]))
    {
      hide Listed, Load32, Store32, Saved, Pushed, Depth, Slot, Bytes;
      ghost var s := Now();
      var address: nat := R[SP];
      SaveExtra(s, instr);
      SlotNext(s.R[SP], 0);
      if Listed(instr, 8) {
        address := (address as int - 4) % 0x1_0000_0000_0000_0000;
        mem := Store32(mem, address, R[LR]);
      }
      var i := 7;
      while i >= 0
        invariant -1 <= i <= 7 && R[..] == s.R && thumb == s.thumb && transfer == s.transfer
        invariant address < 0x1_0000_0000_0000_0000
        invariant address == Slot(s.R[SP], Depth(instr, i + 1)) && Saved(s, mem, instr, i + 1)
        decreases i
      {
        if Listed(instr, i) {
          SaveNext(s, mem, instr, i);
          SlotNext(s.R[SP], Depth(instr, i + 1));
          address := (address as int - 4) % 0x1_0000_0000_0000_0000;
          mem := Store32(mem, address, R[i]);
        } else {
          SkipNext(s, mem, instr, i);
        }
        i := i - 1;
      }
      R[SP] := address;
      AllSaved(s, Now(), instr);
      forall j: nat | j <= 8 && Listed(instr, j)
        ensures Bytes(mem, Slot(s.R[SP], Depth(instr, j)), if j == 8 then s.R[LR] else s.R[j])
      {
        PushedBytes(s, Now(), instr, j);
      }
      LinkDepth(instr);
    }

    /** POP_T1::exec: the listed registers from the lowest up, then PC. */
    method Pop(instr: nat)
      requires Valid()
      modifies R, this`thumb, this`transfer
      ensures Valid()
      ensures Now() == Popped(old(Now()), instr)
      ensures HoldsWords(old(Now()), Now(), instr)
    {
      hide Listed, Load32, Height, Above, HoldsWords;
      ghost var s := Now();
      FrameHeight(instr);
      var address: nat := R[SP] % WORD;
      for i := 0 to 8
        invariant Valid() && thumb == s.thumb && transfer == s.transfer && address < WORD
        invariant forall k | i <= k < REG_TOTAL :: R[k] == s.R[k]
        invariant address == (s.R[SP] + Height(instr, i)) % WORD
        invariant forall k | 0 <= k < i :: R[k] == PoppedReg(s, instr, k)
      {
        HeightStep(instr, i);
        WordStep(s.R[SP] + Height(instr, i));
        if Listed(instr, i) {
          R[i] := Load32(mem, address);
          address := (address + 4) % WORD;
        }
      }
      WordStep(s.R[SP] + Height(instr, 8));
      if Listed(instr, 8) {
        R[SP] := (address + 4) % WORD;
        assert R[..] == PoppedRegs(s, instr);
        LoadWritePC(address);
        address := (address + 4) % WORD;
      } else {
        R[SP] := address;
        assert R[..] == PoppedRegs(s, instr);
      }
      PoppedWords(s, instr);
    }

    method LoadWritePC(address: nat)
      requires Valid()
      modifies R, this`thumb, this`transfer
      ensures Valid() && Now() == Loaded(old(Now()), Load32(mem, address))
    {
      hide Load32;
      var npc := Load32(mem, address);
      if npc / 0x80 == 0x1FF_FFFF {
        transfer := ExceptionReturn(npc);
        return;
      }
      if npc % 2 == 1 {
        thumb := true;
        npc := npc - 1;
      } else {
        thumb := false;
      }
      R[PC] := npc;
      transfer := Branch(npc);
    }
  }

  lemma LinkDepth(instr: nat)
    ensures Listed(instr, 8) ==> Depth(instr, 8) == 4
  {
    hide Listed;
  }

  lemma AboveUnfold(instr: nat, i: nat)
    requires i < 8
    ensures Above(instr, i) == (if Listed(instr, i) then 1 else 0) + Above(instr, i + 1)
  {
  }

  lemma StoredElsewhere(mem: nat -> Byte, a: nat, w: nat)
    ensures forall x: nat | x < a || a + 4 <= x :: Store32(mem, a, w)(x) == mem(x)
  {
  }

  /** The push down to register i: LR and the registers from i up are in place, nothing else changed. */
  ghost predicate Saved(s: Cpu, mem: nat -> Byte, instr: nat, i: nat)
    requires |s.R| == REG_TOTAL && s.R[SP] < DOUBLE && i <= 8
  {
    var sp := s.R[SP];
    && Depth(instr, i) <= Frame(instr)
    && (forall j | i <= j < 8 && Listed(instr, j) :: Depth(instr, j) <= Depth(instr, i) &&
          Load32(mem, Slot(sp, Depth(instr, j))) == s.R[j] % WORD)
    && (Listed(instr, 8) ==> Load32(mem, Slot(sp, 4)) == s.R[LR] % WORD)
    && (forall x: nat | !InFrame(sp, Depth(instr, i), x) :: mem(x) == s.mem(x))
  }

  lemma SaveExtra(s: Cpu, instr: nat)
    requires |s.R| == REG_TOTAL && s.R[SP] < DOUBLE
    ensures Depth(instr, 8) <= Frame(instr) && Depth(instr, 8) == if Listed(instr, 8) then 4 else 0
    ensures var mem := if Listed(instr, 8) then Store32(s.mem, Slot(s.R[SP], 4), s.R[LR]) else s.mem;
      Saved(s, mem, instr, 8)
  {
    hide Listed, Load32, Store32;
    AboveMonotone(instr, 0, 8);
    if Listed(instr, 8) {
      LoadStored(s.mem, Slot(s.R[SP], 4), s.R[LR]);
      StoredElsewhere(s.mem, Slot(s.R[SP], 4), s.R[LR]);
    }
  }

  lemma AllSaved(s: Cpu, t: Cpu, instr: nat)
    requires |s.R| == REG_TOTAL && s.R[SP] < DOUBLE
    requires Saved(s, t.mem, instr, 0) && t == s.(R := s.R[SP := Slot(s.R[SP], Depth(instr, 0))], mem := t.mem)
    ensures Pushed(s, t, instr)
  {
    hide Listed, Load32, Above;
  }

  lemma SaveNext(s: Cpu, mem: nat -> Byte, instr: nat, i: nat)
    requires |s.R| == REG_TOTAL && s.R[SP] < DOUBLE && i < 8 && Listed(instr, i)
    requires Saved(s, mem, instr, i + 1)
    ensures Depth(instr, i) == Depth(instr, i + 1) + 4 && Depth(instr, i) <= Frame(instr)
    ensures Saved(s, Store32(mem, Slot(s.R[SP], Depth(instr, i)), s.R[i]), instr, i)
  {
    hide Listed, Load32, Store32, Above;
    AboveUnfold(instr, i);
    AboveMonotone(instr, 0, i);
    var a, next := Slot(s.R[SP], Depth(instr, i)), Store32(mem, Slot(s.R[SP], Depth(instr, i)), s.R[i]);
    LoadStored(mem, a, s.R[i]);
    StoredElsewhere(mem, a, s.R[i]);
    forall j | i < j < 8 && Listed(instr, j)
      ensures Depth(instr, j) <= Depth(instr, i) && Load32(next, Slot(s.R[SP], Depth(instr, j))) == s.R[j] % WORD
    {
      AboveMonotone(instr, i, j);
      AboveMonotone(instr, j, 8);
      SlotsApart(s.R[SP], Depth(instr, j), Depth(instr, i));
      LoadUntouched(mem, next, Slot(s.R[SP], Depth(instr, j)));
    }
    if Listed(instr, 8) {
      AboveMonotone(instr, i, 8);
      SlotsApart(s.R[SP], 4, Depth(instr, i));
      LoadUntouched(mem, next, Slot(s.R[SP], 4));
    }
  }

  lemma SkipNext(s: Cpu, mem: nat -> Byte, instr: nat, i: nat)
    requires |s.R| == REG_TOTAL && s.R[SP] < DOUBLE && i < 8 && !Listed(instr, i)
    requires Saved(s, mem, instr, i + 1)
    ensures Depth(instr, i) == Depth(instr, i + 1) && Saved(s, mem, instr, i)
  {
    hide Listed, Load32, Above;
    AboveUnfold(instr, i);
  }

  lemma WordStep(a: nat)
    ensures (a % WORD + 4) % WORD == (a + 4) % WORD
  {
  }

  lemma SlotNext(sp: nat, d: nat)
    requires sp < DOUBLE
    ensures Slot(sp, 0) == sp && (Slot(sp, d) - 4) % DOUBLE == Slot(sp, d + 4)
  {
  }

  /** Words at different depths do not overlap. */
  lemma SlotsApart(sp: nat, d: nat, e: nat)
    requires sp < DOUBLE && d + 4 <= e <= 36
    ensures Slot(sp, e) + 4 <= Slot(sp, d) || Slot(sp, d) + 4 <= Slot(sp, e)
  {
  }
}
