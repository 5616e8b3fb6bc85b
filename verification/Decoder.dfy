/** Instruction decoding: pattern strings, mask and opcode words, and the hashed instruction table. */
module Decoder {

  const INSTR_HASH_TABLE_SIZE: nat := 64

  /** A 32-bit word, bit 0 first. */
  type Word = w: seq<bool> | |w| == 32 witness seq(32, _ => false)

  datatype Option<T> = None | Some(value: T)

  /** The number a bit field stands for, lowest bit first. */
  function Number(bits: seq<bool>): nat {
    if bits == [] then 0 else (if bits[0] then 1 else 0) + 2 * Number(bits[1..])
  }

  lemma {:induction false} NumberBelow(bits: seq<bool>, bound: nat)
    requires (|bits| == 2 && bound == 4) || (|bits| == 3 && bound == 8) || (|bits| == 5 && bound == 32)
    ensures Number(bits) < bound
  {
    if |bits| == 2 { assert Number(bits[1..]) < 2; }
    else if |bits| == 3 { NumberBelow(bits[1..], 4); }
    else {
      var t := bits[1..][1..];
      NumberBelow(t, 8);
      assert Number(bits[1..]) <= 1 + 2 * Number(t);
    }
  }

  // ------------------------------------------------------------------ patterns

  /** An instruction as the constructor leaves it. */
  datatype Instr = Instr(name: string, mask: Word, opcode: Word, compressed: bool)

  /** The word agrees with the pattern: a 1 where it says 1, anything where it says ?, a 0 elsewhere. */
  ghost predicate Agrees(bits: string, w: Word)
    requires |bits| == 32
  {
    forall i | 0 <= i < 32 :: bits[i] == '?' || w[31 - i] == (bits[i] == '1')
  }

  function And(a: Word, b: Word): Word {
    seq(32, j requires 0 <= j < 32 => a[j] && b[j])
  }

  function Not(a: Word): Word {
    seq(32, j requires 0 <= j < 32 => !a[j])
  }

  /** parse. */
  predicate Parse(instr: Instr, w: Word) {
    And(w, instr.mask) == instr.opcode
  }

  ghost predicate FromPattern(instr: Instr, bits: string)
    requires |bits| == 32
  {
    && (forall b | 0 <= b < 32 :: instr.mask[b] == (bits[31 - b] != '?'))
    && (forall b | 0 <= b < 32 :: instr.opcode[b] == (bits[31 - b] == '1'))
  }

  /** The constructor: the pattern string, highest bit first, becomes mask and opcode, and parse accepts
      exactly the words that agree with it. */
  method NewInstruction(name: string, bits: string, compressed: bool) returns (instr: Instr)
    requires |bits| == 32
    ensures instr.name == name && instr.compressed == compressed && FromPattern(instr, bits)
    ensures forall w: Word :: Parse(instr, w) <==> Agrees(bits, w)
  {
    var mask: Word, opcode: Word := seq(32, _ => false), seq(32, _ => false);
    for i := 0 to 32
      invariant forall b | 0 <= b < 32 :: mask[b] == (b > 31 - i && bits[31 - b] == '?')
      invariant forall b | 0 <= b < 32 :: opcode[b] == (b > 31 - i && bits[31 - b] == '1')
    {
      match bits[i]
      case '0' =>
      case '1' => opcode := opcode[31 - i := true];
      case '?' => mask := mask[31 - i := true];
      case _ =>
    }
    mask := Not(mask);
    instr := Instr(name, mask, opcode, compressed);
    forall w: Word ensures Parse(instr, w) <==> Agrees(bits, w) { ParseAgrees(instr, bits, w); }
  }

  lemma ParseAgrees(instr: Instr, bits: string, w: Word)
    requires |bits| == 32 && FromPattern(instr, bits)
    ensures Parse(instr, w) <==> Agrees(bits, w)
  {
    if Parse(instr, w) {
      forall i | 0 <= i < 32 ensures bits[i] == '?' || w[31 - i] == (bits[i] == '1') {
        assert And(w, instr.mask)[31 - i] == instr.opcode[31 - i];
      }
    }
    if Agrees(bits, w) {
      forall b | 0 <= b < 32 ensures And(w, instr.mask)[b] == instr.opcode[b] {
        assert bits[31 - b] == '?' || w[31 - (31 - b)] == (bits[31 - b] == '1');
      }
    }
  }

  // ------------------------------------------------------------------ hashes

  /** Bits 6 to 2 of a word. */
  function Hash32(w: Word): (h: nat)
    ensures h < 32
  {
    NumberBelow(w[2..7], 32);
    Number(w[2..7])
  }

  /** Bits 15 to 13 and 1 to 0, in the upper half of the table. */
  function Hash16(w: Word): (h: nat)
    ensures 32 <= h < INSTR_HASH_TABLE_SIZE
  {
    NumberBelow(w[13..16], 8);
    NumberBelow(w[..2], 4);
    0x20 + 4 * Number(w[13..16]) + Number(w[..2])
  }

  function Hash(instr: Instr): (h: nat)
    ensures h < INSTR_HASH_TABLE_SIZE && (h < 32 <==> !instr.compressed)
  {
    if instr.compressed then Hash16(instr.opcode) else Hash32(instr.opcode)
  }

  // ------------------------------------------------------------------ lookup

  /** The first instruction of a list that accepts the word. */
  function First(list: seq<Instr>, w: Word): Option<Instr> {
    if list == [] then None else if Parse(list[0], w) then Some(list[0]) else First(list[1..], w)
  }

  /** The bucket of a hash, in registration order. */
  function Bucket(list: seq<Instr>, h: nat): seq<Instr> {
    if list == [] then [] else (if Hash(list[0]) == h then [list[0]] else []) + Bucket(list[1..], h)
  }

  /** decodeInstruction: the bucket of the long hash, then the bucket of the short one. */
  function Decode(list: seq<Instr>, w: Word): Option<Instr> {
    var r := First(Bucket(list, Hash32(w)), w);
    if r.Some? then r else First(Bucket(list, Hash16(w)), w)
  }

  /** What the two hashes need: a long pattern fixes bits 6 to 0 and ends in 11, a compressed one fixes
      bits 15 to 13 and 1 to 0 and does not end in 11. */
  ghost predicate Indexable(instr: Instr) {
    if instr.compressed then
      && (forall b | 13 <= b < 16 || 0 <= b < 2 :: instr.mask[b])
      && !(instr.opcode[0] && instr.opcode[1])
    else
      && (forall b | 0 <= b < 7 :: instr.mask[b])
      && instr.opcode[0] && instr.opcode[1]
  }

  /** An indexable instruction that accepts a word is in the bucket of that word. */
  lemma AcceptedHash(instr: Instr, w: Word)
    requires Indexable(instr) && Parse(instr, w)
    ensures instr.compressed <==> !(w[0] && w[1])
    ensures Hash(instr) == if w[0] && w[1] then Hash32(w) else Hash16(w)
  {
    forall b | 0 <= b < 32 && instr.mask[b] ensures instr.opcode[b] == w[b] {
      assert And(w, instr.mask)[b] == instr.opcode[b];
    }
    if instr.compressed {
      assert instr.opcode[13..16] == w[13..16] && instr.opcode[..2] == w[..2];
    } else {
      assert instr.opcode[2..7] == w[2..7];
    }
  }

  lemma {:induction false} FirstInBucket(list: seq<Instr>, h: nat, w: Word)
    requires forall i | 0 <= i < |list| && Parse(list[i], w) :: Hash(list[i]) == h
    ensures First(Bucket(list, h), w) == First(list, w)
  {
    hide Parse, Hash;
    if list != [] {
      FirstInBucket(list[1..], h, w);
      var head := if Hash(list[0]) == h then [list[0]] else [];
      assert (head + Bucket(list[1..], h))[|head|..] == Bucket(list[1..], h);
    }
  }

  lemma {:induction false} NoneInBucket(list: seq<Instr>, h: nat, w: Word)
    requires forall i | 0 <= i < |list| && Parse(list[i], w) :: Hash(list[i]) != h
    ensures First(Bucket(list, h), w) == None
  {
    hide Parse, Hash;
    if list != [] {
      NoneInBucket(list[1..], h, w);
      var head := if Hash(list[0]) == h then [list[0]] else [];
      assert (head + Bucket(list[1..], h))[|head|..] == Bucket(list[1..], h);
    }
  }

  /** r is the instruction registered earliest of those that accept the word, or nothing if none does. */
  ghost predicate EarliestAccepting(list: seq<Instr>, w: Word, r: Option<Instr>) {
    match r
    case Some(x) => exists k ::
      0 <= k < |list| && list[k] == x && Parse(list[k], w) && forall j | 0 <= j < k :: !Parse(list[j], w)
    case None => forall k | 0 <= k < |list| :: !Parse(list[k], w)
  }

  lemma {:induction false} FirstIsEarliest(list: seq<Instr>, w: Word)
    ensures EarliestAccepting(list, w, First(list, w))
  {
    hide Parse;
    if list != [] && !Parse(list[0], w) {
      var rest := list[1..];
      FirstIsEarliest(rest, w);
      match First(rest, w)
      case Some(x) =>
        var k :| 0 <= k < |rest| && rest[k] == x && Parse(rest[k], w) && forall j | 0 <= j < k :: !Parse(rest[j], w);
        assert list[k + 1] == x && Parse(list[k + 1], w);
        forall j | 0 <= j < k + 1 ensures !Parse(list[j], w) { if j > 0 { assert list[j] == rest[j - 1]; } }
      case None =>
        forall k | 0 <= k < |list| ensures !Parse(list[k], w) { if k > 0 { assert list[k] == rest[k - 1]; } }
    }
  }

  /** There is only one such answer. */
  lemma EarliestUnique(list: seq<Instr>, w: Word, r: Option<Instr>)
    requires EarliestAccepting(list, w, r)
    ensures r == First(list, w)
  {
    hide Parse;
    FirstIsEarliest(list, w);
    var f := First(list, w);
    if r.Some? && f.Some? {
      var k :|
        0 <= k < |list| && list[k] == r.value && Parse(list[k], w) && forall j | 0 <= j < k :: !Parse(list[j], w);
      var m :|
        0 <= m < |list| && list[m] == f.value && Parse(list[m], w) && forall j | 0 <= j < m :: !Parse(list[j], w);
      assert k == m;
    }
  }

  /** For indexable instructions, the two-bucket lookup finds exactly the instruction registered earliest of
      those that accept the word. */
  lemma DecodeFindsEarliest(list: seq<Instr>, w: Word, r: Option<Instr>)
    requires forall i | 0 <= i < |list| :: Indexable(list[i])
    ensures r == Decode(list, w) <==> EarliestAccepting(list, w, r)
  {
    DecodeIsLinear(list, w);
    FirstIsEarliest(list, w);
    hide *;
    if EarliestAccepting(list, w, r) { EarliestUnique(list, w, r); }
  }

  /** For indexable instructions, the two-bucket lookup is the linear search in registration order. */
  lemma DecodeIsLinear(list: seq<Instr>, w: Word)
    requires forall i | 0 <= i < |list| :: Indexable(list[i])
    ensures Decode(list, w) == First(list, w)
  {
    hide Parse, Hash, Hash32, Hash16, First, Bucket, Indexable;
    forall i | 0 <= i < |list| && Parse(list[i], w)
      ensures Hash(list[i]) == if w[0] && w[1] then Hash32(w) else Hash16(w)
    {
      AcceptedHash(list[i], w);
    }
    if w[0] && w[1] {
      FirstInBucket(list, Hash32(w), w);
      if First(list, w) == None { NoneInBucket(list, Hash16(w), w); }
    } else {
      FirstInBucket(list, Hash16(w), w);
      NoneInBucket(list, Hash32(w), w);
    }
  }

  /** The condition matters: a long pattern that leaves bit 2 open is found by the linear search but not
      in its bucket. */
  lemma OpenHashBitMisses(instr: Instr, w: Word)
    requires !instr.compressed && FromPattern(instr, "?????????????????????????0000?11")
    requires Agrees("?????????????????????????0000?11", w) && w[2]
    ensures First([instr], w) == Some(instr) && Decode([instr], w) == None
  {
    ParseAgrees(instr, "?????????????????????????0000?11", w);
    assert "?????????????????????????0000?11"[29] == '?';
    assert !instr.opcode[2];
    assert instr.opcode[2..7][0] == false && w[2..7][0] == true;
    ParityDiffers(instr.opcode[2..7], w[2..7]);
    hide Hash16, Number, Parse;
    NoneInBucket([instr], Hash32(w), w);
    NoneInBucket([instr], Hash16(w), w);
  }

  lemma ParityDiffers(a: seq<bool>, b: seq<bool>)
    requires |a| > 0 && |b| > 0 && a[0] != b[0]
    ensures Number(a) != Number(b)
  {
  }

  predicate HashBit(compressed: bool, b: nat) {
    if compressed then 13 <= b < 16 || b < 2 else 2 <= b < 7
  }

  /** Every bit the hash is made of is fixed by the pattern. */
  ghost predicate HashFixed(instr: Instr) {
    forall b: nat | b < 32 && HashBit(instr.compressed, b) :: instr.mask[b]
  }

  /** An instruction is found for every word it accepts if and only if its pattern fixes the bits of its
      hash. */
  lemma AlwaysFound(instr: Instr, bits: string)
    requires |bits| == 32 && FromPattern(instr, bits)
    ensures (forall w: Word | Parse(instr, w) :: Decode([instr], w) == Some(instr)) <==> HashFixed(instr)
  {
    hide Hash32, Hash16, Decode, Parse, HashBit;
    if HashFixed(instr) {
      forall w: Word | Parse(instr, w) ensures Decode([instr], w) == Some(instr) {
        FixedHash(instr, w);
        DecodeOne(instr, w);
      }
    } else {
      var b: nat :| b < 32 && HashBit(instr.compressed, b) && !instr.mask[b];
      var w: Word := instr.opcode[b := true];
      assert bits[31 - b] == '?';
      OpenAccepts(instr, bits, b);
      OpenHash(instr, b);
      DecodeOne(instr, w);
    }
  }

  /** The lookup in a table of one instruction: it is found exactly when it accepts the word and has the
      hash of the word for its own length. */
  lemma DecodeOne(instr: Instr, w: Word)
    ensures Decode([instr], w) == Some(instr) <==>
      Parse(instr, w) && Hash(instr) == if instr.compressed then Hash16(w) else Hash32(w)
  {
    hide Hash32, Hash16, Parse, Hash;
    assert [instr][1..] == [];
    forall h: nat ensures Bucket([instr], h) == if Hash(instr) == h then [instr] else [] {}
    assert First([instr], w) == if Parse(instr, w) then Some(instr) else None;
  }

  lemma FixedHash(instr: Instr, w: Word)
    requires HashFixed(instr) && Parse(instr, w)
    ensures Hash(instr) == if instr.compressed then Hash16(w) else Hash32(w)
  {
    forall b | 0 <= b < 32 && instr.mask[b] ensures instr.opcode[b] == w[b] {
      assert And(w, instr.mask)[b] == instr.opcode[b];
    }
    forall b: nat | b < 32 && HashBit(instr.compressed, b) ensures instr.opcode[b] == w[b] {}
    if instr.compressed {
      assert instr.opcode[13..16] == w[13..16] && instr.opcode[..2] == w[..2];
    } else {
      assert instr.opcode[2..7] == w[2..7];
    }
  }

  lemma OpenAccepts(instr: Instr, bits: string, b: nat)
    requires |bits| == 32 && FromPattern(instr, bits) && b < 32 && bits[31 - b] == '?'
    ensures Parse(instr, instr.opcode[b := true]) && !instr.opcode[b]
  {
    var w: Word := instr.opcode[b := true];
    forall j | 0 <= j < 32 ensures And(w, instr.mask)[j] == instr.opcode[j] {
      assert instr.mask[j] == (bits[31 - j] != '?') && instr.opcode[j] == (bits[31 - j] == '1');
    }
  }

  /** Setting a bit of the hash changes it. */
  lemma OpenHash(instr: Instr, b: nat)
    requires b < 32 && HashBit(instr.compressed, b) && !instr.opcode[b]
    ensures var w: Word := instr.opcode[b := true];
      Hash(instr) != if instr.compressed then Hash16(w) else Hash32(w)
  {
    var o := instr.opcode;
    var w: Word := o[b := true];
    hide Number;
    if !instr.compressed {
      assert o[2..7][b - 2] != w[2..7][b - 2];
      NumberInjective(o[2..7], w[2..7]);
    } else {
      NumberBelow(o[..2], 4);
      NumberBelow(w[..2], 4);
      if b < 2 {
        assert o[..2][b] != w[..2][b];
        NumberInjective(o[..2], w[..2]);
      } else {
        assert o[13..16][b - 13] != w[13..16][b - 13];
        NumberInjective(o[13..16], w[13..16]);
      }
    }
  }

  lemma {:induction false} NumberInjective(a: seq<bool>, b: seq<bool>)
    requires |a| == |b| && a != b
    ensures Number(a) != Number(b)
  {
    assert a == [a[0]] + a[1..] && b == [b[0]] + b[1..];
    if a[0] == b[0] { NumberInjective(a[1..], b[1..]); }
  }

  // ------------------------------------------------------------------ the table in place

  lemma {:induction false} BucketAppend(list: seq<Instr>, instr: Instr, h: nat)
    ensures Bucket(list + [instr], h) == Bucket(list, h) + if Hash(instr) == h then [instr] else []
  {
    hide Hash;
    if list != [] {
      assert (list + [instr])[1..] == list[1..] + [instr];
      BucketAppend(list[1..], instr, h);
    } else {
      assert (list + [instr])[1..] == [];
    }
  }

  class CpuRiverFunctional {
    const listInstr_: array<seq<Instr>>
    var mmuReservedAddrWatchdog_: nat
    ghost var registered: seq<Instr>

    ghost predicate Valid()
      reads this, listInstr_
    {
      && listInstr_.Length == INSTR_HASH_TABLE_SIZE
      && forall h | 0 <= h < INSTR_HASH_TABLE_SIZE :: listInstr_[h] == Bucket(registered, h)
    }

    constructor ()
      ensures Valid() && registered == [] && fresh(listInstr_) && mmuReservedAddrWatchdog_ == 0
    {
      listInstr_ := new seq<Instr>[INSTR_HASH_TABLE_SIZE](_ => []);
      mmuReservedAddrWatchdog_ := 0;
      registered := [];
    }

    method AddSupportedInstruction(instr: Instr)
      requires Valid()
      modifies this`registered, listInstr_
      ensures Valid() && registered == old(registered) + [instr]
    {
      hide Hash, Bucket;
      forall h | 0 <= h < INSTR_HASH_TABLE_SIZE
        ensures Bucket(registered + [instr], h) == Bucket(registered, h) + if Hash(instr) == h then [instr] else []
      {
        BucketAppend(registered, instr, h);
      }
      listInstr_[Hash(instr)] := listInstr_[Hash(instr)] + [instr];
      registered := registered + [instr];
    }

    /** decodeInstruction: when every registered instruction is indexable, the first registered one that
        accepts the word. */
    method DecodeInstruction(w: Word) returns (r: Option<Instr>)
      requires Valid()
      modifies this`mmuReservedAddrWatchdog_
      ensures Valid() && r == Decode(registered, w)
      ensures (forall i | 0 <= i < |registered| :: Indexable(registered[i])) ==>
        r == First(registered, w) && EarliestAccepting(registered, w, r)
      ensures mmuReservedAddrWatchdog_ ==
        if old(mmuReservedAddrWatchdog_) > 0 then old(mmuReservedAddrWatchdog_) - 1 else 0
    {
      hide Hash32, Hash16, Parse, Bucket, Indexable;
      r := Scan(listInstr_[Hash32(w)], w);
      if r.None? {
        r := Scan(listInstr_[Hash16(w)], w);
      }
      if mmuReservedAddrWatchdog_ > 0 {
        mmuReservedAddrWatchdog_ := mmuReservedAddrWatchdog_ - 1;
      }
      if forall i | 0 <= i < |registered| :: Indexable(registered[i]) {
        DecodeIsLinear(registered, w);
        FirstIsEarliest(registered, w);
      }
    }
  }

  /** The search loop over one bucket. */
  method Scan(list: seq<Instr>, w: Word) returns (r: Option<Instr>)
    ensures r == First(list, w)
  {
    hide Parse;
    assert list[0..] == list;
    for i := 0 to |list|
      invariant First(list[i..], w) == First(list, w)
    {
      if Parse(list[i], w) {
        return Some(list[i]);
      }
      assert list[i..][1..] == list[i + 1..];
    }
    r := None;
  }
}
