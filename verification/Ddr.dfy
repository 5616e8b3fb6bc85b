/** Sparse DDR memory: a sorted doubly linked list of blocks grown on demand. */
module Ddr {

  type Byte = b: nat | b < 256

  const BLOCK_SIZE: nat := 0x10_0000
  /** Addresses are split at 1 KB although each block owns BLOCK_SIZE bytes. */
  const BLOCK_SPAN: nat := 1024

  // ------------------------------------------------------------------ contents as a value

  /** The blocks allocated so far, by block number. */
  type Cells = map<nat, seq<Byte>>

  ghost predicate Sized(cells: Cells) {
    forall b | b in cells :: |cells[b]| == BLOCK_SIZE
  }

  function Zeros(): (z: seq<Byte>)
    ensures |z| == BLOCK_SIZE && forall i | 0 <= i < |z| :: z[i] == 0
  {
    seq(BLOCK_SIZE, _ => 0)
  }

  ghost function Touch(cells: Cells, bid: nat): Cells {
    if bid in cells then cells else cells[bid := Zeros()]
  }

  /** The byte at a flat address. */
  ghost function FlatByte(cells: Cells, x: nat): Byte
    requires Sized(cells)
  {
    if x / 1024 in cells then cells[x / 1024][x % 1024] else 0
  }

  datatype Action = Read(size: nat) | Write(data: seq<Byte>)

  datatype Transaction = Transaction(off: nat, action: Action)

  function Size(t: Transaction): nat {
    match t.action
    case Read(size) => size
    case Write(data) => |data|
  }

  /** The kth byte of a transaction lies past the end of its block. */
  predicate Past(t: Transaction, k: nat) {
    t.off % 1024 + k >= BLOCK_SPAN
  }

  predicate Inside(t: Transaction) {
    t.off % 1024 + Size(t) <= BLOCK_SPAN
  }

  function Overwrite(s: seq<Byte>, i: nat, data: seq<Byte>): (r: seq<Byte>)
    requires i + |data| <= |s|
    ensures |r| == |s|
  {
    s[..i] + data + s[i + |data|..]
  }

  /** The blocks after a transaction. */
  ghost function Next(cells: Cells, t: Transaction): Cells
    requires Sized(cells) && Size(t) <= 8
  {
    var bid, c := t.off / 1024, Touch(cells, t.off / 1024);
    match t.action
    case Read(_) => c
    case Write(data) => c[bid := Overwrite(c[bid], t.off % 1024, data)]
  }

  /** The bytes a read returns. */
  ghost function Answer(cells: Cells, t: Transaction): seq<Byte>
    requires Sized(cells) && Size(t) <= 8
  {
    var bid, c := t.off / 1024, Touch(cells, t.off / 1024);
    match t.action
    case Read(size) => c[bid][t.off % 1024..t.off % 1024 + size]
    case Write(_) => []
  }

  // ------------------------------------------------------------------ flat memory

  /** Byte-addressed memory and the same transactions on it. */
  ghost function FlatNext(flat: nat -> Byte, t: Transaction): nat -> Byte {
    match t.action
    case Read(_) => flat
    case Write(data) => (x: nat) => if t.off <= x < t.off + |data| then data[x - t.off] else flat(x)
  }

  ghost function FlatAnswer(flat: nat -> Byte, t: Transaction): seq<Byte> {
    match t.action
    case Read(size) => seq(size, k requires 0 <= k => flat(t.off + k))
    case Write(_) => []
  }

  ghost predicate Agrees(cells: Cells, flat: nat -> Byte) {
    Sized(cells) && forall x: nat :: FlatByte(cells, x) == flat(x)
  }

  lemma NextSized(cells: Cells, t: Transaction)
    requires Sized(cells) && Size(t) <= 8
    ensures Sized(Next(cells, t))
  {
  }

  lemma BlockAndIndex(off: nat, k: nat)
    requires off % 1024 + k < 1024
    ensures (off + k) / 1024 == off / 1024 && (off + k) % 1024 == off % 1024 + k
  {
  }

  /** Next changes exactly the written bytes of the addressed block. */
  lemma NextByte(cells: Cells, t: Transaction, x: nat)
    requires Sized(cells) && Size(t) <= 8
    ensures Sized(Next(cells, t))
    ensures FlatByte(Next(cells, t), x) ==
      if t.action.Write? && t.off <= x < t.off + |t.action.data| && x / 1024 == t.off / 1024
      then t.action.data[x - t.off] else FlatByte(cells, x)
  {
    NextSized(cells, t);
    if x / 1024 == t.off / 1024 {
      assert x - t.off == x % 1024 - t.off % 1024;
    }
  }

  /** A write behaves like flat memory exactly when every byte it would put past the end of its 1 KB
      block is already there. */
  lemma WriteIsFlat(cells: Cells, flat: nat -> Byte, t: Transaction)
    requires Agrees(cells, flat) && t.action.Write? && Size(t) <= 8
    ensures Agrees(Next(cells, t), FlatNext(flat, t)) <==>
      forall k | 0 <= k < Size(t) && Past(t, k) :: flat(t.off + k) == t.action.data[k]
  {
    NextSized(cells, t);
    hide Next, FlatByte;
    var data := t.action.data;
    forall x: nat
      ensures FlatByte(Next(cells, t), x) == FlatNext(flat, t)(x) <==>
        (t.off <= x < t.off + |data| && x / 1024 != t.off / 1024 ==> flat(x) == data[x - t.off])
    {
      NextByte(cells, t, x);
    }
    forall k | 0 <= k < |data| ensures (t.off + k) / 1024 != t.off / 1024 <==> Past(t, k) {
      if !Past(t, k) { BlockAndIndex(t.off, k); }
    }
    if forall k | 0 <= k < Size(t) && Past(t, k) :: flat(t.off + k) == data[k] {
      forall x: nat | t.off <= x < t.off + |data| && x / 1024 != t.off / 1024 ensures flat(x) == data[x - t.off] {
        assert x == t.off + (x - t.off);
      }
    } else {
      var k :| 0 <= k < Size(t) && Past(t, k) && flat(t.off + k) != data[k];
      assert FlatByte(Next(cells, t), t.off + k) != FlatNext(flat, t)(t.off + k);
    }
  }

  /** A transaction inside its block is the flat transaction. */
  lemma StepIsFlat(cells: Cells, flat: nat -> Byte, t: Transaction)
    requires Agrees(cells, flat) && Inside(t) && Size(t) <= 8
    ensures Agrees(Next(cells, t), FlatNext(flat, t)) && Answer(cells, t) == FlatAnswer(flat, t)
  {
    NextSized(cells, t);
    if t.action.Write? {
      WriteIsFlat(cells, flat, t);
    } else {
      hide FlatByte, Next;
      forall x: nat ensures FlatByte(Next(cells, t), x) == FlatNext(flat, t)(x) { NextByte(cells, t, x); }
      ReadIsFlat(cells, flat, t);
    }
  }

  /** The kth byte a read finds: in the block of its first byte, past the 1 KB span too. */
  ghost function BlockByte(cells: Cells, t: Transaction, k: nat): Byte
    requires Sized(cells) && t.off % 1024 + k < BLOCK_SIZE
  {
    if t.off / 1024 in cells then cells[t.off / 1024][t.off % 1024 + k] else 0
  }

  /** A read answers like flat memory exactly when the bytes its block holds past the 1 KB span are the
      ones of the next block. */
  lemma ReadIsFlat(cells: Cells, flat: nat -> Byte, t: Transaction)
    requires Agrees(cells, flat) && Size(t) <= 8 && t.action.Read?
    ensures Answer(cells, t) == FlatAnswer(flat, t) <==>
      forall k | 0 <= k < Size(t) && Past(t, k) :: BlockByte(cells, t, k) == flat(t.off + k)
  {
    var a, f := Answer(cells, t), FlatAnswer(flat, t);
    assert |a| == |f| == Size(t);
    forall k | 0 <= k < Size(t)
      ensures a[k] == BlockByte(cells, t, k) && f[k] == flat(t.off + k) && (!Past(t, k) ==> a[k] == f[k])
    {
      if !Past(t, k) {
        BlockAndIndex(t.off, k);
        assert FlatByte(cells, t.off + k) == flat(t.off + k);
      }
    }
    hide Answer, FlatAnswer, BlockByte, FlatByte;
    if a == f {
      forall k | 0 <= k < Size(t) && Past(t, k) ensures BlockByte(cells, t, k) == flat(t.off + k) {
        assert a[k] == f[k];
      }
    }
  }

  /** Two bytes written across a 1 KB boundary: the second one is not found where flat memory has it. */
  lemma CrossingCounterexample()
    ensures var run := [Transaction(1023, Write([1, 2])), Transaction(1024, Read(1))];
      Answers(Empty(), run) == [[], [0]] && FlatAnswers(Blank, run) == [[], [2]]
  {
    hide Zeros;
    var write, read := Transaction(1023, Write([1, 2])), Transaction(1024, Read(1));
    var run := [write, read];
    var c := Next(Empty(), write);
    NextSized(Empty(), write);
    NextSized(c, read);
    assert run[1..] == [read] && run[1..][1..] == [];
    assert 1 !in c;
    assert Answer(c, read) == [0];
    assert FlatAnswer(FlatNext(Blank, write), read) == [2];
    assert Answers(c, [read]) == [[0]];
    assert FlatAnswers(FlatNext(Blank, write), [read]) == [[2]];
  }

  ghost function Answers(cells: Cells, run: seq<Transaction>): (a: seq<seq<Byte>>)
    requires Sized(cells) && forall k | 0 <= k < |run| :: Size(run[k]) <= 8
    ensures |a| == |run|
    decreases run
  {
    if run == [] then []
    else
      NextSized(cells, run[0]);
      [Answer(cells, run[0])] + Answers(Next(cells, run[0]), run[1..])
  }

  ghost function FlatAnswers(flat: nat -> Byte, run: seq<Transaction>): seq<seq<Byte>>
    decreases run
  {
    if run == [] then [] else [FlatAnswer(flat, run[0])] + FlatAnswers(FlatNext(flat, run[0]), run[1..])
  }

  /** Over any run of transactions that stay inside a block, starting from the empty list of blocks, the
      memory cannot be told from a flat zero-filled one. */
  lemma RunIsFlat(run: seq<Transaction>)
    requires forall k | 0 <= k < |run| :: Size(run[k]) <= 8 && Inside(run[k])
    ensures Answers(Empty(), run) == FlatAnswers(Blank, run)
  {
    EmptyAgrees();
    hide *;
    RunFrom(Empty(), Blank, run);
  }

  /** Before the first transaction: block 0 only, all zero. */
  ghost function Empty(): (c: Cells)
    ensures Sized(c)
  {
    map[0 := Zeros()]
  }

  function Blank(x: nat): Byte { 0 }

  lemma EmptyAgrees()
    ensures Agrees(Empty(), Blank)
  {
  }

  lemma {:induction false} RunFrom(cells: Cells, flat: nat -> Byte, run: seq<Transaction>)
    requires Agrees(cells, flat) && forall k | 0 <= k < |run| :: Size(run[k]) <= 8 && Inside(run[k])
    ensures Answers(cells, run) == FlatAnswers(flat, run)
    decreases run
  {
    hide Next, FlatNext, Answer, FlatAnswer, FlatByte;
    if run != [] {
      NextSized(cells, run[0]);
      StepIsFlat(cells, flat, run[0]);
      RunFrom(Next(cells, run[0]), FlatNext(flat, run[0]), run[1..]);
    }
  }

  // ------------------------------------------------------------------ runs across block ends

  /** The condition of one access: what it reads or writes past its 1 KB block is what flat memory has. */
  ghost predicate Meets(cells: Cells, flat: nat -> Byte, t: Transaction)
    requires Sized(cells) && Size(t) <= 8
  {
    forall k | 0 <= k < Size(t) && Past(t, k) ::
      flat(t.off + k) == if t.action.Write? then t.action.data[k] else BlockByte(cells, t, k)
  }

  ghost predicate RunMeets(cells: Cells, flat: nat -> Byte, run: seq<Transaction>)
    requires Sized(cells) && forall k | 0 <= k < |run| :: Size(run[k]) <= 8
    decreases run
  {
    run == [] ||
    (NextSized(cells, run[0]);
     Meets(cells, flat, run[0]) && RunMeets(Next(cells, run[0]), FlatNext(flat, run[0]), run[1..]))
  }

  /** After every access of the run, its answer and every byte of memory are the flat ones. */
  ghost predicate StaysFlat(cells: Cells, flat: nat -> Byte, run: seq<Transaction>)
    requires Sized(cells) && forall k | 0 <= k < |run| :: Size(run[k]) <= 8
    decreases run
  {
    run == [] ||
    (NextSized(cells, run[0]);
     && Answer(cells, run[0]) == FlatAnswer(flat, run[0])
     && Agrees(Next(cells, run[0]), FlatNext(flat, run[0]))
     && StaysFlat(Next(cells, run[0]), FlatNext(flat, run[0]), run[1..]))
  }

  /** One access keeps flat memory exactly when it meets its condition. */
  lemma StepExact(cells: Cells, flat: nat -> Byte, t: Transaction)
    requires Agrees(cells, flat) && Size(t) <= 8
    ensures Sized(Next(cells, t))
    ensures Answer(cells, t) == FlatAnswer(flat, t) && Agrees(Next(cells, t), FlatNext(flat, t)) <==>
      Meets(cells, flat, t)
  {
    NextSized(cells, t);
    if t.action.Write? {
      WriteIsFlat(cells, flat, t);
      hide Next, FlatNext, FlatByte, BlockByte, Past;
    } else {
      hide FlatByte, Next, BlockByte, Past, Answer, FlatAnswer;
      forall x: nat ensures FlatByte(Next(cells, t), x) == FlatNext(flat, t)(x) { NextByte(cells, t, x); }
      ReadIsFlat(cells, flat, t);
    }
  }

  /** A run stays flat, whatever it reads and writes across block ends, if and only if every access of it
      meets its condition at its turn. */
  lemma {:induction false} RunExact(cells: Cells, flat: nat -> Byte, run: seq<Transaction>)
    requires Agrees(cells, flat) && forall k | 0 <= k < |run| :: Size(run[k]) <= 8
    ensures StaysFlat(cells, flat, run) <==> RunMeets(cells, flat, run)
    ensures RunMeets(cells, flat, run) ==> Answers(cells, run) == FlatAnswers(flat, run)
    decreases run
  {
    hide Next, FlatNext, Answer, FlatAnswer, FlatByte, Meets;
    if run != [] {
      StepExact(cells, flat, run[0]);
      if Meets(cells, flat, run[0]) { RunExact(Next(cells, run[0]), FlatNext(flat, run[0]), run[1..]); }
    }
  }

  /** Reads of single bytes see all there is to see: they answer like flat memory exactly when the two
      memories agree. */
  lemma ProbesAgree(cells: Cells, flat: nat -> Byte)
    requires Sized(cells)
    ensures (forall x: nat :: Answer(cells, Probe(x)) == FlatAnswer(flat, Probe(x))) <==> Agrees(cells, flat)
  {
    forall x: nat ensures Answer(cells, Probe(x)) == [FlatByte(cells, x)] && FlatAnswer(flat, Probe(x)) == [flat(x)] {}
    hide Answer, FlatAnswer, FlatByte;
    if forall x: nat :: Answer(cells, Probe(x)) == FlatAnswer(flat, Probe(x)) {
      forall x: nat ensures FlatByte(cells, x) == flat(x) {
        assert Answer(cells, Probe(x))[0] == FlatAnswer(flat, Probe(x))[0];
      }
    }
  }

  function Probe(x: nat): Transaction { Transaction(x, Read(1)) }

  // ------------------------------------------------------------------ the linked list

  class MemBlock {
    var nxt: MemBlock?
    var prv: MemBlock?
    var bid: nat
    const m: array<Byte>

    constructor (bid: nat)
      ensures this.bid == bid && nxt == null && prv == null
      ensures fresh(m) && m.Length == BLOCK_SIZE && m[..] == Zeros()
    {
      this.bid, nxt, prv := bid, null, null;
      m := new Byte[BLOCK_SIZE](_ => 0);
      new;
      assert m[..] == Zeros();
    }
  }

  function Follower(blocks: seq<MemBlock>, k: nat): MemBlock? {
    if k < |blocks| then blocks[k] else null
  }

  function Leader(blocks: seq<MemBlock>, k: nat): MemBlock? {
    if 0 < k <= |blocks| then blocks[k - 1] else null
  }

  /** Consecutive blocks point at each other, and the ends at nothing. */
  ghost predicate Linked(blocks: seq<MemBlock>)
    reads blocks`nxt, blocks`prv
  {
    && (forall k | 0 <= k < |blocks| :: blocks[k].nxt == Follower(blocks, k + 1))
    && (forall k | 0 <= k < |blocks| :: blocks[k].prv == Leader(blocks, k))
  }

  /** Block numbers increase strictly from 0. */
  ghost predicate Ascending(blocks: seq<MemBlock>)
    reads blocks`bid
  {
    |blocks| > 0 && blocks[0].bid == 0 && forall j, k | 0 <= j < k < |blocks| :: blocks[j].bid < blocks[k].bid
  }

  /** The blocks hold exactly the contents. */
  ghost predicate Holds(blocks: seq<MemBlock>, cells: Cells)
    reads blocks`bid, set k | 0 <= k < |blocks| :: blocks[k].m
  {
    Disjoint(blocks) && Covered(blocks, cells) && forall k | 0 <= k < |blocks| :: HoldsAt(blocks, cells, k)
  }

  ghost predicate Disjoint(blocks: seq<MemBlock>) {
    forall j, k | 0 <= j < k < |blocks| :: blocks[j].m != blocks[k].m
  }

  ghost predicate Covered(blocks: seq<MemBlock>, cells: Cells)
    reads blocks`bid
  {
    forall b | b in cells :: exists k :: 0 <= k < |blocks| && blocks[k].bid == b
  }

  ghost predicate HoldsAt(blocks: seq<MemBlock>, cells: Cells, k: nat)
    requires k < |blocks|
    reads blocks`bid, blocks[k].m
  {
    blocks[k].bid in cells && cells[blocks[k].bid] == blocks[k].m[..]
  }

  function With(blocks: seq<MemBlock>, k: nat, pnew: MemBlock): seq<MemBlock>
    requires k <= |blocks|
  {
    blocks[..k] + [pnew] + blocks[k..]
  }

  /** A new block is in before position k once its neighbours point at it and it at them. */
  lemma Relinked(blocks: seq<MemBlock>, k: nat, pnew: MemBlock)
    requires 0 < k <= |blocks|
    requires forall j | 0 <= j < |blocks| :: blocks[j].nxt == if j == k - 1 then pnew else Follower(blocks, j + 1)
    requires forall j | 0 <= j < |blocks| :: blocks[j].prv == if j == k then pnew else Leader(blocks, j)
    requires pnew.prv == blocks[k - 1] && pnew.nxt == Follower(blocks, k)
    ensures Linked(With(blocks, k, pnew))
  {
    var more := With(blocks, k, pnew);
    assert |more| == |blocks| + 1;
    forall j | 0 <= j < |more| ensures more[j].nxt == Follower(more, j + 1) {
      if j > k { assert more[j] == blocks[j - 1]; }
    }
    forall j | 0 <= j < |more| ensures more[j].prv == Leader(more, j) {
      if j > k { assert more[j] == blocks[j - 1]; }
    }
  }

  ghost predicate Apart(blocks: seq<MemBlock>, pnew: MemBlock) {
    pnew !in blocks && forall j, k | 0 <= j < k < |blocks| :: blocks[j] != blocks[k]
  }

  lemma Missing(blocks: seq<MemBlock>, cells: Cells, bid: nat, k: nat)
    requires Ascending(blocks) && Holds(blocks, cells) && 0 < k <= |blocks|
    requires blocks[k - 1].bid < bid && (k < |blocks| ==> bid < blocks[k].bid)
    ensures bid !in cells
  {
    hide Holds, Sized;
    forall j | 0 <= j < |blocks| ensures blocks[j].bid != bid {
      if j > k { assert blocks[k].bid < blocks[j].bid; }
      if j < k - 1 { assert blocks[j].bid < blocks[k - 1].bid; }
    }
    NotHeld(blocks, cells, bid);
  }

  lemma NotHeld(blocks: seq<MemBlock>, cells: Cells, bid: nat)
    requires Holds(blocks, cells) && forall j | 0 <= j < |blocks| :: blocks[j].bid != bid
    ensures bid !in cells
  {
  }

  lemma Touched(cells: Cells, bid: nat)
    requires bid !in cells
    ensures Touch(cells, bid) == cells[bid := Zeros()]
  {
  }

  lemma Separate(blocks: seq<MemBlock>)
    requires Ascending(blocks)
    ensures forall j, k | 0 <= j < k < |blocks| :: blocks[j] != blocks[k]
  {
  }

  /** The pointer updates of the append branch. */
  method LinkAfter(ghost blocks: seq<MemBlock>, ghost k: nat, b: MemBlock, pnew: MemBlock)
    requires k < |blocks| && b == blocks[k] && Linked(blocks) && Apart(blocks, pnew)
    modifies blocks`nxt, blocks`prv, pnew`nxt, pnew`prv
    ensures Linked(With(blocks, k + 1, pnew))
  {
    hide With;
    assert blocks[k].nxt == Follower(blocks, k + 1) && blocks[k].prv == Leader(blocks, k);
    pnew.nxt := b.nxt;
    pnew.prv := b;
    b.nxt := pnew;
    if pnew.nxt != null {
      pnew.nxt.prv := pnew;
    }
    Relinked(blocks, k + 1, pnew);
  }

  /** The pointer updates of the insert-before branch. */
  method LinkBefore(ghost blocks: seq<MemBlock>, ghost k: nat, b: MemBlock, pnew: MemBlock)
    requires 0 < k < |blocks| && b == blocks[k] && Linked(blocks) && Apart(blocks, pnew)
    modifies blocks`nxt, blocks`prv, pnew`nxt, pnew`prv
    ensures Linked(With(blocks, k, pnew))
  {
    hide With;
    assert blocks[k].nxt == Follower(blocks, k + 1) && blocks[k].prv == Leader(blocks, k);
    pnew.prv := b.prv;
    pnew.nxt := b;
    b.prv := pnew;
    if pnew.prv != null {
      pnew.prv.nxt := pnew;
    }
    Relinked(blocks, k, pnew);
  }

  /** Block numbers stay ascending. */
  lemma Ordered(blocks: seq<MemBlock>, k: nat, pnew: MemBlock)
    requires 0 < k <= |blocks| && Ascending(blocks)
    requires blocks[k - 1].bid < pnew.bid && (k < |blocks| ==> pnew.bid < blocks[k].bid)
    ensures Ascending(With(blocks, k, pnew))
  {
    var more := With(blocks, k, pnew);
    assert forall j | 0 <= j < |more| :: more[j] == if j < k then blocks[j] else if j == k then pnew else blocks[j - 1];
    hide With;
    forall i, j | 0 <= i < j < |more| ensures more[i].bid < more[j].bid {
      if j == k && i < k - 1 { assert blocks[i].bid < blocks[k - 1].bid; }
      if i == k && j > k + 1 { assert blocks[k].bid < blocks[j - 1].bid; }
    }
  }

  /** Adding a zeroed block adds its number to the contents. */
  lemma Inserted(blocks: seq<MemBlock>, cells: Cells, k: nat, pnew: MemBlock)
    requires k <= |blocks| && Holds(blocks, cells) && pnew.bid !in cells && pnew.m[..] == Zeros()
    requires forall j | 0 <= j < |blocks| :: blocks[j].m != pnew.m
    ensures Holds(With(blocks, k, pnew), cells[pnew.bid := Zeros()])
  {
    hide Zeros;
    var more, c := With(blocks, k, pnew), cells[pnew.bid := Zeros()];
    assert forall j | 0 <= j < |more| :: more[j] == if j < k then blocks[j] else if j == k then pnew else blocks[j - 1];
    hide With;
    forall j | 0 <= j < |more| ensures HoldsAt(more, c, j) {
      if j != k { assert HoldsAt(blocks, cells, if j < k then j else j - 1); }
    }
    hide HoldsAt;
    assert Disjoint(more);
    forall b | b in c ensures exists j :: 0 <= j < |more| && more[j].bid == b {
      if b == pnew.bid {
        assert more[k].bid == b;
      } else {
        var j :| 0 <= j < |blocks| && blocks[j].bid == b;
        assert more[if j < k then j else j + 1].bid == b;
      }
    }
  }

  ghost predicate Within(blocks: seq<MemBlock>, repr: set<object>) {
    forall k | 0 <= k < |blocks| :: blocks[k] in repr && blocks[k].m in repr
  }

  lemma Single(b: MemBlock)
    requires b.bid == 0 && b.nxt == null && b.prv == null && b.m[..] == Zeros()
    ensures Linked([b]) && Ascending([b]) && Holds([b], Empty())
  {
    hide Zeros;
    assert [b][0].bid == 0;
    assert HoldsAt([b], Empty(), 0);
  }

  class DDR {
    const mem_: MemBlock
    const base: nat
    ghost var blocks: seq<MemBlock>
    ghost var cells: Cells
    ghost var Repr: set<object>

    ghost predicate Valid()
      reads this, Repr
    {
      && Within(blocks, Repr)
      && Linked(blocks) && Ascending(blocks) && blocks[0] == mem_ && Holds(blocks, cells) && Sized(cells)
    }

    constructor (base: nat)
      ensures Valid() && fresh(Repr) && cells == Empty() && this.base == base
    {
      this.base := base;
      mem_ := new MemBlock(0);
      new;
      hide *;
      blocks, cells, Repr := [mem_], Empty(), {mem_, mem_.m};
      assert fresh(Repr);
      Begun();
    }

    lemma Begun()
      requires blocks == [mem_] && cells == Empty() && Repr == {mem_, mem_.m}
      requires mem_.bid == 0 && mem_.nxt == null && mem_.prv == null && mem_.m[..] == Zeros()
      ensures Valid()
    {
      Single(mem_);
      hide Zeros, Empty, Sized, Linked, Ascending, Holds;
    }

    /** getpMem: the block and index behind an address. The list stays sorted and doubly linked. */
    method GetpMem(addr: nat) returns (b: MemBlock, i: nat)
      requires Valid()
      modifies this, Repr
      ensures Valid() && fresh(Repr - old(Repr))
      ensures cells == Touch(old(cells), addr / 1024)
      ensures b in blocks && b.bid == addr / 1024 && i == addr % 1024
    {
      hide Zeros, Holds, Sized;
      var bid := addr / 1024;
      ghost var k;
      b, k := Search(bid);
      if b.bid < bid {
        b := InsertAfter(b, bid, k);
      } else if b.bid == bid {
        Allocated(k);
      } else {
        b := InsertBefore(b, bid, k);
      }
      i := addr % 1024;
    }

    /** The search loop: it stops at the last block or at the first block number not below bid. */
    method Search(bid: nat) returns (b: MemBlock, ghost k: nat)
      requires Valid()
      ensures k < |blocks| && b == blocks[k] && forall j | 0 <= j < k :: blocks[j].bid < bid
      ensures b.bid < bid ==> k + 1 == |blocks| && b.nxt == null
    {
      hide Zeros, Holds, Sized;
      b, k := mem_, 0;
      while b.nxt != null && bid > b.bid
        invariant 0 <= k < |blocks| && b == blocks[k] && forall j | 0 <= j < k :: blocks[j].bid < bid
        decreases |blocks| - k
      {
        assert blocks[k].nxt == Follower(blocks, k + 1);
        b := b.nxt;
        k := k + 1;
      }
      assert blocks[k].nxt == Follower(blocks, k + 1);
    }

    lemma Allocated(k: nat)
      requires Valid() && k < |blocks|
      ensures blocks[k].bid in cells
    {
      assert HoldsAt(blocks, cells, k);
    }

    /** The branch for a block number above the one the search stopped at. */
    method InsertAfter(b: MemBlock, bid: nat, ghost k: nat) returns (pnew: MemBlock)
      requires Valid() && k < |blocks| && b == blocks[k] && b.bid < bid
      requires k + 1 < |blocks| ==> bid < blocks[k + 1].bid
      modifies this, Repr
      ensures Valid() && fresh(Repr - old(Repr))
      ensures cells == Touch(old(cells), bid) && pnew in blocks && pnew.bid == bid
    {
      hide Zeros, Holds, Linked, Ascending, Sized, With, Apart, Touch, Follower, Leader, Valid;
      Parts(bid, k + 1);
      pnew := new MemBlock(bid);
      ghost var more, c := With(blocks, k + 1, pnew), cells[bid := Zeros()];
      Prepared(pnew, k + 1);
      assert Ascending(more) && Holds(more, c);
      LinkAfter(blocks, k, b, pnew);
      assert Ascending(more) && Holds(more, c);
      Adopt(pnew, k + 1, more, c);
      Touched(old(cells), bid);
    }

    /** What Valid says, and that a block number missing from the list is missing from the contents. */
    lemma Parts(bid: nat, k: nat)
      requires Valid() && 0 < k <= |blocks| && blocks[k - 1].bid < bid && (k < |blocks| ==> bid < blocks[k].bid)
      ensures Within(blocks, Repr) && Linked(blocks) && Ascending(blocks) && Holds(blocks, cells) && Sized(cells)
      ensures blocks[0] == mem_ && bid !in cells
    {
      hide Linked, Within, Sized;
      Missing(blocks, cells, bid, k);
      hide Ascending, Holds;
    }

    /** Block 0 is never above an address, so the insert-before branch finds a predecessor. */
    lemma HasPredecessor(bid: nat, k: nat)
      requires Valid() && k < |blocks| && bid < blocks[k].bid
      ensures k > 0
    {
    }

    lemma Prepared(pnew: MemBlock, k: nat)
      requires 0 < k <= |blocks| && Ascending(blocks) && Holds(blocks, cells)
      requires blocks[k - 1].bid < pnew.bid && (k < |blocks| ==> pnew.bid < blocks[k].bid)
      requires pnew !in blocks && pnew.bid !in cells && pnew.m[..] == Zeros()
      requires forall j | 0 <= j < |blocks| :: blocks[j].m != pnew.m
      ensures Apart(blocks, pnew) && Ascending(With(blocks, k, pnew))
      ensures Holds(With(blocks, k, pnew), cells[pnew.bid := Zeros()])
    {
      hide Zeros, Holds, With;
      Ordered(blocks, k, pnew);
      Inserted(blocks, cells, k, pnew);
      Separate(blocks);
    }

    /** The new block joins the list. */
    ghost method Adopt(pnew: MemBlock, p: nat, more: seq<MemBlock>, c: Cells)
      requires 0 < p <= |blocks| && more == With(blocks, p, pnew) && c == cells[pnew.bid := Zeros()]
      requires Linked(more) && Ascending(more) && Holds(more, c) && Sized(cells)
      requires blocks[0] == mem_ && Within(blocks, Repr)
      modifies this`blocks, this`cells, this`Repr
      ensures blocks == more && cells == c && Repr == old(Repr) + {pnew, pnew.m} && Valid() && pnew in blocks
    {
      hide Zeros, Holds, Linked, Ascending;
      assert more[p] == pnew && more[0] == mem_;
      Repr := Repr + {pnew, pnew.m};
      assert Within(more, Repr);
      blocks, cells := more, c;
    }

    /** The branch for a block number below the one the search stopped at: it always has a predecessor. */
    method InsertBefore(b: MemBlock, bid: nat, ghost k: nat) returns (pnew: MemBlock)
      requires Valid() && k < |blocks| && b == blocks[k] && bid < b.bid && forall j | 0 <= j < k :: blocks[j].bid < bid
      modifies this, Repr
      ensures Valid() && fresh(Repr - old(Repr))
      ensures cells == Touch(old(cells), bid) && pnew in blocks && pnew.bid == bid
    {
      hide Zeros, Holds, Linked, Ascending, Sized, With, Apart, Touch, Follower, Leader, Valid;
      HasPredecessor(bid, k);
      Parts(bid, k);
      pnew := new MemBlock(bid);
      ghost var more, c := With(blocks, k, pnew), cells[bid := Zeros()];
      Prepared(pnew, k);
      assert Ascending(more) && Holds(more, c);
      LinkBefore(blocks, k, b, pnew);
      assert Ascending(more) && Holds(more, c);
      Adopt(pnew, k, more, c);
      Touched(old(cells), bid);
    }

    /** b_transport: the bytes move between the payload and the block of the address. */
    method BTransport(addr: nat, action: Action) returns (rdata: seq<Byte>)
      requires Valid() && Size(Transaction(0, action)) <= 8
      modifies this, Repr
      ensures Valid() && fresh(Repr - old(Repr)) && Sized(old(cells))
      ensures var t := Transaction((addr - base) % 0x1_0000_0000_0000_0000, action);
        cells == Next(old(cells), t) && rdata == Answer(old(cells), t)
    {
      hide Zeros, Touch, Linked, Ascending, Follower, Leader, Overwrite, Holds;
      assert Sized(cells);
      var off := (addr - base) % 0x1_0000_0000_0000_0000;
      var b, i := GetpMem(off);
      rdata := Transfer(b, i, action);
    }

    /** The two directions of memcpy. */
    method Transfer(b: MemBlock, i: nat, action: Action) returns (rdata: seq<Byte>)
      requires Valid() && b in blocks && i < 1024 && Size(Transaction(0, action)) <= 8
      modifies this`cells, Repr
      ensures Valid() && b.bid in old(cells) && |old(cells)[b.bid]| == BLOCK_SIZE && b.bid == old(b.bid)
      ensures Repr == old(Repr)
      ensures match action
        case Read(size) => cells == old(cells) && rdata == cells[b.bid][i..i + size]
        case Write(data) => cells == old(cells)[b.bid := Overwrite(old(cells)[b.bid], i, data)] && rdata == []
    {
      hide Zeros, Linked, Ascending, Follower, Leader, Overwrite, Holds;
      ghost var k :| 0 <= k < |blocks| && blocks[k] == b;
      Contents(k);
      match action
      case Read(size) =>
        rdata := b.m[i..i + size];
      case Write(data) =>
        StoreBytes(b, i, data, k);
        rdata := [];
    }

    lemma Contents(k: nat)
      requires Valid() && k < |blocks|
      ensures blocks[k].bid in cells && cells[blocks[k].bid] == blocks[k].m[..] && blocks[k].m.Length == BLOCK_SIZE
      ensures blocks[k] in Repr && blocks[k].m in Repr
    {
      hide Linked, Ascending, Covered, Disjoint;
      assert HoldsAt(blocks, cells, k);
      assert |cells[blocks[k].bid]| == BLOCK_SIZE;
    }

    method StoreBytes(b: MemBlock, i: nat, data: seq<Byte>, ghost k: nat)
      requires Valid() && k < |blocks| && blocks[k] == b && i + |data| <= BLOCK_SIZE
      requires b.bid in cells && |cells[b.bid]| == BLOCK_SIZE
      modifies this`cells, b.m
      ensures Valid() && cells == old(cells[b.bid := Overwrite(cells[b.bid], i, data)])
    {
      hide Zeros, Linked, Ascending, Follower, Leader, Overwrite, Covered, HoldsAt;
      ghost var c, more := cells, cells[b.bid := Overwrite(cells[b.bid], i, data)];
      Contents(k);
      Separated(blocks);
      assert Covered(blocks, c) && forall j | 0 <= j < |blocks| && j != k :: HoldsAt(blocks, c, j);
      CopyTo(b.m, i, data);
      assert forall j | 0 <= j < |blocks| && j != k :: HoldsAt(blocks, c, j);
      cells := more;
      Rewritten(blocks, c, k);
    }
  }

  lemma Separated(blocks: seq<MemBlock>)
    requires Ascending(blocks) && Disjoint(blocks)
    ensures forall j, k | 0 <= j < |blocks| && 0 <= k < |blocks| && j != k ::
      blocks[j].m != blocks[k].m && blocks[j].bid != blocks[k].bid
  {
  }

  lemma Rewritten(blocks: seq<MemBlock>, cells: Cells, k: nat)
    requires k < |blocks| && Disjoint(blocks) && Ascending(blocks) && Covered(blocks, cells)
    requires forall j | 0 <= j < |blocks| && j != k :: HoldsAt(blocks, cells, j)
    ensures Holds(blocks, cells[blocks[k].bid := blocks[k].m[..]])
  {
    var c := cells[blocks[k].bid := blocks[k].m[..]];
    Separated(blocks);
    assert Covered(blocks, c) by { assert blocks[k].bid == blocks[k].bid; }
    hide Covered, Ascending;
    forall j | 0 <= j < |blocks| ensures HoldsAt(blocks, c, j) {
      if j != k { assert HoldsAt(blocks, cells, j); }
    }
  }

  /** memcpy into a block. */
  method CopyTo(m: array<Byte>, i: nat, data: seq<Byte>)
    requires i + |data| <= m.Length
    modifies m
    ensures m[..] == Overwrite(old(m[..]), i, data)
  {
    for k := 0 to |data|
      invariant forall j | 0 <= j < m.Length :: m[j] == if i <= j < i + k then data[j - i] else old(m[j])
    {
      m[i + k] := data[k];
    }
  }
}
