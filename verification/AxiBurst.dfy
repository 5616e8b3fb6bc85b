/** The AXI side of the RTL wrapper: one step is one clock cycle of sys_bus_proc, comb and registers. */
module AxiBurst {
  import opened Bits

  const ADDR_MOD: nat := 0x1_0000_0000_0000
  const OKAY: nat := 0
  const SLVERR: nat := 2

  datatype Phase = Idle | Read | Write | Reset

  datatype Regs = Regs(state: Phase, addr: nat, len: nat, burst: nat, bValid: bool, bResp: nat,
                       rError: bool, wError: bool, nrst: nat)

  /** A request channel: AR or AW. The beats of a burst are 2^size bytes wide, which the wrapper ignores. */
  datatype Request = Request(valid: bool, addr: nat, burst: nat, len: nat, size: nat)

  /** What a cycle sees: both request channels, whether the bus answers this beat with an error, whether
      reset() is called, and the handshake signals of the other channels, which the wrapper does not look
      at: a beat to write is there, a beat read or a response would be taken. */
  datatype In = In(ar: Request, aw: Request, error: bool, reset: bool, wValid: bool, rReady: bool, bReady: bool)

  datatype Out = Out(arReady: bool, awReady: bool, rValid: bool, rLast: bool, rResp: nat,
                     wReady: bool, bValid: bool, bResp: nat, sysNrst: bool)

  datatype State = State(r: Regs, requestReset: bool)

  // ------------------------------------------------------------------ one cycle

  predicate Busy(r: Regs) { r.state == Read || r.state == Write }

  /** The last beat of a burst is on the bus. */
  predicate LastBeat(r: Regs) { Busy(r) && r.len == 0 }

  /** A new request can be accepted in this cycle. */
  predicate Ready(s: State, i: In) {
    LastBeat(s.r) || (s.r.state == Idle && !(s.requestReset || i.reset))
  }

  predicate Accepts(s: State, i: In) { Ready(s, i) && (i.ar.valid || i.aw.valid) }

  /** The handshakes of the two request channels (AXI4, ARM IHI 0022 section A3.2): valid meets ready.
      Both ready outputs are the same signal, and only one request is taken. */
  predicate ReadShaken(s: State, i: In) { i.ar.valid && Output(s, i).arReady }

  predicate WriteShaken(s: State, i: In) { i.aw.valid && Output(s, i).awReady }

  function Chosen(i: In): Request { if i.ar.valid then i.ar else i.aw }

  /** Only incrementing bursts advance the address; the others continue at 0. */
  function NextAddr(addr: nat, burst: nat): nat {
    if burst == 1 then (addr + 8) % ADDR_MOD else 0
  }

  function NextPhase(s: State, i: In): Phase {
    if Ready(s, i) then (if i.ar.valid then Read else if i.aw.valid then Write else Idle)
    else match s.r.state
         case Idle => Reset
         case Reset => Idle
         case _ => s.r.state
  }

  function Step(s: State, i: In): State {
    var r := s.r;
    var moving := Busy(r) && r.len > 0;
    State(
      Regs(NextPhase(s, i),
           if Accepts(s, i) then Chosen(i).addr else if moving then NextAddr(r.addr, r.burst) else r.addr,
           if Accepts(s, i) then Chosen(i).len else if moving then r.len - 1 else r.len,
           if Accepts(s, i) then Chosen(i).burst else r.burst,
           r.state == Write && r.len == 0,
           if r.state == Write && r.len == 0 && (r.wError || i.error) then SLVERR else OKAY,
           if Ready(s, i) || r.state == Idle then false else r.rError || (r.state == Read && i.error),
           if Ready(s, i) || r.state == Idle then false else r.wError || (r.state == Write && i.error),
           (2 * r.nrst + if r.state == Reset then 0 else 1) % 32),
      (s.requestReset || i.reset) && r.state != Reset)
  }

  function Output(s: State, i: In): Out {
    var r := s.r;
    Out(Ready(s, i), Ready(s, i), r.state == Read, r.state == Read && r.len == 0,
        if r.rError || (r.state == Read && i.error) then SLVERR else OKAY,
        r.state == Write, r.bValid, r.bResp, r.nrst / 2 % 2 == 1)
  }

  /** The state before cycle n of a run. */
  function At(s: State, ins: seq<In>, n: nat): State
    requires n <= |ins|
  {
    if n == 0 then s else Step(At(s, ins, n - 1), ins[n - 1])
  }

  // ------------------------------------------------------------------ whole bursts

  /** The address of beat k. */
  function BeatAddr(q: Request, k: nat): nat {
    if k == 0 then q.addr else if q.burst == 1 then (q.addr + 8 * k) % ADDR_MOD else 0
  }

  ghost predicate AnyError(ins: seq<In>, from: nat, n: nat)
    requires from + n <= |ins|
  {
    exists j | from <= j < from + n :: ins[j].error
  }

  lemma AnyErrorNext(ins: seq<In>, from: nat, n: nat)
    requires from + n < |ins|
    ensures AnyError(ins, from, n + 1) <==> AnyError(ins, from, n) || ins[from + n].error
  {
  }

  lemma AddrNext(q: Request, k: nat)
    requires q.addr < ADDR_MOD
    ensures NextAddr(BeatAddr(q, k), q.burst) == BeatAddr(q, k + 1)
  {
    if q.burst == 1 {
      var a := q.addr + 8 * k;
      ModStep(a);
      assert BeatAddr(q, k) == a % ADDR_MOD by { if k == 0 { assert a % ADDR_MOD == a; } }
    }
  }

  lemma ModStep(a: nat)
    ensures (a % 0x1_0000_0000_0000 + 8) % 0x1_0000_0000_0000 == (a + 8) % 0x1_0000_0000_0000
  {
  }

  /** Beat k of the burst accepted in cycle i is on the bus. */
  ghost predicate OnBeat(r: Regs, ins: seq<In>, i: nat, k: nat)
    requires i + 1 + k <= |ins|
  {
    var q := Chosen(ins[i]);
    && r.state == (if ins[i].ar.valid then Read else Write) && r.len == q.len - k && r.burst == q.burst
    && r.addr == BeatAddr(q, k)
    && r.rError == (r.state == Read && AnyError(ins, i + 1, k))
    && r.wError == (r.state == Write && AnyError(ins, i + 1, k))
  }

  /** An accepted request of length field L is on the bus for the next L + 1 cycles, beat after beat, and
      nothing else is accepted before the last of them. */
  lemma {:induction false} BurstRuns(s: State, ins: seq<In>, i: nat, k: nat)
    requires i + 1 + k <= |ins| && i < |ins| && Accepts(At(s, ins, i), ins[i])
    requires k <= Chosen(ins[i]).len && Chosen(ins[i]).addr < ADDR_MOD
    ensures OnBeat(At(s, ins, i + 1 + k).r, ins, i, k)
    decreases k
  {
    hide NextAddr, BeatAddr, AnyError;
    var q := Chosen(ins[i]);
    if k == 0 {
      assert BeatAddr(q, 0) == q.addr by { FirstAddr(q); }
      assert !AnyError(ins, i + 1, 0) by { NoError(ins, i + 1); }
    } else {
      BurstRuns(s, ins, i, k - 1);
      AddrNext(q, k - 1);
      AnyErrorNext(ins, i + 1, k - 1);
    }
  }

  lemma FirstAddr(q: Request)
    ensures BeatAddr(q, 0) == q.addr
  {
  }

  lemma NoError(ins: seq<In>, from: nat)
    requires from <= |ins|
    ensures !AnyError(ins, from, 0)
  {
  }

  /** What the master sees of a read burst: a beat every cycle, the last one marked, an error response
      from the first failing beat on, and no grant before the last beat. */
  lemma ReadBurst(s: State, ins: seq<In>, i: nat, k: nat)
    requires i + 1 + k < |ins| && Accepts(At(s, ins, i), ins[i]) && ins[i].ar.valid
    requires k <= ins[i].ar.len && ins[i].ar.addr < ADDR_MOD
    ensures var o := Output(At(s, ins, i + 1 + k), ins[i + 1 + k]);
      && o.rValid && (o.rLast <==> k == ins[i].ar.len) && (o.arReady <==> k == ins[i].ar.len)
      && (o.rResp == SLVERR <==> AnyError(ins, i + 1, k + 1)) && !o.wReady
    ensures At(s, ins, i + 1 + k).r.addr == BeatAddr(ins[i].ar, k)
  {
    hide AnyError, BeatAddr, At;
    BurstRuns(s, ins, i, k);
    AnyErrorNext(ins, i + 1, k);
  }

  /** What the master sees of a write burst that no read request came with. */
  lemma WriteBurst(s: State, ins: seq<In>, i: nat, k: nat)
    requires i + 1 + k < |ins| && WriteShaken(At(s, ins, i), ins[i])
    requires k <= ins[i].aw.len && ins[i].aw.addr < ADDR_MOD
    ensures !ins[i].ar.valid ==> var o := Output(At(s, ins, i + 1 + k), ins[i + 1 + k]);
      && o.wReady && !o.rValid && (o.awReady <==> k == ins[i].aw.len) && (k > 0 ==> !o.bValid)
      && At(s, ins, i + 1 + k).r.addr == BeatAddr(ins[i].aw, k)
    ensures ins[i].ar.valid ==> At(s, ins, i + 1).r.state == Read
  {
    hide AnyError, BeatAddr;
    if !ins[i].ar.valid {
      BurstRuns(s, ins, i, k);
      if k > 0 { BurstRuns(s, ins, i, k - 1); }
    }
  }

  /** A write whose handshake completes gets its response in the cycle after its last beat, reporting an
      error exactly when some beat failed, unless a read request was valid in the same cycle: then the
      read is served instead. */
  lemma WriteResponse(s: State, ins: seq<In>, i: nat)
    requires i < |ins| && WriteShaken(At(s, ins, i), ins[i]) && ins[i].aw.addr < ADDR_MOD
    requires i + 2 + ins[i].aw.len <= |ins|
    ensures !ins[i].ar.valid ==> var r := At(s, ins, i + 2 + ins[i].aw.len).r;
      r.bValid && r.bResp == if AnyError(ins, i + 1, ins[i].aw.len + 1) then SLVERR else OKAY
    ensures ins[i].ar.valid ==> At(s, ins, i + 1).r.state == Read
  {
    hide AnyError, BeatAddr;
    if !ins[i].ar.valid {
      var n := ins[i].aw.len;
      BurstRuns(s, ins, i, n);
      AnyErrorNext(ins, i + 1, n);
      assert At(s, ins, i + 2 + n) == Step(At(s, ins, i + 1 + n), ins[i + 1 + n]);
    }
  }

  /** A write on the bus was shaken in some earlier cycle without a read, and is as many beats along as
      cycles have passed. */
  lemma {:induction false} WriteOrigin(s: State, ins: seq<In>, n: nat) returns (i: nat)
    requires n <= |ins| && s.r.state != Write && At(s, ins, n).r.state == Write
    ensures i < n && WriteShaken(At(s, ins, i), ins[i]) && !ins[i].ar.valid
    ensures n - i - 1 <= ins[i].aw.len && At(s, ins, n).r.len == ins[i].aw.len - (n - i - 1)
    decreases n
  {
    var b := At(s, ins, n - 1);
    if Ready(b, ins[n - 1]) {
      i := n - 1;
    } else {
      i := WriteOrigin(s, ins, n - 1);
    }
  }

  /** Every response answers a write that was shaken its length and two cycles before, without a read. */
  lemma ResponseCause(s: State, ins: seq<In>, n: nat) returns (i: nat)
    requires n < |ins| && s.r.state != Write && At(s, ins, n + 1).r.bValid
    ensures i < n && i + 1 + ins[i].aw.len == n && WriteShaken(At(s, ins, i), ins[i]) && !ins[i].ar.valid
  {
    assert At(s, ins, n + 1) == Step(At(s, ins, n), ins[n]);
    i := WriteOrigin(s, ins, n);
  }

  /** Both requests valid in an idle cycle: both handshakes complete, the read is served, and the write
      never gets a beat or a response. */
  lemma DroppedWrite(s: State, ins: seq<In>)
    requires s.r.state == Idle && !s.requestReset && !s.r.bValid && |ins| == 4
    requires ins[0].ar == Request(true, 0x1000, 1, 0, 3) && ins[0].aw == Request(true, 0x2000, 1, 0, 3)
    requires !ins[0].reset
    requires forall k | 1 <= k < 4 :: !ins[k].ar.valid && !ins[k].aw.valid && !ins[k].reset
    ensures ReadShaken(s, ins[0]) && WriteShaken(s, ins[0])
    ensures forall k: nat | k <= 4 :: At(s, ins, k).r.state != Write && !At(s, ins, k).r.bValid
  {
    hide At;
    FourCycles(s, ins);
    forall k: nat | k <= 4 ensures At(s, ins, k).r.state != Write && !At(s, ins, k).r.bValid {
      assert k == 0 || k == 1 || k == 2 || k == 3 || k == 4;
    }
  }

  lemma FourCycles(s: State, ins: seq<In>)
    requires |ins| >= 4
    ensures At(s, ins, 0) == s && At(s, ins, 1) == Step(s, ins[0])
    ensures At(s, ins, 2) == Step(At(s, ins, 1), ins[1]) && At(s, ins, 3) == Step(At(s, ins, 2), ins[2])
    ensures At(s, ins, 4) == Step(At(s, ins, 3), ins[3])
  {
    hide Step;
  }

  /** The beats of a burst run through consecutive 8-byte words, for every request, exactly when the
      burst increments or has a single beat, or when its second and last beat wraps to address 0. */
  lemma ConsecutiveWords(q: Request)
    requires q.addr < ADDR_MOD
    ensures (forall k: nat | k <= q.len :: BeatAddr(q, k) == (q.addr + 8 * k) % ADDR_MOD) <==>
      (q.burst == 1 || q.len == 0 || (q.len == 1 && q.addr + 8 == ADDR_MOD))
  {
    hide BeatAddr;
    BeatValues(q);
    Wraps(q.addr, 1);
    Wraps(q.addr, 2);
    if forall k: nat | k <= q.len :: BeatAddr(q, k) == (q.addr + 8 * k) % ADDR_MOD {
      if q.len >= 1 { assert BeatAddr(q, 1) == (q.addr + 8 * 1) % ADDR_MOD; }
      if q.len >= 2 { assert BeatAddr(q, 2) == (q.addr + 8 * 2) % ADDR_MOD; }
    }
  }

  lemma BeatValues(q: Request)
    requires q.addr < ADDR_MOD
    ensures BeatAddr(q, 0) == q.addr == (q.addr + 8 * 0) % ADDR_MOD
    ensures forall k: nat | k > 0 :: BeatAddr(q, k) == if q.burst == 1 then (q.addr + 8 * k) % ADDR_MOD else 0
  {
  }

  lemma Wraps(a: nat, k: nat)
    requires a < ADDR_MOD && (k == 1 || k == 2)
    ensures (a + 8 * k) % ADDR_MOD == 0 <==> a + 8 * k == ADDR_MOD
  {
  }

  /** A fixed burst at 0x8000 must stay there; after the first beat it is at 0 instead. */
  lemma FixedBurstMoves(s: State, ins: seq<In>)
    requires |ins| == 2 && ins[0].ar == Request(true, 0x8000, 0, 1, 3) && !ins[0].reset
    requires s.r.state == Idle && !s.requestReset
    ensures At(s, ins, 1).r.addr == 0x8000 && At(s, ins, 2).r.state == Read && At(s, ins, 2).r.addr == 0
  {
    assert At(s, ins, 1) == Step(s, ins[0]);
    assert At(s, ins, 2) == Step(At(s, ins, 1), ins[1]);
  }

  // ------------------------------------------------------------------ conservation over runs

  /** Totals over a run: beats asked for and served; read requests shaken and last beats; write requests
      shaken, of these the ones shaken together with a read, and responses. */
  datatype Totals = Totals(askedBeats: nat, servedBeats: nat, readBursts: nat, lasts: nat,
                           writeBursts: nat, lostWrites: nat, responses: nat)

  function One(b: bool): nat { if b then 1 else 0 }

  function Count(s: State, ins: seq<In>, n: nat): Totals
    requires n <= |ins|
  {
    if n == 0 then Totals(0, 0, 0, 0, 0, 0, 0)
    else
      var t, b, i := Count(s, ins, n - 1), At(s, ins, n - 1), ins[n - 1];
      Totals(t.askedBeats + (if Accepts(b, i) then Chosen(i).len + 1 else 0),
             t.servedBeats + One(Output(b, i).rValid || Output(b, i).wReady),
             t.readBursts + One(ReadShaken(b, i)),
             t.lasts + One(Output(b, i).rLast),
             t.writeBursts + One(WriteShaken(b, i)),
             t.lostWrites + One(WriteShaken(b, i) && ReadShaken(b, i)),
             t.responses + One(Output(b, i).bValid))
  }

  /** Beats still owed by the burst on the bus. */
  function Owed(r: Regs): nat { if Busy(r) then r.len + 1 else 0 }

  /** Over any run: every beat of every accepted burst is served or still owed; every read request that
      was shaken has had its last beat or is on the bus; every write request that was shaken has had its
      response, or is about to, or was shaken together with a read. */
  lemma {:induction false} RunConserves(s: State, ins: seq<In>, n: nat)
    requires n <= |ins|
    ensures var t, e := Count(s, ins, n), At(s, ins, n).r;
      && Owed(s.r) + t.askedBeats == t.servedBeats + Owed(e)
      && One(s.r.state == Read) + t.readBursts == t.lasts + One(e.state == Read)
      && One(s.r.state == Write) + One(s.r.bValid) + t.writeBursts ==
         t.responses + t.lostWrites + One(e.state == Write) + One(e.bValid)
    decreases n
  {
    if n > 0 {
      RunConserves(s, ins, n - 1);
      CycleConserves(At(s, ins, n - 1), ins[n - 1]);
      hide Step, Output, Accepts, Owed, Chosen, ReadShaken, WriteShaken;
    }
  }

  /** Every write whose handshake completes in the first n cycles has its response or is about to get it,
      if and only if in none of these cycles both requests meet the ready outputs. */
  lemma NoneLost(s: State, ins: seq<In>, n: nat)
    requires n <= |ins|
    ensures var t, e := Count(s, ins, n), At(s, ins, n).r;
      One(s.r.state == Write) + One(s.r.bValid) + t.writeBursts ==
        t.responses + One(e.state == Write) + One(e.bValid) <==>
      forall k | 0 <= k < n :: !(ins[k].ar.valid && ins[k].aw.valid && Ready(At(s, ins, k), ins[k]))
  {
    RunConserves(s, ins, n);
    LostIn(s, ins, n);
  }

  /** A write is lost exactly in the cycles that meet both requests with ready. */
  lemma {:induction false} LostIn(s: State, ins: seq<In>, n: nat)
    requires n <= |ins|
    ensures Count(s, ins, n).lostWrites == 0 <==>
      forall k | 0 <= k < n :: !(ins[k].ar.valid && ins[k].aw.valid && Ready(At(s, ins, k), ins[k]))
    decreases n
  {
    hide At, Ready, Accepts;
    if n > 0 { LostIn(s, ins, n - 1); }
  }

  lemma CycleConserves(s: State, i: In)
    ensures var r, e, o := s.r, Step(s, i).r, Output(s, i);
      && Owed(r) + (if Accepts(s, i) then Chosen(i).len + 1 else 0) == One(o.rValid || o.wReady) + Owed(e)
      && One(r.state == Read) + One(ReadShaken(s, i)) == One(o.rLast) + One(e.state == Read)
      && One(r.state == Write) + One(r.bValid) + One(WriteShaken(s, i)) ==
         One(o.bValid) + One(WriteShaken(s, i) && ReadShaken(s, i)) + One(e.state == Write) + One(e.bValid)
  {
  }

  /** Totals by the handshakes of the data and response channels: beats asked for and taken by a read, asked
      for and supplied by a write; writes accepted and responses taken; and the cycles in which the wrapper
      went on without the master. */
  datatype Handshakes = Handshakes(askedReads: nat, takenReads: nat, missedReads: nat,
                                   askedWrites: nat, suppliedWrites: nat, missedWrites: nat,
                                   accepted: nat, taken: nat, missed: nat)

  function Shaken(s: State, ins: seq<In>, n: nat): Handshakes
    requires n <= |ins|
  {
    if n == 0 then Handshakes(0, 0, 0, 0, 0, 0, 0, 0, 0)
    else
      var t, b, i := Shaken(s, ins, n - 1), At(s, ins, n - 1), ins[n - 1];
      var o, asked := Output(b, i), if Accepts(b, i) then Chosen(i).len + 1 else 0;
      Handshakes(t.askedReads + if i.ar.valid then asked else 0,
                 t.takenReads + One(o.rValid && i.rReady), t.missedReads + One(o.rValid && !i.rReady),
                 t.askedWrites + if i.ar.valid then 0 else asked,
                 t.suppliedWrites + One(o.wReady && i.wValid), t.missedWrites + One(o.wReady && !i.wValid),
                 t.accepted + One(Accepts(b, i) && !i.ar.valid),
                 t.taken + One(o.bValid && i.bReady), t.missed + One(o.bValid && !i.bReady))
  }

  function OwedIn(r: Regs, phase: Phase): nat { if r.state == phase then Owed(r) else 0 }

  lemma {:induction false} ShakenConserves(s: State, ins: seq<In>, n: nat)
    requires n <= |ins|
    ensures var t, e := Shaken(s, ins, n), At(s, ins, n).r;
      && OwedIn(s.r, Read) + t.askedReads == t.takenReads + t.missedReads + OwedIn(e, Read)
      && OwedIn(s.r, Write) + t.askedWrites == t.suppliedWrites + t.missedWrites + OwedIn(e, Write)
      && One(s.r.state == Write) + One(s.r.bValid) + t.accepted ==
         t.taken + t.missed + One(e.state == Write) + One(e.bValid)
    decreases n
  {
    if n > 0 {
      hide Step, Output, Accepts, OwedIn, Chosen, One;
      ShakenConserves(s, ins, n - 1);
      ShakenCycle(At(s, ins, n - 1), ins[n - 1]);
      Split(Output(At(s, ins, n - 1), ins[n - 1]), ins[n - 1]);
    }
  }

  lemma Split(o: Out, i: In)
    ensures One(o.rValid) == One(o.rValid && i.rReady) + One(o.rValid && !i.rReady)
    ensures One(o.wReady) == One(o.wReady && i.wValid) + One(o.wReady && !i.wValid)
    ensures One(o.bValid) == One(o.bValid && i.bReady) + One(o.bValid && !i.bReady)
  {
  }

  lemma ShakenCycle(s: State, i: In)
    ensures var r, e, o := s.r, Step(s, i).r, Output(s, i);
      var asked := if Accepts(s, i) then Chosen(i).len + 1 else 0;
      && OwedIn(r, Read) + (if i.ar.valid then asked else 0) == One(o.rValid) + OwedIn(e, Read)
      && OwedIn(r, Write) + (if i.ar.valid then 0 else asked) == One(o.wReady) + OwedIn(e, Write)
      && One(r.state == Write) + One(r.bValid) + One(Accepts(s, i) && !i.ar.valid) ==
         One(o.bValid) + One(e.state == Write) + One(e.bValid)
  {
  }

  /** The wrapper goes on whether the master follows or not. Over any run, the master has taken every beat
      of its reads that is not still owed if and only if it was ready in every cycle with a read on the bus;
      it has supplied every beat of its writes if and only if it had one in every cycle with a write on the
      bus; and it has taken every response if and only if it was ready whenever one was up. */
  lemma MasterKeepsUp(s: State, ins: seq<In>, n: nat)
    requires n <= |ins|
    ensures var t, e := Shaken(s, ins, n), At(s, ins, n).r;
      && (OwedIn(s.r, Read) + t.askedReads == t.takenReads + OwedIn(e, Read) <==>
            forall k | 0 <= k < n :: At(s, ins, k).r.state == Read ==> ins[k].rReady)
      && (OwedIn(s.r, Write) + t.askedWrites == t.suppliedWrites + OwedIn(e, Write) <==>
            forall k | 0 <= k < n :: At(s, ins, k).r.state == Write ==> ins[k].wValid)
      && (One(s.r.state == Write) + One(s.r.bValid) + t.accepted ==
            t.taken + One(e.state == Write) + One(e.bValid) <==>
            forall k | 0 <= k < n :: At(s, ins, k).r.bValid ==> ins[k].bReady)
  {
    ShakenConserves(s, ins, n);
    Missed(s, ins, n);
  }

  lemma {:induction false} Missed(s: State, ins: seq<In>, n: nat)
    requires n <= |ins|
    ensures Shaken(s, ins, n).missedReads == 0 <==>
      forall k | 0 <= k < n :: At(s, ins, k).r.state == Read ==> ins[k].rReady
    ensures Shaken(s, ins, n).missedWrites == 0 <==>
      forall k | 0 <= k < n :: At(s, ins, k).r.state == Write ==> ins[k].wValid
    ensures Shaken(s, ins, n).missed == 0 <==> forall k | 0 <= k < n :: At(s, ins, k).r.bValid ==> ins[k].bReady
    decreases n
  {
    hide At, Accepts, Ready;
    if n > 0 { Missed(s, ins, n - 1); }
  }

  // ------------------------------------------------------------------ who is served when

  /** The request registers hold the request. */
  predicate Holding(r: Regs, q: Request) { r.addr == q.addr && r.len == q.len && r.burst == q.burst }

  /** In an idle cycle without a reset request, and on the last beat of a burst, both ready outputs are high;
      a read is taken first, then a write, and without either the wrapper is idle. */
  lemma Grants(s: State, i: In)
    requires (s.r.state == Idle && !s.requestReset && !i.reset) ||
      ((s.r.state == Read || s.r.state == Write) && s.r.len == 0)
    ensures Output(s, i).arReady && Output(s, i).awReady
    ensures var e := Step(s, i).r;
      && (i.ar.valid ==> e.state == Read && Holding(e, i.ar))
      && (!i.ar.valid && i.aw.valid ==> e.state == Write && Holding(e, i.aw))
      && (!i.ar.valid && !i.aw.valid ==> e.state == Idle)
  {
  }

  /** In every other cycle both ready outputs are low: a burst goes on with one beat less, an idle cycle with
      a reset request leads to the reset state, and that back to the idle one. */
  lemma Withholds(s: State, i: In)
    requires (s.r.state == Idle && (s.requestReset || i.reset)) || s.r.state == Reset ||
      ((s.r.state == Read || s.r.state == Write) && s.r.len > 0)
    ensures !Output(s, i).arReady && !Output(s, i).awReady
    ensures var e := Step(s, i);
      && (s.r.state == Idle ==> e.r.state == Reset && e.requestReset)
      && (s.r.state == Reset ==> e.r.state == Idle && !e.requestReset)
      && (s.r.state == Read || s.r.state == Write ==> e.r.state == s.r.state && e.r.len == s.r.len - 1)
  {
  }

  /** Cycles until a request is taken: the beats the burst on the bus still has, or two for a reset. */
  function Wait(r: Regs): nat { if r.state == Read || r.state == Write then r.len else 2 }

  /** Over any run, ready comes within the remaining beats of the burst on the bus, or within two cycles if
      there is none and reset() is not called meanwhile. */
  lemma {:induction false} ReadyWithin(s: State, ins: seq<In>, n: nat) returns (k: nat)
    requires n < |ins| && n + Wait(At(s, ins, n).r) < |ins|
    requires At(s, ins, n).r.state == Idle || At(s, ins, n).r.state == Reset ==>
      forall j | n <= j <= n + 2 :: !ins[j].reset
    ensures n <= k <= n + Wait(At(s, ins, n).r)
    ensures Output(At(s, ins, k), ins[k]).arReady && Output(At(s, ins, k), ins[k]).awReady
    decreases Wait(At(s, ins, n).r)
  {
    hide Step, Output;
    var b := At(s, ins, n);
    if (b.r.state == Idle && !b.requestReset) || (b.r.state != Idle && b.r.state != Reset && b.r.len == 0) {
      Grants(b, ins[n]);
      k := n;
    } else {
      Withholds(b, ins[n]);
      var next := At(s, ins, n + 1);
      assert next == Step(b, ins[n]);
      if b.r.state == Idle {
        Withholds(next, ins[n + 1]);
        Grants(At(s, ins, n + 2), ins[n + 2]);
        k := n + 2;
      } else if b.r.state == Reset {
        Grants(next, ins[n + 1]);
        k := n + 1;
      } else {
        k := ReadyWithin(s, ins, n + 1);
      }
    }
  }

  /** A request held valid for that long is shaken. */
  lemma RequestShaken(s: State, ins: seq<In>, n: nat) returns (k: nat)
    requires n < |ins| && n + Wait(At(s, ins, n).r) < |ins|
    requires At(s, ins, n).r.state == Idle || At(s, ins, n).r.state == Reset ==>
      forall j | n <= j <= n + 2 :: !ins[j].reset
    ensures n <= k <= n + Wait(At(s, ins, n).r)
    ensures (forall j | n <= j <= n + Wait(At(s, ins, n).r) :: ins[j].ar.valid) ==> ReadShaken(At(s, ins, k), ins[k])
    ensures (forall j | n <= j <= n + Wait(At(s, ins, n).r) :: ins[j].aw.valid) ==> WriteShaken(At(s, ins, k), ins[k])
  {
    hide At, Output;
    k := ReadyWithin(s, ins, n);
  }

  /** Without the condition requests can starve: while reset() is called in every cycle, an idle wrapper
      never gets ready. */
  lemma {:induction false} ResetStarves(s: State, ins: seq<In>, n: nat)
    requires n < |ins| && s.r.state == Idle && forall j | 0 <= j < |ins| :: ins[j].reset
    ensures !Output(At(s, ins, n), ins[n]).arReady && !Output(At(s, ins, n), ins[n]).awReady
    ensures At(s, ins, n).r.state == Idle || At(s, ins, n).r.state == Reset
    decreases n
  {
    hide Step, Output;
    if n > 0 {
      ResetStarves(s, ins, n - 1);
      Withholds(At(s, ins, n - 1), ins[n - 1]);
      assert At(s, ins, n) == Step(At(s, ins, n - 1), ins[n - 1]);
    }
    Withholds(At(s, ins, n), ins[n]);
  }

  /** A reset called outside the reset state is served in the next idle cycle, whatever bursts come before. */
  lemma {:induction false} ResetServed(s: State, ins: seq<In>, n: nat, k: nat)
    requires n <= k < |ins| && (ins[n].reset || At(s, ins, n).requestReset)
    requires forall j | n <= j < k :: At(s, ins, j).r.state != Reset
    requires At(s, ins, k).r.state == Idle
    ensures At(s, ins, k + 1).r.state == Reset && !Output(At(s, ins, k), ins[k]).arReady
  {
    hide Step, Output;
    Pending(s, ins, n, k);
    Withholds(At(s, ins, k), ins[k]);
    assert At(s, ins, k + 1) == Step(At(s, ins, k), ins[k]);
  }

  lemma {:induction false} Pending(s: State, ins: seq<In>, n: nat, k: nat)
    requires n <= k < |ins| && (ins[n].reset || At(s, ins, n).requestReset)
    requires forall j | n <= j < k :: At(s, ins, j).r.state != Reset
    ensures ins[k].reset || At(s, ins, k).requestReset
    decreases k
  {
    if n < k {
      Pending(s, ins, n, k - 1);
      assert At(s, ins, k) == Step(At(s, ins, k - 1), ins[k - 1]);
    }
  }

  /** A reset request is served in the first idle cycle, and two cycles after it the system reset is low
      for one cycle. */
  lemma ResetPulse(s: State, ins: seq<In>)
    requires |ins| == 5 && s.r.state == Idle && (s.requestReset || ins[0].reset)
    requires s.r.nrst == 0x1F
    ensures !Ready(s, ins[0]) && At(s, ins, 1).r.state == Reset && At(s, ins, 2).r.state == Idle
    ensures !At(s, ins, 2).requestReset
    ensures Output(s, ins[0]).sysNrst && Output(At(s, ins, 1), ins[1]).sysNrst
    ensures Output(At(s, ins, 2), ins[2]).sysNrst && !Output(At(s, ins, 3), ins[3]).sysNrst
    ensures Output(At(s, ins, 4), ins[4]).sysNrst
  {
    hide At, Chosen, NextAddr;
    FourCycles(s, ins);
    var s1, s2, s3 := At(s, ins, 1), At(s, ins, 2), At(s, ins, 3);
    assert s1.r.state == Reset && s1.r.nrst == 0x1F;
    assert s2.r.state == Idle && s2.r.nrst == 0x1E && !s2.requestReset;
    assert s3.r.nrst == if s2.r.state == Reset then 0x1C else 0x1D;
    hide Step;
  }

  // ------------------------------------------------------------------ byte lanes of a write

  function Lane(mask: nat, j: nat): bool
  {
    if j == 0 then mask % 2 == 1 else Lane(mask / 2, j - 1)
  }

  /** Lane j is bit j of the strobe. */
  lemma {:induction false} LaneBit(mask: nat, j: nat)
    ensures Lane(mask, j) <==> mask / Pow2(j) % 2 == 1
  {
    hide Pow2;
    if j > 0 {
      LaneBit(mask / 2, j - 1);
      Pow2Next(j - 1);
      DivDiv(mask, 2, Pow2(j - 1));
    } else {
      Pow2Values();
      assert Pow2(0) == 1 by { PowZero(); }
    }
  }

  lemma PowZero()
    ensures Pow2(0) == 1
  {
  }

  /** mask >> n. */
  function Shifted(mask: nat, n: nat): nat {
    if n == 0 then mask else Shifted(mask / 2, n - 1)
  }

  lemma {:induction false} ShiftedLane(mask: nat, n: nat, j: nat)
    ensures Lane(Shifted(mask, n), j) == Lane(mask, n + j)
    decreases n
  {
    if n > 0 { ShiftedLane(mask / 2, n - 1, j); }
  }

  lemma {:induction false} NoLane(mask: nat, n: nat)
    requires mask == 0
    ensures !Lane(mask, n)
    decreases n
  {
    if n > 0 { NoLane(mask / 2, n - 1); }
  }

  lemma {:induction false} LanesEnd(mask: nat, n: nat, j: nat)
    requires mask < Pow2(n) && j >= n
    ensures !Lane(mask, j)
    decreases n
  {
    if n == 0 { NoLane(mask, j); } else { LanesEnd(mask / 2, n - 1, j - 1); }
  }

  /** The set lanes are consecutive. */
  ghost predicate Contiguous(mask: nat) {
    forall a, b, c | 0 <= a < b < c < 8 && Lane(mask, a) && Lane(mask, c) :: Lane(mask, b)
  }

  /** mask2offset: the lowest set lane, 0 when there is none. */
  method Mask2Offset(mask: nat) returns (offset: nat)
    ensures forall j | 0 <= j < offset :: !Lane(mask, j)
    ensures offset < 8 && (Lane(mask, offset) || (offset == 0 && forall j | 0 <= j < 8 :: !Lane(mask, j)))
  {
    var m := mask;
    for i := 0 to 8
      invariant forall j: nat :: Lane(m, j) == Lane(mask, i + j)
      invariant forall j | 0 <= j < i :: !Lane(mask, j)
    {
      assert Lane(m, 0) == Lane(mask, i + 0);
      if m % 2 == 1 {
        return i;
      }
      forall j: nat ensures Lane(m / 2, j) == Lane(mask, i + 1 + j) {
        assert Lane(m, j + 1) == Lane(mask, i + (j + 1));
      }
      m := m / 2;
    }
    offset := 0;
  }

  /** mask2size: the number of set lanes before the first clear one. */
  method Mask2Size(mask: nat) returns (bytes: nat)
    ensures bytes <= 8 && (forall j | 0 <= j < bytes :: Lane(mask, j)) && (bytes < 8 ==> !Lane(mask, bytes))
  {
    var m := mask;
    bytes := 0;
    for i := 0 to 8
      invariant bytes == i && (forall j | 0 <= j < i :: Lane(mask, j))
      invariant forall j: nat :: Lane(m, j) == Lane(mask, i + j)
    {
      assert Lane(m, 0) == Lane(mask, i + 0);
      if m % 2 == 0 {
        break;
      }
      bytes := bytes + 1;
      forall j: nat ensures Lane(m / 2, j) == Lane(mask, i + 1 + j) {
        assert Lane(m, j + 1) == Lane(mask, i + (j + 1));
      }
      m := m / 2;
    }
  }

  /** The lanes from offset on, size of them, are the set ones. */
  ghost predicate Covers(mask: nat, offset: nat, size: nat) {
    forall j: nat | j < 8 :: Lane(mask, j) <==> offset <= j < offset + size
  }

  /** The write beat of sys_bus_proc: where the transaction goes and the bytes it carries. They are the
      strobed lanes of the beat, at their addresses, exactly when the strobe is contiguous. */
  method WriteBeat(addr: nat, strobe: nat, wdata: seq<nat>) returns (to: nat, data: seq<nat>)
    requires strobe < 256 && |wdata| == 8
    ensures addr - addr % 8 <= to && to + |data| <= addr - addr % 8 + 8
    ensures forall x | 0 <= x < |data| :: data[x] == wdata[to + x - (addr - addr % 8)]
    ensures Covers(strobe, to - (addr - addr % 8), |data|) <==> Contiguous(strobe)
  {
    hide Lane, Shifted;
    var offset := Mask2Offset(strobe);
    var size := Mask2Size(Shifted(strobe, offset));
    forall j: nat ensures Lane(Shifted(strobe, offset), j) == Lane(strobe, offset + j) {
      ShiftedLane(strobe, offset, j);
    }
    forall k: nat | offset <= k < offset + size ensures Lane(strobe, k) {
      assert Lane(Shifted(strobe, offset), k - offset);
      ShiftedLane(strobe, offset, k - offset);
    }
    Pow2Values();
    LanesEnd(strobe, 8, 8);
    to := addr - addr % 8 + offset;
    data := wdata[offset..offset + size];
    LanesCovered(strobe, offset, size);
  }

  lemma LanesCovered(mask: nat, offset: nat, size: nat)
    requires offset + size <= 8 && (forall j | 0 <= j < offset :: !Lane(mask, j))
    requires offset < 8 && (Lane(mask, offset) || (offset == 0 && forall j | 0 <= j < 8 :: !Lane(mask, j)))
    requires forall j | offset <= j < offset + size :: Lane(mask, j)
    requires offset + size < 8 ==> !Lane(mask, offset + size)
    ensures Covers(mask, offset, size) <==> Contiguous(mask)
  {
    hide Lane;
    if size == 0 {
      assert !Lane(mask, offset + size);
      assert forall j: nat | j < 8 :: !Lane(mask, j);
      assert Contiguous(mask) && Covers(mask, offset, size);
    } else {
      assert Lane(mask, offset);
      var end: nat := offset + size;
      if Contiguous(mask) {
        forall j: nat | j < 8 ensures offset <= j < offset + size <==> Lane(mask, j) {
          assert j > end && Lane(mask, j) ==> Lane(mask, end);
        }
      }
      if Covers(mask, offset, size) {
        forall a, b, c | 0 <= a < b < c < 8 && Lane(mask, a) && Lane(mask, c) ensures Lane(mask, b) {
          assert offset <= a && c < offset + size;
        }
      }
    }
  }

  // ------------------------------------------------------------------ the machine in place

  class RtlWrapper {
    var r: Regs
    var v: Regs
    var request_reset: bool

    ghost function Now(): State
      reads this
    {
      State(r, request_reset)
    }

    constructor ()
      ensures r.state == Idle && !request_reset && v == r
    {
      r := Regs(Idle, 0, 0, 0, false, OKAY, false, false, 1);
      v := Regs(Idle, 0, 0, 0, false, OKAY, false, false, 1);
      request_reset := false;
    }

    /** comb for the registers r: fills the next registers v and the outputs. */
    method Comb(i: In, busError: bool) returns (o: Out)
      requires v == r && busError == (i.error && Busy(r)) && (i.reset ==> request_reset)
      modifies this`v, this`request_reset
      ensures State(v, request_reset) == Step(old(Now()), i) && o == Output(old(Now()), i)
    {
      hide Step, Ready;
      var ready, rValid, rLast, wReady;
      v, request_reset, ready, rValid, rLast, wReady := Advance(r, request_reset, i, busError);
      var readError := busError && r.state == Read;
      o := Out(ready, ready, rValid, rLast, if r.rError || readError then SLVERR else OKAY, wReady, r.bValid, r.bResp,
               r.nrst / 2 % 2 == 1);
    }

    /** The case over the state, and the grant: the next registers and the reset request. */
    static method Advance(r: Regs, requestReset: bool, i: In, busError: bool)
        returns (v: Regs, request: bool, ready: bool, rValid: bool, rLast: bool, wReady: bool)
      requires busError == (i.error && Busy(r)) && (i.reset ==> requestReset)
      ensures State(v, request) == Step(State(r, requestReset), i) && ready == Ready(State(r, requestReset), i)
      ensures rValid == (r.state == Read) && rLast == (r.state == Read && r.len == 0) && wReady == (r.state == Write)
    {
      hide NextAddr, Output;
      request, ready, rValid, rLast, wReady := requestReset, false, false, false, false;
      v := r.(bValid := false, bResp := OKAY, nrst := (2 * r.nrst + 1) % 32);
      match r.state {
        case Idle =>
          v := v.(rError := false, wError := false);
          if requestReset {
            v := v.(state := Reset);
          } else {
            ready := true;
          }
        case Read =>
          rValid := true;
          if r.len == 0 {
            ready, rLast := true, true;
          } else {
            v := NextBeat(r, v.(rError := r.rError || busError));
          }
        case Write =>
          wReady := true;
          if r.len == 0 {
            v := v.(bValid := true, bResp := if r.wError || busError then SLVERR else OKAY);
            ready := true;
          } else {
            v := NextBeat(r, v.(wError := r.wError || busError));
          }
        case Reset =>
          request := false;
          v := v.(nrst := 2 * r.nrst % 32, state := Idle);
      }
      if ready {
        v := Grant(v, i);
      }
    }

    /** The registers for the next beat of a burst. */
    static method NextBeat(r: Regs, v0: Regs) returns (v: Regs)
      requires r.len > 0
      ensures v == v0.(len := r.len - 1, addr := NextAddr(r.addr, r.burst))
    {
      var vbReqAddr := 0;
      v := v0.(len := r.len - 1);
      if r.burst == 1 {
        vbReqAddr := (r.addr + 8) % ADDR_MOD;
      }
      v := v.(addr := vbReqAddr);
    }

    /** The grant at the end of comb: a read request first, then a write request. */
    static method Grant(v0: Regs, i: In) returns (v: Regs)
      ensures v == v0.(rError := false, wError := false,
                       state := if i.ar.valid then Read else if i.aw.valid then Write else Idle,
                       addr := if i.ar.valid || i.aw.valid then Chosen(i).addr else v0.addr,
                       len := if i.ar.valid || i.aw.valid then Chosen(i).len else v0.len,
                       burst := if i.ar.valid || i.aw.valid then Chosen(i).burst else v0.burst)
    {
      v := v0.(rError := false, wError := false);
      if i.ar.valid {
        v := v.(state := Read, addr := i.ar.addr, burst := i.ar.burst, len := i.ar.len);
      } else if i.aw.valid {
        v := v.(state := Write, addr := i.aw.addr, burst := i.aw.burst, len := i.aw.len);
      } else {
        v := v.(state := Idle);
      }
    }

    /** One clock cycle. */
    method Cycle(i: In) returns (o: Out)
      requires v == r
      modifies this
      ensures v == r && Now() == Step(old(Now()), i) && o == Output(old(Now()), i)
    {
      if i.reset {
        request_reset := true;
      }
      o := Comb(i, i.error && (r.state == Read || r.state == Write));
      r := v;
    }
  }
}
