/** The queue of timed callbacks: registrations wait in a pre-queue, then in a growing array that is
    drained by time and shrinks by moving its last element into the hole. */
module ClockQueue {

  const PREQUEUE_SIZE: nat := 1024

  /** A callback and the step it is due at; interface 0 is the null pointer. */
  datatype Item = Item(time: nat, iface: nat)

  datatype State = State(pre: seq<Item>, queue: seq<Item>, cnt: nat)

  // ------------------------------------------------------------------ the operations as functions

  function Put(s: State, item: Item): State {
    if |s.pre| >= PREQUEUE_SIZE then s else s.(pre := s.pre + [item])
  }

  function PushPreQueued(s: State): State {
    s.(pre := [], queue := s.queue + s.pre)
  }

  /** The element at i is overwritten by the last one, and the last slot is dropped. */
  function RemoveSwap(q: seq<Item>, i: nat): seq<Item>
    requires i < |q|
  {
    q[i := q[|q| - 1]][..|q| - 1]
  }

  /** The scan from the counter: the new state and the item taken out, if any. */
  function GetNext(s: State, step: nat): (r: (State, seq<Item>))
    ensures |r.1| <= 1
    decreases |s.queue| - s.cnt
  {
    if s.cnt >= |s.queue| then (s, [])
    else if step < s.queue[s.cnt].time then GetNext(s.(cnt := s.cnt + 1), step)
    else (s.(queue := RemoveSwap(s.queue, s.cnt)), [s.queue[s.cnt]])
  }

  /** The first item with the interface gets the new time. */
  function Retime(q: seq<Item>, cb: nat, time: nat): seq<Item> {
    if q == [] then []
    else if q[0].iface == cb then [Item(time, cb)] + q[1..]
    else [q[0]] + Retime(q[1..], cb, time)
  }

  predicate Has(q: seq<Item>, cb: nat) {
    exists i | 0 <= i < |q| :: q[i].iface == cb
  }

  function Move(s: State, cb: nat, time: nat): State {
    if Has(s.pre, cb) then s.(pre := Retime(s.pre, cb, time)) else s.(queue := Retime(s.queue, cb, time))
  }

  function Ifaces(q: seq<Item>): (r: seq<nat>)
    ensures |r| == |q|
  {
    seq(|q|, i requires 0 <= i < |q| => q[i].iface)
  }

  /** What a callback may do to the queue: register an item, or move a callback (moveStepCallback), which
      registers it when it is not there. */
  datatype Act = Register(item: Item) | Reschedule(cb: nat, time: nat)

  function Perform(s: State, act: Act): State {
    match act
    case Register(item) => Put(s, item)
    case Reschedule(cb, time) =>
      if Has(s.pre, cb) || Has(s.queue, cb) then Move(s, cb, time) else Put(s, Item(time, cb))
  }

  function PerformAll(s: State, acts: seq<Act>): State
    decreases acts
  {
    if acts == [] then s else PerformAll(Perform(s, acts[0]), acts[1..])
  }

  /** After a drain: the state, the callbacks fired, and the null item that ended it, if one did. */
  datatype Drained = Drained(state: State, fired: seq<Item>, nulls: seq<Item>)

  /** The loop of updateQueue: callbacks are taken out and run until the null pointer comes back. Each
      callback acts on the queue: acts(k) is what the one fired as number k does, and n have fired before. */
  function Drain(s: State, step: nat, acts: nat -> seq<Act>, n: nat): Drained
    decreases |s.queue|
  {
    GetNextShrinks(s, step);
    var (s1, taken) := GetNext(s, step);
    if taken == [] then Drained(s1, [], [])
    else if taken[0].iface == 0 then Drained(s1, [], taken)
    else
      PerformAllKeeps(s1, acts(n));
      var d := Drain(PerformAll(s1, acts(n)), step, acts, n + 1);
      d.(fired := taken + d.fired)
  }

  function UpdateQueue(s: State, step: nat, acts: nat -> seq<Act>): Drained {
    Drain(PushPreQueued(s.(cnt := 0)), step, acts, 0)
  }

  lemma {:induction false} RetimeLength(q: seq<Item>, cb: nat, time: nat)
    ensures |Retime(q, cb, time)| == |q|
  {
    if q != [] { RetimeLength(q[1..], cb, time); }
  }

  lemma PerformKeeps(s: State, act: Act)
    ensures |Perform(s, act).queue| == |s.queue| && Perform(s, act).cnt == s.cnt
    ensures act.Register? ==> Perform(s, act).queue == s.queue
  {
    if act.Reschedule? { RetimeLength(s.queue, act.cb, act.time); }
  }

  lemma {:induction false} PerformAllKeeps(s: State, acts: seq<Act>)
    ensures |PerformAll(s, acts).queue| == |s.queue| && PerformAll(s, acts).cnt == s.cnt
    ensures OnlyRegisters(acts) ==> PerformAll(s, acts).queue == s.queue
    decreases acts
  {
    hide Perform;
    if acts != [] {
      PerformKeeps(s, acts[0]);
      PerformAllKeeps(Perform(s, acts[0]), acts[1..]);
    }
  }

  /** Actions happen one after another: a registration, or a move, which registers what is not there. */
  lemma {:induction false} PerformInOrder(s: State, acts: seq<Act>, act: Act)
    ensures PerformAll(s, acts + [act]) == Perform(PerformAll(s, acts), act)
    ensures Perform(s, act) ==
      match act
      case Register(item) => Put(s, item)
      case Reschedule(cb, time) =>
        if (exists i | 0 <= i < |s.pre| :: s.pre[i].iface == cb) ||
          (exists i | 0 <= i < |s.queue| :: s.queue[i].iface == cb)
        then Move(s, cb, time) else Put(s, Item(time, cb))
    decreases acts
  {
    if acts != [] {
      assert (acts + [act])[1..] == acts[1..] + [act];
      PerformInOrder(Perform(s, acts[0]), acts[1..], act);
    } else {
      assert (acts + [act])[1..] == [];
    }
  }

  ghost predicate OnlyRegisters(acts: seq<Act>) {
    forall k | 0 <= k < |acts| :: acts[k].Register?
  }

  lemma {:induction false} GetNextShrinks(s: State, step: nat)
    ensures GetNext(s, step).1 != [] ==> |GetNext(s, step).0.queue| < |s.queue|
    decreases |s.queue| - s.cnt
  {
    if s.cnt < |s.queue| && step < s.queue[s.cnt].time { GetNextShrinks(s.(cnt := s.cnt + 1), step); }
  }

  /** One round of the loop, and its end. */
  lemma DrainRound(s: State, step: nat, acts: nat -> seq<Act>, n: nat)
    requires GetNext(s, step).1 != [] && GetNext(s, step).1[0].iface != 0
    ensures var (s1, taken) := GetNext(s, step);
      var d := Drain(PerformAll(s1, acts(n)), step, acts, n + 1);
      Drain(s, step, acts, n) == d.(fired := taken + d.fired)
    ensures var (s1, taken) := GetNext(s, step); |PerformAll(s1, acts(n)).queue| < |s.queue|
  {
    hide GetNext, PerformAll;
    GetNextShrinks(s, step);
    PerformAllKeeps(GetNext(s, step).0, acts(n));
  }

  /** What one round does to the invariant of the loop. */
  lemma DrainLoop(start: State, here: State, items: seq<Item>, step: nat, acts: nat -> seq<Act>, n: nat)
    requires GetNext(here, step).1 != [] && GetNext(here, step).1[0].iface != 0
    requires var d := Drain(here, step, acts, n); Drain(start, step, acts, 0) == d.(fired := items + d.fired)
    ensures var (s1, taken) := GetNext(here, step);
      var s2 := PerformAll(s1, acts(n));
      var d := Drain(s2, step, acts, n + 1);
      && Drain(start, step, acts, 0) == d.(fired := items + taken + d.fired)
      && Ifaces(items + taken) == Ifaces(items) + [taken[0].iface] && |s2.queue| < |here.queue|
  {
    hide GetNext, PerformAll, Drain;
    DrainRound(here, step, acts, n);
    IfacesConcat(items, GetNext(here, step).1);
    SingleIface(GetNext(here, step).1);
  }

  lemma DrainEnd(s: State, step: nat, acts: nat -> seq<Act>, n: nat)
    requires var taken := GetNext(s, step).1; taken == [] || taken[0].iface == 0
    ensures Drain(s, step, acts, n) == Drained(GetNext(s, step).0, [], GetNext(s, step).1)
  {
    hide GetNext;
  }

  lemma SingleIface(taken: seq<Item>)
    requires |taken| == 1
    ensures Ifaces(taken) == [taken[0].iface]
  {
  }

  // ------------------------------------------------------------------ one removal

  lemma RemoveSwapKeeps(q: seq<Item>, i: nat)
    requires i < |q|
    ensures multiset(q) == multiset(RemoveSwap(q, i)) + multiset([q[i]])
    ensures forall k | 0 <= k < i :: k < |RemoveSwap(q, i)| ==> RemoveSwap(q, i)[k] == q[k]
  {
    var n := |q| - 1;
    if i < n {
      var a, b := q[..i], q[i + 1..n];
      assert q == a + [q[i]] + b + [q[n]];
      assert RemoveSwap(q, i) == a + [q[n]] + b;
      FourParts(a, q[i], b, q[n]);
    } else {
      assert q == q[..n] + [q[n]];
      assert RemoveSwap(q, i) == q[..n];
    }
  }

  lemma FourParts(a: seq<Item>, x: Item, b: seq<Item>, y: Item)
    ensures multiset(a + [x] + b + [y]) == multiset(a + [y] + b) + multiset([x])
  {
  }

  ghost predicate Later(q: seq<Item>, n: nat, step: nat) {
    forall k | 0 <= k < n && k < |q| :: q[k].time > step
  }

  /** One getNext: either the first due item from the counter on leaves the queue, and only that one, or
      nothing from the counter on is due. */
  lemma {:induction false} GetNextTakes(s: State, step: nat)
    requires s.cnt <= |s.queue| && Later(s.queue, s.cnt, step)
    ensures var (s1, taken) := GetNext(s, step);
      && multiset(s.queue) == multiset(s1.queue) + multiset(taken) && s1.pre == s.pre
      && s1.cnt <= |s1.queue| && Later(s1.queue, s1.cnt, step)
      && (taken != [] ==> taken[0].time <= step)
      && (taken == [] ==> s1.cnt == |s1.queue|)
    decreases |s.queue| - s.cnt
  {
    if s.cnt < |s.queue| {
      if step < s.queue[s.cnt].time {
        GetNextTakes(s.(cnt := s.cnt + 1), step);
      } else {
        RemoveSwapKeeps(s.queue, s.cnt);
      }
    }
  }

  /** Which item is taken: the one at the first due position from the counter on. The last item takes its
      place, and the counter stops there; without a due position it stops at the end. */
  lemma {:induction false} GetNextFirst(s: State, step: nat, k: nat)
    requires s.cnt <= k <= |s.queue| && forall j | s.cnt <= j < k :: s.queue[j].time > step
    requires k < |s.queue| ==> s.queue[k].time <= step
    ensures var (s1, taken) := GetNext(s, step);
      && s1.pre == s.pre && s1.cnt == k
      && (if k < |s.queue| then
            var n := |s.queue| - 1;
            && taken == [s.queue[k]] && |s1.queue| == n
            && forall j | 0 <= j < n :: s1.queue[j] == if j == k then s.queue[n] else s.queue[j]
          else taken == [] && s1.queue == s.queue)
    decreases k - s.cnt
  {
    if s.cnt < k { GetNextFirst(s.(cnt := s.cnt + 1), step, k); }
  }

  /** A registration waits behind the others unless 1024 wait already, and an update appends the waiting
      ones to the queue in the order of their registration. */
  lemma PutOrder(s: State, item: Item)
    ensures |s.pre| < 1024 ==> Put(s, item) == State(s.pre + [item], s.queue, s.cnt)
    ensures |s.pre| >= 1024 ==> Put(s, item) == s
    ensures PushPreQueued(s) == State([], s.queue + s.pre, s.cnt)
  {
  }

  /** What a move changes: the time of the first waiting registration of the callback, or, if none waits, of
      the first queued one. */
  lemma MoveFirst(s: State, cb: nat, time: nat, k: nat)
    requires forall j | 0 <= j < k && j < |s.pre| :: s.pre[j].iface != cb
    ensures k < |s.pre| && s.pre[k].iface == cb ==>
      Move(s, cb, time) == State(s.pre[k := Item(time, cb)], s.queue, s.cnt)
    ensures k == |s.pre| ==> forall m | 0 <= m < |s.queue| && s.queue[m].iface == cb &&
      (forall j | 0 <= j < m :: s.queue[j].iface != cb) ::
        Move(s, cb, time) == State(s.pre, s.queue[m := Item(time, cb)], s.cnt)
  {
    hide Retime;
    if k < |s.pre| && s.pre[k].iface == cb {
      RetimeFirst(s.pre, cb, time, k);
    } else if k == |s.pre| {
      forall m | 0 <= m < |s.queue| && s.queue[m].iface == cb && (forall j | 0 <= j < m :: s.queue[j].iface != cb)
        ensures Move(s, cb, time) == State(s.pre, s.queue[m := Item(time, cb)], s.cnt)
      {
        RetimeFirst(s.queue, cb, time, m);
      }
    }
  }

  // ------------------------------------------------------------------ the drain

  /** The fired items were due and are callbacks; at most one null item came out, and it was due too. */
  ghost predicate FiredDue(d: Drained, step: nat) {
    && (forall k | 0 <= k < |d.fired| :: d.fired[k].time <= step && d.fired[k].iface != 0)
    && |d.nulls| <= 1 && (d.nulls != [] ==> d.nulls[0].time <= step && d.nulls[0].iface == 0)
  }

  /** Callbacks that only register leave the drained queue alone: it splits into what came out and what is
      left, and without a null item what is left is late. */
  lemma {:induction false} DrainSplits(s: State, step: nat, acts: nat -> seq<Act>, n: nat)
    requires s.cnt <= |s.queue| && Later(s.queue, s.cnt, step) && forall k: nat :: OnlyRegisters(acts(k))
    ensures var d := Drain(s, step, acts, n);
      && multiset(s.queue) == multiset(d.state.queue) + multiset(d.fired) + multiset(d.nulls)
      && FiredDue(d, step) && (d.nulls == [] ==> Later(d.state.queue, |d.state.queue|, step))
    decreases |s.queue|
  {
    hide GetNext, Later, OnlyRegisters, PerformAll, FiredDue;
    assert FiredDue(Drained(GetNext(s, step).0, [], []), step) by { NothingFired(GetNext(s, step).0, step); }
    GetNextShrinks(s, step);
    GetNextTakes(s, step);
    var (s1, taken) := GetNext(s, step);
    if taken != [] && taken[0].iface == 0 { NullFired(s1, taken, step); }
    if taken != [] && taken[0].iface != 0 {
      var s2 := PerformAll(s1, acts(n));
      PerformAllKeeps(s1, acts(n));
      DrainSplits(s2, step, acts, n + 1);
      MoreFired(s.queue, s1.queue, taken, Drain(s2, step, acts, n + 1), step);
    }
  }

  lemma NothingFired(s: State, step: nat)
    ensures FiredDue(Drained(s, [], []), step)
  {
  }

  lemma NullFired(s: State, taken: seq<Item>, step: nat)
    requires |taken| == 1 && taken[0].iface == 0 && taken[0].time <= step
    ensures FiredDue(Drained(s, [], taken), step)
  {
  }

  lemma MoreFired(q: seq<Item>, left: seq<Item>, taken: seq<Item>, d: Drained, step: nat)
    requires |taken| == 1 && taken[0].iface != 0 && taken[0].time <= step
    requires multiset(q) == multiset(left) + multiset(taken) && FiredDue(d, step)
    requires multiset(left) == multiset(d.state.queue) + multiset(d.fired) + multiset(d.nulls)
    ensures multiset(q) == multiset(d.state.queue) + multiset(taken + d.fired) + multiset(d.nulls)
    ensures FiredDue(d.(fired := taken + d.fired), step)
  {
  }

  /** The items of a queue that are due, and the others. */
  function Due(q: seq<Item>, step: nat): seq<Item> {
    if q == [] then [] else (if q[0].time <= step then [q[0]] else []) + Due(q[1..], step)
  }

  function Late(q: seq<Item>, step: nat): seq<Item> {
    if q == [] then [] else (if q[0].time <= step then [] else [q[0]]) + Late(q[1..], step)
  }

  lemma {:induction false} DueCounts(q: seq<Item>, step: nat, x: Item)
    ensures multiset(Due(q, step))[x] == if x.time <= step then multiset(q)[x] else 0
    ensures multiset(Late(q, step))[x] == if x.time <= step then 0 else multiset(q)[x]
  {
    if q != [] {
      assert q == [q[0]] + q[1..];
      DueCounts(q[1..], step, x);
    }
  }

  /** A split into due and late items is the split by Due and Late. */
  lemma SplitIsDue(q: seq<Item>, step: nat, fired: seq<Item>, left: seq<Item>)
    requires multiset(q) == multiset(left) + multiset(fired)
    requires forall k | 0 <= k < |fired| :: fired[k].time <= step
    requires forall k | 0 <= k < |left| :: left[k].time > step
    ensures multiset(fired) == multiset(Due(q, step)) && multiset(left) == multiset(Late(q, step))
  {
    forall x: Item
      ensures multiset(fired)[x] == multiset(Due(q, step))[x] && multiset(left)[x] == multiset(Late(q, step))[x]
    {
      DueCounts(q, step, x);
      if x.time <= step { assert x !in left; } else { assert x !in fired; }
    }
  }

  /** With callbacks that only register, updateQueue fires exactly the due items, waiting or just
      registered, each once, if and only if no due item is null; and then it leaves exactly the others. */
  lemma UpdateFiresDue(s: State, step: nat, acts: nat -> seq<Act>)
    requires forall k: nat :: OnlyRegisters(acts(k))
    ensures var d, q := UpdateQueue(s, step, acts), s.queue + s.pre;
      && (multiset(d.fired) == multiset(Due(q, step)) <==> NoNull(Due(q, step)))
      && (NoNull(Due(q, step)) ==> multiset(d.state.queue) == multiset(Late(q, step)))
  {
    hide Due, Late, Drain, OnlyRegisters;
    var q := s.queue + s.pre;
    var s0 := PushPreQueued(s.(cnt := 0));
    DrainSplits(s0, step, acts, 0);
    var d := Drain(s0, step, acts, 0);
    if NoNull(Due(q, step)) {
      if d.nulls != [] { NullIsDue(q, step, d); }
      SplitIsDue(q, step, d.fired, d.state.queue);
    }
    if multiset(d.fired) == multiset(Due(q, step)) {
      forall k | 0 <= k < |Due(q, step)| ensures Due(q, step)[k].iface != 0 {
        assert Due(q, step)[k] in multiset(d.fired);
      }
    }
  }

  ghost predicate NoNull(q: seq<Item>) {
    forall k | 0 <= k < |q| :: q[k].iface != 0
  }

  /** The null item that ends a drain was one of the due ones. */
  lemma NullIsDue(q: seq<Item>, step: nat, d: Drained)
    requires multiset(q) == multiset(d.state.queue) + multiset(d.fired) + multiset(d.nulls)
    requires FiredDue(d, step) && d.nulls != []
    ensures !NoNull(Due(q, step))
  {
    var x := d.nulls[0];
    DueCounts(q, step, x);
    assert multiset(d.nulls)[x] > 0;
    assert x in multiset(Due(q, step));
    var k :| 0 <= k < |Due(q, step)| && Due(q, step)[k] == x;
  }

  /** A null interface ends the drain early: the due item behind it is not fired at this step. */
  lemma NullStopsDrain(acts: nat -> seq<Act>)
    ensures var q := [Item(0, 0), Item(0, 7)];
      UpdateQueue(State([], q, 0), 5, acts).fired == [] && Due(q, 5) == q
  {
    var q := [Item(0, 0), Item(0, 7)];
    assert GetNext(State([], q, 0), 5).1 == [Item(0, 0)];
    assert Due(q[1..], 5) == [Item(0, 7)] + Due(q[1..][1..], 5);
  }

  /** Position of the first registration of the callback, or the length of the queue. */
  function FirstOf(q: seq<Item>, cb: nat): (k: nat)
    ensures k <= |q|
  {
    if q == [] || q[0].iface == cb then 0 else 1 + FirstOf(q[1..], cb)
  }

  lemma {:induction false} RetimeIs(q: seq<Item>, cb: nat, time: nat)
    ensures var k := FirstOf(q, cb); Retime(q, cb, time) == if k < |q| then q[k := Item(time, cb)] else q
    ensures Has(q, cb) <==> FirstOf(q, cb) < |q|
  {
    if q != [] {
      assert q == [q[0]] + q[1..];
      RetimeIs(q[1..], cb, time);
      if Has(q, cb) && q[0].iface != cb {
        var i :| 0 <= i < |q| && q[i].iface == cb;
        assert q[1..][i - 1] == q[i];
      }
    }
  }

  /** The action makes due a registration that the scan has already passed. */
  predicate PullsBehind(s: State, act: Act, step: nat) {
    act.Reschedule? && act.time <= step && !Has(s.pre, act.cb) && FirstOf(s.queue, act.cb) < s.cnt
  }

  /** An action keeps what the scan relies on exactly when it does not pull anything behind it. */
  lemma PullsOnly(s: State, act: Act, step: nat)
    requires s.cnt <= |s.queue| && Later(s.queue, s.cnt, step)
    ensures Later(Perform(s, act).queue, s.cnt, step) <==> !PullsBehind(s, act, step)
  {
    if act.Reschedule? {
      RetimeIs(s.queue, act.cb, act.time);
      if PullsBehind(s, act, step) { assert Perform(s, act).queue[FirstOf(s.queue, act.cb)].time <= step; }
    }
  }

  /** None of the actions pulls anything behind the scan. */
  ghost predicate StaysAhead(s: State, acts: seq<Act>, step: nat)
    decreases acts
  {
    acts == [] || (!PullsBehind(s, acts[0], step) && StaysAhead(Perform(s, acts[0]), acts[1..], step))
  }

  /** No callback of the drain pulls anything behind the scan. */
  ghost predicate NeverBehind(s: State, step: nat, acts: nat -> seq<Act>, n: nat)
    decreases |s.queue|
  {
    GetNextShrinks(s, step);
    var (s1, taken) := GetNext(s, step);
    taken == [] || taken[0].iface == 0 ||
    (PerformAllKeeps(s1, acts(n));
     StaysAhead(s1, acts(n), step) && NeverBehind(PerformAll(s1, acts(n)), step, acts, n + 1))
  }

  lemma {:induction false} TakesDue(s: State, step: nat)
    ensures var taken := GetNext(s, step).1; taken != [] ==> taken[0].time <= step
    decreases |s.queue| - s.cnt
  {
    if s.cnt < |s.queue| && step < s.queue[s.cnt].time { TakesDue(s.(cnt := s.cnt + 1), step); }
  }

  /** Whatever the callbacks register and move, only due callbacks fire. */
  lemma {:induction false} FiresOnlyDue(s: State, step: nat, acts: nat -> seq<Act>, n: nat)
    ensures FiredDue(Drain(s, step, acts, n), step)
    decreases |s.queue|
  {
    hide GetNext, PerformAll;
    GetNextShrinks(s, step);
    TakesDue(s, step);
    var (s1, taken) := GetNext(s, step);
    if taken != [] && taken[0].iface != 0 {
      PerformAllKeeps(s1, acts(n));
      FiresOnlyDue(PerformAll(s1, acts(n)), step, acts, n + 1);
    }
  }

  // ------------------------------------------------------------------ what a drain leaves behind

  /** The due items the scan has passed. */
  ghost function Behind(s: State, step: nat): set<nat> {
    set k: nat | k < s.cnt && k < |s.queue| && s.queue[k].time <= step
  }

  /** An action on a registration the scan has passed marks it when it becomes due, and takes the mark away
      when it no longer is. */
  function Mark(marks: set<nat>, s: State, act: Act, step: nat): set<nat> {
    if act.Reschedule? && !Has(s.pre, act.cb) && FirstOf(s.queue, act.cb) < s.cnt then
      if act.time <= step then marks + {FirstOf(s.queue, act.cb)} else marks - {FirstOf(s.queue, act.cb)}
    else marks
  }

  function MarkAll(marks: set<nat>, s: State, acts: seq<Act>, step: nat): set<nat>
    decreases acts
  {
    if acts == [] then marks else MarkAll(Mark(marks, s, acts[0], step), Perform(s, acts[0]), acts[1..], step)
  }

  /** The marks after the actions of all callbacks of a drain. */
  function MarkDrain(marks: set<nat>, s: State, step: nat, acts: nat -> seq<Act>, n: nat): set<nat>
    decreases |s.queue|
  {
    GetNextShrinks(s, step);
    var (s1, taken) := GetNext(s, step);
    if taken == [] || taken[0].iface == 0 then marks
    else
      PerformAllKeeps(s1, acts(n));
      MarkDrain(MarkAll(marks, s1, acts(n), step), PerformAll(s1, acts(n)), step, acts, n + 1)
  }

  lemma MarkIsBehind(s: State, act: Act, step: nat)
    requires s.cnt <= |s.queue|
    ensures Behind(Perform(s, act), step) == Mark(Behind(s, step), s, act, step)
  {
    if act.Reschedule? { RetimeIs(s.queue, act.cb, act.time); }
  }

  lemma {:induction false} MarkAllIsBehind(s: State, acts: seq<Act>, step: nat)
    requires s.cnt <= |s.queue|
    ensures Behind(PerformAll(s, acts), step) == MarkAll(Behind(s, step), s, acts, step)
    decreases acts
  {
    hide Perform, Mark, Behind;
    if acts != [] {
      MarkIsBehind(s, acts[0], step);
      PerformKeeps(s, acts[0]);
      MarkAllIsBehind(Perform(s, acts[0]), acts[1..], step);
    }
  }

  /** The scan passes late items only, and takes out what it stops at. */
  lemma {:induction false} ScanBehind(s: State, step: nat)
    requires s.cnt <= |s.queue|
    ensures var (s1, taken) := GetNext(s, step);
      && Behind(s1, step) == Behind(s, step) && s1.cnt <= |s1.queue|
      && (taken == [] ==> s1.cnt == |s1.queue|)
    decreases |s.queue| - s.cnt
  {
    if s.cnt < |s.queue| && step < s.queue[s.cnt].time { ScanBehind(s.(cnt := s.cnt + 1), step); }
  }

  /** The due items behind the scan at the end of a drain are exactly the marked ones. */
  lemma {:induction false} DrainMarks(s: State, step: nat, acts: nat -> seq<Act>, n: nat)
    requires s.cnt <= |s.queue|
    ensures var d := Drain(s, step, acts, n);
      && Behind(d.state, step) == MarkDrain(Behind(s, step), s, step, acts, n)
      && (d.nulls == [] ==> d.state.cnt == |d.state.queue|)
    decreases |s.queue|
  {
    hide GetNext, Behind, PerformAll, MarkAll;
    GetNextShrinks(s, step);
    ScanBehind(s, step);
    var (s1, taken) := GetNext(s, step);
    if taken != [] && taken[0].iface != 0 {
      PerformAllKeeps(s1, acts(n));
      MarkAllIsBehind(s1, acts(n), step);
      DrainMarks(PerformAll(s1, acts(n)), step, acts, n + 1);
    }
  }

  /** Whatever the callbacks do, a drain that no null item ends leaves nothing due if and only if no
      registration behind the scan is marked in the end. */
  lemma DrainLeavesNone(s: State, step: nat, acts: nat -> seq<Act>, n: nat)
    requires s.cnt <= |s.queue|
    ensures var d := Drain(s, step, acts, n);
      d.nulls == [] ==>
        (Later(d.state.queue, |d.state.queue|, step) <==> MarkDrain(Behind(s, step), s, step, acts, n) == {})
  {
    hide Drain, MarkDrain;
    DrainMarks(s, step, acts, n);
    var e := Drain(s, step, acts, n).state;
    if Behind(e, step) == {} && e.cnt == |e.queue| {
      forall k | 0 <= k < |e.queue| ensures e.queue[k].time > step { assert k !in Behind(e, step); }
    } else if k :| k in Behind(e, step) {
      assert !Later(e.queue, |e.queue|, step);
    }
  }

  /** The same for updateQueue, which starts a new scan. */
  lemma UpdateLeavesNone(s: State, step: nat, acts: nat -> seq<Act>)
    ensures var d, s0 := UpdateQueue(s, step, acts), PushPreQueued(s.(cnt := 0));
      d.nulls == [] ==> (Later(d.state.queue, |d.state.queue|, step) <==> MarkDrain({}, s0, step, acts, 0) == {})
  {
    hide Drain, MarkDrain, Later;
    var s0 := PushPreQueued(s.(cnt := 0));
    DrainLeavesNone(s0, step, acts, 0);
    assert Behind(s0, step) == {};
  }

  /** Actions that pull nothing behind the scan set no marks. */
  lemma {:induction false} AheadUnmarked(s: State, acts: seq<Act>, step: nat)
    requires StaysAhead(s, acts, step)
    ensures MarkAll({}, s, acts, step) == {}
    decreases acts
  {
    hide Perform;
    if acts != [] {
      assert Mark({}, s, acts[0], step) == {};
      AheadUnmarked(Perform(s, acts[0]), acts[1..], step);
    }
  }

  lemma {:induction false} NeverMarked(s: State, step: nat, acts: nat -> seq<Act>, n: nat)
    requires NeverBehind(s, step, acts, n)
    ensures MarkDrain({}, s, step, acts, n) == {}
    decreases |s.queue|
  {
    hide GetNext, StaysAhead, PerformAll, MarkAll;
    GetNextShrinks(s, step);
    var (s1, taken) := GetNext(s, step);
    if taken != [] && taken[0].iface != 0 {
      PerformAllKeeps(s1, acts(n));
      AheadUnmarked(s1, acts(n), step);
      NeverMarked(PerformAll(s1, acts(n)), step, acts, n + 1);
    }
  }

  /** If the callbacks never pull anything behind the scan, nothing due is left unless a null item ends
      the drain. */
  lemma AheadDrain(s: State, step: nat, acts: nat -> seq<Act>, n: nat)
    requires s.cnt <= |s.queue| && Later(s.queue, s.cnt, step) && NeverBehind(s, step, acts, n)
    ensures var d := Drain(s, step, acts, n); d.nulls == [] ==> Later(d.state.queue, |d.state.queue|, step)
  {
    assert Behind(s, step) == {};
    hide *;
    NeverMarked(s, step, acts, n);
    DrainLeavesNone(s, step, acts, n);
  }

  /** Every reschedule goes past the step. */
  ghost predicate Postpones(acts: seq<Act>, step: nat) {
    forall k | 0 <= k < |acts| :: acts[k].Reschedule? ==> acts[k].time > step
  }

  lemma {:induction false} PostponesAhead(s: State, acts: seq<Act>, step: nat)
    requires Postpones(acts, step)
    ensures StaysAhead(s, acts, step)
    decreases acts
  {
    hide Perform;
    if acts != [] { PostponesAhead(Perform(s, acts[0]), acts[1..], step); }
  }

  lemma {:induction false} PostponesNever(s: State, step: nat, acts: nat -> seq<Act>, n: nat)
    requires forall k: nat :: Postpones(acts(k), step)
    ensures NeverBehind(s, step, acts, n)
    decreases |s.queue|
  {
    hide GetNext, Postpones, StaysAhead, PerformAll;
    GetNextShrinks(s, step);
    var (s1, taken) := GetNext(s, step);
    if taken != [] && taken[0].iface != 0 {
      PerformAllKeeps(s1, acts(n));
      PostponesAhead(s1, acts(n), step);
      PostponesNever(PerformAll(s1, acts(n)), step, acts, n + 1);
    }
  }

  /** Callbacks that also reschedule, but only past the step: what fires is due, and unless a null item
      ends the drain nothing due is left behind. */
  lemma PostponingDrain(s: State, step: nat, acts: nat -> seq<Act>, n: nat)
    requires s.cnt <= |s.queue| && Later(s.queue, s.cnt, step) && forall k: nat :: Postpones(acts(k), step)
    ensures var d := Drain(s, step, acts, n);
      FiredDue(d, step) && (d.nulls == [] ==> Later(d.state.queue, |d.state.queue|, step))
  {
    hide *;
    FiresOnlyDue(s, step, acts, n);
    PostponesNever(s, step, acts, n);
    AheadDrain(s, step, acts, n);
  }

  /** A callback that pulls a registration forward which the scan has already passed: it is due when the
      drain ends, and still in the queue. */
  lemma PulledForwardMissed(acts: nat -> seq<Act>)
    requires acts(0) == [Reschedule(7, 3)]
    ensures UpdateQueue(State([], [Item(9, 7), Item(1, 8)], 0), 5, acts) ==
      Drained(State([], [Item(3, 7)], 1), [Item(1, 8)], [])
  {
    var q := [Item(9, 7), Item(1, 8)];
    var s := State([], q, 0);
    assert q + [] == q && PushPreQueued(s) == s;
    assert RemoveSwap(q, 1) == [Item(9, 7)];
    var s1 := State([], [Item(9, 7)], 1);
    assert GetNext(s.(cnt := 1), 5) == (s1, [Item(1, 8)]);
    assert GetNext(s, 5) == (s1, [Item(1, 8)]);
    assert s1.queue[0].iface == 7;
    assert Perform(s1, Reschedule(7, 3)) == State([], [Item(3, 7)], 1);
    assert PerformAll(s1, acts(0)) == State([], [Item(3, 7)], 1);
    DrainRound(s, 5, acts, 0);
    DrainEnd(State([], [Item(3, 7)], 1), 5, acts, 1);
  }

  /** The operations of a drain, in order. */
  ghost function ActOp(s: State, act: Act): Op {
    match act
    case Register(item) => PutOp(item)
    case Reschedule(cb, time) =>
      if Has(s.pre, cb) || Has(s.queue, cb) then MoveOp(cb, time) else PutOp(Item(time, cb))
  }

  ghost function ActOps(s: State, acts: seq<Act>): seq<Op>
    decreases acts
  {
    if acts == [] then [] else [ActOp(s, acts[0])] + ActOps(Perform(s, acts[0]), acts[1..])
  }

  ghost function DrainOps(s: State, step: nat, acts: nat -> seq<Act>, n: nat): seq<Op>
    decreases |s.queue|
  {
    GetNextShrinks(s, step);
    var (s1, taken) := GetNext(s, step);
    if taken == [] || taken[0].iface == 0 then [NextOp(step)]
    else
      PerformAllKeeps(s1, acts(n));
      [NextOp(step)] + (ActOps(s1, acts(n)) + DrainOps(PerformAll(s1, acts(n)), step, acts, n + 1))
  }

  lemma {:induction false} RunConcat(s: State, a: seq<Op>, b: seq<Op>)
    ensures var first := Run(s, a);
      var rest := Run(first.state, b);
      Run(s, a + b) == Outcome(rest.state, first.accepted + rest.accepted, first.given + rest.given)
    decreases a
  {
    hide Step;
    if a == [] {
      assert a + b == b;
    } else {
      assert (a + b)[0] == a[0] && (a + b)[1..] == a[1..] + b;
      RunConcat(Step(s, a[0]).state, a[1..], b);
    }
  }

  lemma {:induction false} ActsRun(s: State, acts: seq<Act>)
    ensures Run(s, ActOps(s, acts)).state == PerformAll(s, acts) && Run(s, ActOps(s, acts)).given == []
    decreases acts
  {
    if acts != [] {
      var op, rest := ActOp(s, acts[0]), ActOps(Perform(s, acts[0]), acts[1..]);
      assert ([op] + rest)[0] == op && ([op] + rest)[1..] == rest;
      assert Step(s, op).state == Perform(s, acts[0]) && Step(s, op).given == [];
      hide Step, Perform, ActOp;
      ActsRun(Perform(s, acts[0]), acts[1..]);
    }
  }

  /** A drain is a run of queue operations that gives out what it fires and the null that ends it. */
  lemma {:induction false} DrainIsRun(s: State, step: nat, acts: nat -> seq<Act>, n: nat)
    ensures var o, d := Run(s, DrainOps(s, step, acts, n)), Drain(s, step, acts, n);
      o.state == d.state && o.given == Ifaces(d.fired + d.nulls)
    decreases |s.queue|
  {
    hide GetNext, PerformAll, ActOps, Ifaces, Run;
    GetNextShrinks(s, step);
    var (s1, taken) := GetNext(s, step);
    OneOp(s, NextOp(step));
    if taken == [] || taken[0].iface == 0 {
      assert [] + taken == taken;
    } else {
      PerformAllKeeps(s1, acts(n));
      var s2, ops := PerformAll(s1, acts(n)), ActOps(s1, acts(n));
      ActsRun(s1, acts(n));
      DrainIsRun(s2, step, acts, n + 1);
      var d, more := Drain(s2, step, acts, n + 1), DrainOps(s2, step, acts, n + 1);
      hide Drain, DrainOps;
      RunConcat(s1, ops, more);
      RunConcat(s, [NextOp(step)], ops + more);
      assert taken + d.fired + d.nulls == taken + (d.fired + d.nulls);
      IfacesConcat(taken, d.fired + d.nulls);
      DrainUnfold(s, step, acts, n);
    }
  }

  lemma DrainUnfold(s: State, step: nat, acts: nat -> seq<Act>, n: nat)
    requires GetNext(s, step).1 != [] && GetNext(s, step).1[0].iface != 0
    ensures var (s1, taken) := GetNext(s, step);
      var s2, ops := PerformAll(s1, acts(n)), ActOps(s1, acts(n));
      var d := Drain(s2, step, acts, n + 1);
      && DrainOps(s, step, acts, n) == [NextOp(step)] + (ops + DrainOps(s2, step, acts, n + 1))
      && Drain(s, step, acts, n) == d.(fired := taken + d.fired)
  {
    hide GetNext, PerformAll, ActOps;
    DrainRound(s, step, acts, n);
  }

  /** Nothing is lost or duplicated by a drain, whatever the callbacks do. */
  lemma DrainConserves(s: State, step: nat, acts: nat -> seq<Act>, n: nat)
    ensures var o, d := Run(s, DrainOps(s, step, acts, n)), Drain(s, step, acts, n);
      Content(s) + multiset(o.accepted) == Content(d.state) + multiset(Ifaces(d.fired + d.nulls))
  {
    hide *;
    DrainIsRun(s, step, acts, n);
    RunConserves(s, DrainOps(s, step, acts, n));
  }

  lemma OneOp(s: State, op: Op)
    ensures Run(s, [op]) == Step(s, op)
  {
    var o := Step(s, op);
    hide Step;
    assert [op][1..] == [] && o.accepted + [] == o.accepted && o.given + [] == o.given;
  }

  // ------------------------------------------------------------------ conservation over runs

  datatype Op =
    | PutOp(item: Item)
    | PushOp
    | InitOp
    | NextOp(step: nat)
    | MoveOp(cb: nat, time: nat)
    | ResetOp

  datatype Outcome = Outcome(state: State, accepted: seq<nat>, given: seq<nat>)

  /** One operation, the interfaces it takes in and the ones it gives out (or, on reset, discards). */
  function Step(s: State, op: Op): Outcome {
    match op
    case PutOp(item) => Outcome(Put(s, item), if |s.pre| < PREQUEUE_SIZE then [item.iface] else [], [])
    case PushOp => Outcome(PushPreQueued(s), [], [])
    case InitOp => Outcome(s.(cnt := 0), [], [])
    case NextOp(step) => Outcome(GetNext(s, step).0, [], Ifaces(GetNext(s, step).1))
    case MoveOp(cb, time) => Outcome(Move(s, cb, time), [], [])
    case ResetOp => Outcome(State([], [], 0), [], Ifaces(s.queue + s.pre))
  }

  function Run(s: State, ops: seq<Op>): Outcome
    decreases ops
  {
    if ops == [] then Outcome(s, [], [])
    else
      var first := Step(s, ops[0]);
      var rest := Run(first.state, ops[1..]);
      Outcome(rest.state, first.accepted + rest.accepted, first.given + rest.given)
  }

  ghost function Content(s: State): multiset<nat> {
    multiset(Ifaces(s.queue + s.pre))
  }

  lemma {:induction false} IfacesOfEqual(q: seq<Item>, r: seq<Item>)
    requires multiset(q) == multiset(r)
    ensures multiset(Ifaces(q)) == multiset(Ifaces(r))
    decreases q
  {
    if q == [] {
      assert r == [] by { assert |multiset(r)| == 0; }
    } else {
      assert q[0] in multiset(r);
      var i :| 0 <= i < |r| && r[i] == q[0];
      var a, b := r[..i], r[i + 1..];
      assert q == [q[0]] + q[1..] && r == a + ([r[i]] + b);
      Without(q[0], q[1..], a, b);
      IfacesOfEqual(q[1..], a + b);
      hide Ifaces;
      IfacesConcat([q[0]], q[1..]);
      IfacesConcat(a, [r[i]] + b);
      IfacesConcat([r[i]], b);
      IfacesConcat(a, b);
    }
  }

  lemma Without(x: Item, rest: seq<Item>, a: seq<Item>, b: seq<Item>)
    requires multiset([x] + rest) == multiset(a + ([x] + b))
    ensures multiset(rest) == multiset(a + b)
  {
    assert multiset(rest) == multiset([x] + rest) - multiset{x};
    assert multiset(a + b) == multiset(a + ([x] + b)) - multiset{x};
  }

  lemma IfacesConcat(q: seq<Item>, r: seq<Item>)
    ensures Ifaces(q + r) == Ifaces(q) + Ifaces(r)
  {
  }

  lemma {:induction false} RetimeIfaces(q: seq<Item>, cb: nat, time: nat)
    ensures Ifaces(Retime(q, cb, time)) == Ifaces(q)
  {
    if q != [] {
      assert q == [q[0]] + q[1..];
      IfacesConcat([q[0]], q[1..]);
      if q[0].iface == cb {
        IfacesConcat([Item(time, cb)], q[1..]);
      } else {
        IfacesConcat([q[0]], Retime(q[1..], cb, time));
        RetimeIfaces(q[1..], cb, time);
      }
    }
  }

  lemma {:induction false} GetNextKeeps(s: State, step: nat)
    ensures var (s1, taken) := GetNext(s, step);
      s1.pre == s.pre && multiset(s.queue) == multiset(s1.queue) + multiset(taken)
    decreases |s.queue| - s.cnt
  {
    if s.cnt < |s.queue| {
      if step < s.queue[s.cnt].time {
        GetNextKeeps(s.(cnt := s.cnt + 1), step);
      } else {
        RemoveSwapKeeps(s.queue, s.cnt);
      }
    }
  }

  /** One step: what was there and what came in is what went out and what is there. */
  lemma StepConserves(s: State, op: Op)
    ensures var o := Step(s, op);
      Content(s) + multiset(o.accepted) == Content(o.state) + multiset(o.given)
  {
    hide GetNext, Retime, Ifaces;
    IfacesConcat(s.queue, s.pre);
    var o := Step(s, op);
    IfacesConcat(o.state.queue, o.state.pre);
    match op
    case PutOp(item) => PutContent(s, item);
    case PushOp => EmptyIfaces();
    case InitOp =>
    case NextOp(step) =>
      GetNextKeeps(s, step);
      var (s1, taken) := GetNext(s, step);
      IfacesOfEqual(s.queue, s1.queue + taken);
      IfacesConcat(s1.queue, taken);
    case MoveOp(cb, time) =>
      RetimeIfaces(s.pre, cb, time);
      RetimeIfaces(s.queue, cb, time);
    case ResetOp => EmptyIfaces();
  }

  lemma EmptyIfaces()
    ensures Ifaces([]) == []
  {
  }

  lemma PutContent(s: State, item: Item)
    ensures Ifaces(Put(s, item).pre) == Ifaces(s.pre) + if |s.pre| < PREQUEUE_SIZE then [item.iface] else []
  {
  }

  /** Over any run, every accepted callback is given out, discarded by a reset, or still held, with its
      multiplicity. */
  lemma {:induction false} RunConserves(s: State, ops: seq<Op>)
    ensures var o := Run(s, ops);
      Content(s) + multiset(o.accepted) == Content(o.state) + multiset(o.given)
    decreases ops
  {
    hide Step, Content;
    if ops != [] {
      var first := Step(s, ops[0]);
      StepConserves(s, ops[0]);
      RunConserves(first.state, ops[1..]);
      var rest := Run(first.state, ops[1..]);
      Balance(Content(s), multiset(first.accepted), Content(first.state), multiset(first.given),
        multiset(rest.accepted), Content(rest.state), multiset(rest.given));
      assert multiset(first.accepted + rest.accepted) == multiset(first.accepted) + multiset(rest.accepted);
      assert multiset(first.given + rest.given) == multiset(first.given) + multiset(rest.given);
    }
  }

  lemma Balance(a: multiset<nat>, in1: multiset<nat>, b: multiset<nat>, out1: multiset<nat>,
                in2: multiset<nat>, c: multiset<nat>, out2: multiset<nat>)
    requires a + in1 == b + out1 && b + in2 == c + out2
    ensures a + (in1 + in2) == c + (out1 + out2)
  {
    forall x ensures (a + (in1 + in2))[x] == (c + (out1 + out2))[x] {
      assert (a + in1)[x] == (b + out1)[x] && (b + in2)[x] == (c + out2)[x];
    }
  }

  // ------------------------------------------------------------------ the queue in place

  class ClockAsyncTQueue {
    var queue_: array<Item>
    var size_: nat
    var item_total_: nat
    var item_cnt_: nat
    var precnt_: nat
    const prequeue_: array<Item>

    ghost predicate Valid()
      reads this, queue_, prequeue_
    {
      && queue_.Length == size_ && size_ > 0 && item_total_ <= size_ && item_cnt_ <= item_total_
      && prequeue_.Length == PREQUEUE_SIZE && precnt_ <= PREQUEUE_SIZE && queue_ != prequeue_
    }

    ghost function Now(): State
      requires Valid()
      reads this, queue_, prequeue_
    {
      State(prequeue_[..precnt_], queue_[..item_total_], item_cnt_)
    }

    constructor ()
      ensures Valid() && Now() == State([], [], 0) && fresh(queue_) && fresh(prequeue_)
    {
      size_, item_total_, item_cnt_, precnt_ := 1, 0, 0, 0;
      queue_ := new Item[1];
      prequeue_ := new Item[PREQUEUE_SIZE];
    }

    method HardReset()
      requires Valid()
      modifies this
      ensures Valid() && queue_ == old(queue_) && Now() == State([], [], 0)
    {
      item_total_, precnt_, item_cnt_ := 0, 0, 0;
    }

    method InitProc()
      requires Valid()
      modifies this
      ensures Valid() && queue_ == old(queue_) && Now() == old(Now()).(cnt := 0)
    {
      item_cnt_ := 0;
    }

    /** put: the item joins the pre-queue, unless that is full. */
    method PutItem(time: nat, cb: nat)
      requires Valid()
      modifies this, prequeue_
      ensures Valid() && queue_ == old(queue_) && Now() == Put(old(Now()), Item(time, cb))
    {
      if precnt_ >= PREQUEUE_SIZE {
        return;
      }
      prequeue_[precnt_] := Item(time, cb);
      precnt_ := precnt_ + 1;
    }

    /** Doubles the array until the pre-queue fits behind the queue. */
    method Grow()
      requires Valid()
      modifies this`queue_, this`size_
      ensures Valid() && Now() == old(Now()) && precnt_ + item_total_ <= size_
      ensures queue_ == old(queue_) || fresh(queue_)
    {
      ghost var was := queue_[..item_total_];
      while precnt_ + item_total_ > size_
        invariant Valid() && queue_[..item_total_] == was
        invariant queue_ == old(queue_) || fresh(queue_)
        decreases precnt_ + item_total_ - size_
      {
        var t1 := 2 * size_;
        var p1 := new Item[t1];
        CopyItems(queue_, p1, 0, item_total_);
        assert p1[..item_total_] == was;
        queue_ := p1;
        size_ := t1;
      }
    }

    /** pushPreQueued: the pre-queue is appended and emptied. */
    method PushPre()
      requires Valid()
      modifies this, queue_
      ensures Valid() && (queue_ == old(queue_) || fresh(queue_)) && Now() == PushPreQueued(old(Now()))
    {
      ghost var was := Now();
      if precnt_ == 0 {
        assert was.queue + was.pre == was.queue;
        return;
      }
      Grow();
      CopyItems(prequeue_, queue_, item_total_, precnt_);
      assert queue_[..item_total_ + precnt_] == was.queue + was.pre;
      item_total_ := item_total_ + precnt_;
      precnt_ := 0;
    }

    /** getNext: the interface taken out of the array, or null. */
    method Next(step: nat) returns (ret: nat)
      requires Valid()
      modifies this, queue_
      ensures Valid() && queue_ == old(queue_)
      ensures Now() == GetNext(old(Now()), step).0
      ensures var taken := GetNext(old(Now()), step).1; ret == if taken == [] then 0 else taken[0].iface
    {
      ghost var was := Now();
      if item_cnt_ >= item_total_ {
        return 0;
      }
      while item_cnt_ < item_total_ && step < queue_[item_cnt_].time
        invariant Valid() && queue_ == old(queue_) && item_total_ == old(item_total_) && precnt_ == old(precnt_)
        invariant queue_[..item_total_] == was.queue && prequeue_[..precnt_] == was.pre
        invariant GetNext(Now(), step) == GetNext(was, step)
        decreases item_total_ - item_cnt_
      {
        ghost var here := Now();
        assert here.queue[item_cnt_] == queue_[item_cnt_];
        item_cnt_ := item_cnt_ + 1;
        assert Now() == here.(cnt := here.cnt + 1);
      }
      if item_cnt_ == item_total_ {
        return 0;
      }
      ghost var here := Now();
      assert here.queue[item_cnt_] == queue_[item_cnt_];
      ret := queue_[item_cnt_].iface;
      if item_cnt_ < item_total_ - 1 {
        queue_[item_cnt_] := queue_[item_total_ - 1];
      }
      item_total_ := item_total_ - 1;
      assert Now().queue == RemoveSwap(here.queue, here.cnt);
    }

    /** move: the first registration of the callback, waiting or queued, gets the new time. */
    method MoveItem(cb: nat, time: nat) returns (moved: bool)
      requires Valid()
      modifies this, queue_, prequeue_
      ensures Valid() && queue_ == old(queue_) && Now() == Move(old(Now()), cb, time)
      ensures moved == (Has(old(Now()).pre, cb) || Has(old(Now()).queue, cb))
    {
      ghost var was := Now();
      moved := RetimeIn(prequeue_, precnt_, cb, time);
      if moved {
        assert queue_[..item_total_] == was.queue;
        return;
      }
      RetimeAbsent(was.pre, cb, time);
      moved := RetimeIn(queue_, item_total_, cb, time);
      if !moved { RetimeAbsent(was.queue, cb, time); }
      assert prequeue_[..precnt_] == was.pre;
    }

    /** moveStepCallback: moves the callback, or registers it. */
    method MoveStepCallback(cb: nat, time: nat)
      requires Valid()
      modifies this, queue_, prequeue_
      ensures Valid() && queue_ == old(queue_) && Now() == Perform(old(Now()), Reschedule(cb, time))
    {
      hide Has, Retime;
      ghost var was := Now();
      var moved := MoveItem(cb, time);
      if !moved {
        RetimeAbsent(was.queue, cb, time);
        PutItem(time, cb);
      }
    }

    /** The drain of updateQueue. */
    method Update(step: nat, acts: nat -> seq<Act>) returns (fired: seq<nat>)
      requires Valid()
      modifies this, queue_, prequeue_
      ensures Valid() && Now() == UpdateQueue(old(Now()), step, acts).state
      ensures fired == Ifaces(UpdateQueue(old(Now()), step, acts).fired)
    {
      hide GetNext, PushPreQueued, Drain, PerformAll, Ifaces;
      assert Ifaces([]) == [] by { EmptyIfaces(); }
      InitProc();
      PushPre();
      fired := [];
      ghost var start, items := Now(), [];
      var cb := Next(step);
      ghost var here := start;
      while cb != 0
        invariant Valid() && (queue_ == old(queue_) || fresh(queue_))
        invariant Now() == GetNext(here, step).0
        invariant var taken := GetNext(here, step).1; cb == if taken == [] then 0 else taken[0].iface
        invariant fired == Ifaces(items)
        invariant var d := Drain(here, step, acts, |fired|);
          Drain(start, step, acts, 0) == d.(fired := items + d.fired)
        decreases |here.queue|
      {
        ghost var s1, taken := GetNext(here, step).0, GetNext(here, step).1;
        DrainLoop(start, here, items, step, acts, |fired|);
        RunCallback(acts(|fired|));
        fired := fired + [cb];
        items := items + taken;
        here := Now();
        cb := Next(step);
      }
      DrainEnd(here, step, acts, |fired|);
      assert items + [] == items;
    }

    method RunCallback(acts: seq<Act>)
      requires Valid()
      modifies this, queue_, prequeue_
      ensures Valid() && queue_ == old(queue_) && Now() == PerformAll(old(Now()), acts)
    {
      hide Perform;
      ghost var was := Now();
      for i := 0 to |acts|
        invariant Valid() && queue_ == old(queue_)
        invariant PerformAll(Now(), acts[i..]) == PerformAll(was, acts)
      {
        assert acts[i..][1..] == acts[i + 1..];
        Act(acts[i]);
      }
    }

    method Act(act: Act)
      requires Valid()
      modifies this, queue_, prequeue_
      ensures Valid() && queue_ == old(queue_) && Now() == Perform(old(Now()), act)
    {
      match act
      case Register(item) => PutItem(item.time, item.iface);
      case Reschedule(cb, time) => MoveStepCallback(cb, time);
    }
  }

  method CopyItems(from: array<Item>, to: array<Item>, at: nat, n: nat)
    requires n <= from.Length && at + n <= to.Length && from != to
    modifies to
    ensures forall k | 0 <= k < to.Length :: to[k] == if at <= k < at + n then from[k - at] else old(to[k])
  {
    for i := 0 to n
      invariant forall k | 0 <= k < to.Length :: to[k] == if at <= k < at + i then from[k - at] else old(to[k])
    {
      to[at + i] := from[i];
    }
  }

  lemma RetimeAbsent(q: seq<Item>, cb: nat, time: nat)
    requires !Has(q, cb)
    ensures Retime(q, cb, time) == q
  {
    RetimeIs(q, cb, time);
  }

  lemma {:induction false} RetimeFirst(q: seq<Item>, cb: nat, time: nat, i: nat)
    requires i < |q| && q[i].iface == cb && forall k | 0 <= k < i :: q[k].iface != cb
    ensures Retime(q, cb, time) == q[i := Item(time, cb)]
  {
    if i > 0 {
      RetimeFirst(q[1..], cb, time, i - 1);
      assert q[i := Item(time, cb)] == [q[0]] + q[1..][i - 1 := Item(time, cb)];
    } else {
      assert q[0 := Item(time, cb)] == [Item(time, cb)] + q[1..];
    }
  }

  /** One of the two search loops of move. */
  method RetimeIn(a: array<Item>, n: nat, cb: nat, time: nat) returns (found: bool)
    requires n <= a.Length
    modifies a
    ensures found == Has(old(a[..n]), cb)
    ensures a[..n] == if found then Retime(old(a[..n]), cb, time) else old(a[..n])
    ensures !found ==> a[..] == old(a[..])
  {
    for i := 0 to n
      invariant a[..] == old(a[..]) && forall k | 0 <= k < i :: a[k].iface != cb
    {
      if a[i].iface == cb {
        ghost var q := a[..n];
        assert q[i].iface == cb;
        RetimeFirst(q, cb, time, i);
        a[i] := Item(time, cb);
        assert a[..n] == q[i := Item(time, cb)];
        return true;
      }
    }
    found := false;
  }
}
