/**
 The 100-slot event ring of src/whitelib/system/system.c, its consumer loop in
 src/keyboard/keyboard.c, and what holds when interrupts push between any two
 steps of the consumer.
 */
module EventRing {
  import opened CTypes

  const EVENTS_SIZE: nat := 100
  const SYS_EVENT_KEYBOARD: uint8 := 1

  datatype Event = Event(kind: uint8, val: uint32)

  datatype Ring = Ring(events: seq<Event>, head: nat, tail: nat) {
    predicate Shaped() {
      |events| == 100 && head < 100 && tail < 100
    }
  }

  function Push(r: Ring, e: Event): Ring
    requires r.Shaped()
  {
    Ring(r.events[r.tail := e], r.head, (r.tail + 1) % 100)
  }

  predicate HasEvents(r: Ring)
    requires r.Shaped()
  {
    r.events[r.head].kind != 0
  }

  /** The first half of system_pop_event. */
  function ClearHead(r: Ring): Ring
    requires r.Shaped()
  {
    r.(events := r.events[r.head := r.events[r.head].(kind := 0)])
  }

  /** The second half of system_pop_event. */
  function AdvanceHead(r: Ring): Ring
    requires r.Shaped()
  {
    r.(head := (r.head + 1) % 100)
  }

  /** The slot i places after the head. */
  function Slot(head: nat, i: nat): (s: nat)
    ensures s < 100
  {
    (head + i) % 100
  }

  // ----- One consumer, interrupted

  /** Where the consumer stands between two of its steps; slots are the pointers it holds. */
  datatype Pc =
    | Polling
    | Fetched(slot: nat)
    | Typed(slot: nat, kind: uint8)
    | Taken
    | Cleared
    | Returned

  /** A call that has returned: it read the events from number `from` up to number `to`. */
  datatype Call = Call(from: nat, to: nat, key: uint8)

  /**
   The ring, the consumer inside keyboard_scan_key, and the history: all events pushed,
   how many slots have been released, the events the consumer has read, where the
   present call began to read, and the calls that have returned.
   */
  datatype System = System(ring: Ring, pc: Pc, state: nat, result: uint8,
                           pushed: seq<Event>, released: nat, consumed: seq<Event>, start: nat, calls: seq<Call>)

  /** An interrupt, a step of the consumer, or the kernel calling keyboard_scan_key again. */
  datatype Step = Interrupt(e: Event) | Consume | CallAgain

  /** The consumer's next step: poll, read the type, read the value, clear the type, advance the head. */
  function ConsumerStep(s: System): System
    requires s.ring.Shaped()
    requires s.pc.Fetched? || s.pc.Typed? ==> s.pc.slot < 100
  {
    match s.pc
    case Polling =>
      if HasEvents(s.ring) then s.(pc := Fetched(s.ring.head))
      else if s.state == 0 then s
      else s.(pc := Returned, calls := s.calls + [Call(s.start, |s.consumed|, s.result)])
    case Fetched(slot) =>
      s.(pc := Typed(slot, s.ring.events[slot].kind))
    case Typed(slot, kind) =>
      var val := s.ring.events[slot].val;
      var key := kind == SYS_EVENT_KEYBOARD;
      s.(pc := Taken,
         result := if key && s.state == 0 then val % 256 else s.result,
         state := if key then s.state + 1 else s.state,
         consumed := s.consumed + [Event(kind, val)])
    case Taken =>
      s.(pc := Cleared, ring := ClearHead(s.ring))
    case Cleared =>
      s.(pc := Polling, ring := AdvanceHead(s.ring), released := s.released + 1)
    case Returned =>
      s
  }

  /** Slots in use, counting the one being popped. */
  function Occupied(s: System): int {
    |s.pushed| - s.released
  }

  /** What the kernel must keep to: events have a type, and a push finds a free slot. */
  predicate Allowed(s: System, step: Step) {
    match step
    case Interrupt(e) => e.kind != 0 && Occupied(s) < 100
    case Consume => true
    case CallAgain => s.pc.Returned?
  }

  function Next(s: System, step: Step): System
    requires s.ring.Shaped()
    requires s.pc.Fetched? || s.pc.Typed? ==> s.pc.slot < 100
  {
    match step
    case Interrupt(e) => s.(ring := Push(s.ring, e), pushed := s.pushed + [e])
    case Consume => ConsumerStep(s)
    case CallAgain => s.(pc := Polling, state := 0, result := 0, start := |s.consumed|)
  }

  // ----- The invariant

  /** The slots after the head hold, in order, the events pushed and not yet released; all others are empty. */
  ghost predicate RingHolds(s: System) {
    && s.ring.Shaped() && s.released <= |s.pushed| && Occupied(s) <= 100
    && s.ring.tail == (s.ring.head + Occupied(s)) % 100
    && (forall i | 0 <= i < Occupied(s) && (i > 0 || s.pc != Cleared) ::
      s.ring.events[Slot(s.ring.head, i)] == s.pushed[s.released + i])
    && (forall i | Occupied(s) <= i < 100 :: s.ring.events[Slot(s.ring.head, i)].kind == 0)
    && (s.pc == Cleared ==> s.ring.events[s.ring.head].kind == 0)
    && (forall i | 0 <= i < |s.pushed| :: s.pushed[i].kind != 0)
  }

  /** The consumer holds the head slot, and has read exactly the events it has released or is releasing. */
  ghost predicate ConsumerHolds(s: System) {
    && (s.pc.Fetched? || s.pc.Typed? || s.pc.Taken? || s.pc.Cleared? ==> s.released < |s.pushed|)
    && (s.pc.Fetched? || s.pc.Typed? ==> s.pc.slot == s.ring.head)
    && (s.pc.Typed? ==> s.pc.kind == s.pushed[s.released].kind)
    && s.released + (if s.pc.Taken? || s.pc.Cleared? then 1 else 0) <= |s.pushed|
    && s.consumed == s.pushed[..s.released + (if s.pc.Taken? || s.pc.Cleared? then 1 else 0)]
  }

  /** The value of the first keyboard event, as the eight bits that the function returns. */
  function FirstKey(events: seq<Event>): int {
    if events == [] then -1
    else if events[0].kind == SYS_EVENT_KEYBOARD then events[0].val % 256
    else FirstKey(events[1..])
  }

  /** Event i is the first of kind 1. */
  predicate IsFirstKey(events: seq<Event>, i: nat) {
    i < |events| && events[i].kind == 1 && forall j | 0 <= j < i :: events[j].kind != 1
  }

  /** The low eight bits of the first event of kind 1; -1 exactly when there is none. */
  lemma FirstKeyIs(events: seq<Event>)
    ensures FirstKey(events) == -1 <==> !exists i :: IsFirstKey(events, i)
    ensures forall i: nat | IsFirstKey(events, i) ::
      0 <= FirstKey(events) < 0x100 && (events[i].val - FirstKey(events)) % 0x100 == 0
  {
    if FirstKey(events) != -1 {
      var k := WhereFirstKey(events);
    }
    forall i: nat | IsFirstKey(events, i) ensures FirstKey(events) == events[i].val % 0x100 {
      FirstKeyAt(events, i);
    }
  }

  lemma {:induction false} FirstKeyAt(events: seq<Event>, i: nat)
    requires IsFirstKey(events, i)
    ensures FirstKey(events) == events[i].val % 0x100
    decreases i
  {
    if i > 0 {
      assert forall j | 0 <= j < i :: events[1..][j] == events[j + 1];
      FirstKeyAt(events[1..], i - 1);
    }
  }

  lemma {:induction false} WhereFirstKey(events: seq<Event>) returns (i: nat)
    requires FirstKey(events) != -1
    ensures IsFirstKey(events, i)
    decreases |events|
  {
    i := 0;
    if events[0].kind != 1 {
      var k := WhereFirstKey(events[1..]);
      i := k + 1;
      assert forall j | 0 < j <= i :: events[j] == events[1..][j - 1];
    }
  }

  function Keys(events: seq<Event>): nat {
    if events == [] then 0
    else Keys(events[..|events| - 1]) + (if events[|events| - 1].kind == SYS_EVENT_KEYBOARD then 1 else 0)
  }

  /** state counts the keyboard events read since the call began, and result is the first one's value. */
  ghost predicate ResultHolds(s: System) {
    && s.start <= |s.consumed|
    && s.state == Keys(s.consumed[s.start..])
    && (s.state > 0 ==> s.result == FirstKey(s.consumed[s.start..]))
    && (s.state == 0 ==> FirstKey(s.consumed[s.start..]) == -1)
    && (s.pc.Returned? ==> s.state > 0)
  }

  /** The call read at least one key, and its result is the first of them. */
  ghost predicate CallHolds(consumed: seq<Event>, c: Call) {
    c.from <= c.to <= |consumed| && c.key == FirstKey(consumed[c.from..c.to])
  }

  /** Every call returned the first key among its own events, and each began where the one before it ended. */
  ghost predicate CallsHold(s: System) {
    && (forall i | 0 <= i < |s.calls| :: CallHolds(s.consumed, s.calls[i]))
    && (forall i | 0 < i < |s.calls| :: s.calls[i].from == s.calls[i - 1].to)
    && (s.calls != [] ==> s.calls[|s.calls| - 1].to == if s.pc.Returned? then |s.consumed| else s.start)
    && (s.pc.Returned? ==> s.calls != [])
  }

  ghost predicate Inv(s: System) {
    RingHolds(s) && ConsumerHolds(s) && ResultHolds(s) && CallsHold(s)
  }

  /** What a call has read does not change when more is read. */
  lemma CallsKept(consumed: seq<Event>, more: seq<Event>, calls: seq<Call>)
    requires forall i | 0 <= i < |calls| :: CallHolds(consumed, calls[i])
    ensures forall i | 0 <= i < |calls| :: CallHolds(consumed + more, calls[i])
  {
    forall i | 0 <= i < |calls| ensures CallHolds(consumed + more, calls[i]) {
      assert CallHolds(consumed, calls[i]);
      assert (consumed + more)[calls[i].from..calls[i].to] == consumed[calls[i].from..calls[i].to];
    }
  }

  lemma SlotsApart(head: nat, i: nat, j: nat)
    requires head < 100 && i < 100 && j < 100 && i != j
    ensures Slot(head, i) != Slot(head, j)
  {
  }

  lemma SlotAhead(head: nat, i: nat)
    requires head < 100 && i < 100
    ensures Slot((head + 1) % 100, i) == Slot(head, i + 1)
  {
  }

  lemma {:induction false} FirstKeySnoc(events: seq<Event>, e: Event)
    ensures FirstKey(events + [e]) == if FirstKey(events) >= 0 then FirstKey(events) else FirstKey([e])
  {
    if events != [] {
      assert (events + [e])[1..] == events[1..] + [e];
      FirstKeySnoc(events[1..], e);
    } else {
      assert events + [e] == [e];
    }
  }

  /** The atomic push of the interrupt handler. */
  lemma InterruptKeepsInv(s: System, e: Event)
    requires Inv(s) && Allowed(s, Interrupt(e))
    ensures Inv(Next(s, Interrupt(e)))
  {
    hide CallHolds;
    hide Keys;
    hide FirstKey;
    hide Slot;
    PushKeepsRing(s, e);
  }

  lemma PushKeepsRing(s: System, e: Event)
    requires RingHolds(s) && Allowed(s, Interrupt(e))
    requires s.pc.Fetched? || s.pc.Typed? ==> s.pc.slot < 100
    requires s.pc == Cleared ==> Occupied(s) > 0
    ensures s.ring.Shaped() && RingHolds(Next(s, Interrupt(e)))
  {
    var s' := Next(s, Interrupt(e));
    var n := Occupied(s);
    assert s.ring.tail == Slot(s.ring.head, n);
    forall i | 0 <= i < 100 && i != n
      ensures s'.ring.events[Slot(s.ring.head, i)] == s.ring.events[Slot(s.ring.head, i)]
    {
      SlotsApart(s.ring.head, i, n);
    }
    assert s.ring.head == Slot(s.ring.head, 0);
    assert s'.ring.tail == (s.ring.head + n + 1) % 100;
  }

  /** The head slot holds the oldest event not yet released. */
  lemma HeadIsOldest(s: System)
    requires RingHolds(s) && Occupied(s) > 0 && s.pc != Cleared
    ensures s.ring.events[s.ring.head] == s.pushed[s.released] && HasEvents(s.ring)
  {
    assert s.ring.head == Slot(s.ring.head, 0);
    assert s.ring.events[Slot(s.ring.head, 0)] == s.pushed[s.released + 0];
  }

  lemma ReadKeepsInv(s: System)
    requires Inv(s) && s.pc.Typed?
    ensures Inv(ConsumerStep(s))
  {
    hide Slot;
    hide Keys;
    hide FirstKey;
    hide CallHolds;
    var s' := ConsumerStep(s);
    CallsKept(s.consumed, [s.pushed[s.released]], s.calls);
    var e := s.pushed[s.released];
    HeadIsOldest(s);
    assert s'.consumed == s.consumed + [e];
    assert s'.consumed[s.start..] == s.consumed[s.start..] + [e];
    ReadResult(s.consumed[s.start..], e);
  }

  lemma ReadResult(before: seq<Event>, e: Event)
    ensures Keys(before + [e]) == Keys(before) + (if e.kind == SYS_EVENT_KEYBOARD then 1 else 0)
    ensures FirstKey(before + [e]) ==
      if FirstKey(before) >= 0 then FirstKey(before)
      else if e.kind == SYS_EVENT_KEYBOARD then e.val % 256 else -1
  {
    assert (before + [e])[..|before|] == before;
    assert [e][1..] == [];
    FirstKeySnoc(before, e);
  }

  lemma ClearKeepsInv(s: System)
    requires Inv(s) && s.pc.Taken?
    ensures Inv(ConsumerStep(s))
  {
    hide CallHolds;
    hide Keys;
    hide FirstKey;
    var s' := ConsumerStep(s);
    assert s.ring.head == Slot(s.ring.head, 0);
    forall i | 0 < i < 100 ensures s'.ring.events[Slot(s.ring.head, i)] == s.ring.events[Slot(s.ring.head, i)] {
      SlotsApart(s.ring.head, i, 0);
    }
  }

  lemma AdvanceKeepsInv(s: System)
    requires Inv(s) && s.pc.Cleared?
    ensures Inv(ConsumerStep(s))
  {
    hide CallHolds;
    hide Keys;
    hide FirstKey;
    var s' := ConsumerStep(s);
    forall i | 0 <= i < 100 ensures Slot(s'.ring.head, i) == Slot(s.ring.head, i + 1) {
      SlotAhead(s.ring.head, i);
    }
    assert Slot(s.ring.head, 100) == s.ring.head;
    forall i | 0 <= i < Occupied(s')
      ensures s'.ring.events[Slot(s'.ring.head, i)] == s'.pushed[s'.released + i]
    {
      assert s.ring.events[Slot(s.ring.head, i + 1)] == s.pushed[s.released + (i + 1)];
    }
    forall i | Occupied(s') <= i < 100 ensures s'.ring.events[Slot(s'.ring.head, i)].kind == 0 {
      if i < 99 {
        assert s.ring.events[Slot(s.ring.head, i + 1)].kind == 0;
      }
    }
  }

  lemma PollKeepsInv(s: System)
    requires Inv(s) && s.pc.Polling?
    ensures Inv(ConsumerStep(s))
  {
    hide Keys;
    hide FirstKey;
    hide Slot;
    assert s.consumed[s.start..|s.consumed|] == s.consumed[s.start..];
    if Occupied(s) > 0 {
      HeadIsOldest(s);
    } else {
      FirstSlot(s.ring.head);
    }
  }

  lemma FirstSlot(head: nat)
    requires head < 100
    ensures Slot(head, 0) == head
  {
  }

  lemma FetchKeepsInv(s: System)
    requires Inv(s) && s.pc.Fetched?
    ensures Inv(ConsumerStep(s))
  {
    hide CallHolds;
    hide Keys;
    hide FirstKey;
    HeadIsOldest(s);
  }

  lemma ConsumerKeepsInv(s: System)
    requires Inv(s)
    ensures Inv(ConsumerStep(s))
  {
    match s.pc
    case Polling => PollKeepsInv(s);
    case Fetched(_) => FetchKeepsInv(s);
    case Typed(_, _) => ReadKeepsInv(s);
    case Taken => ClearKeepsInv(s);
    case Cleared => AdvanceKeepsInv(s);
    case Returned =>
  }

  /** The next call starts with nothing read, behind what the last one read. */
  lemma CallKeepsInv(s: System)
    requires Inv(s) && s.pc.Returned?
    ensures Inv(Next(s, CallAgain))
  {
    hide Slot;
    hide CallHolds;
    assert s.consumed[|s.consumed|..] == [];
  }

  lemma StepKeepsInv(s: System, step: Step)
    requires Inv(s) && Allowed(s, step)
    ensures Inv(Next(s, step))
  {
    match step
    case Interrupt(e) => InterruptKeepsInv(s, e);
    case Consume => ConsumerKeepsInv(s);
    case CallAgain => CallKeepsInv(s);
  }

  // ----- Whole runs

  /** system_events_init, and the start of a call of keyboard_scan_key. */
  lemma StartsWithInv(events: seq<Event>)
    requires |events| == 100 && forall i | 0 <= i < 100 :: events[i].kind == 0
    ensures Inv(System(Ring(events, 0, 0), Polling, 0, 0, [], 0, [], 0, []))
  {
    var s := System(Ring(events, 0, 0), Polling, 0, 0, [], 0, [], 0, []);
    assert s.consumed[0..] == [];
  }

  /** The states of a run: every push finds a free slot and has a type; steps come in any order. */
  ghost predicate IsRun(states: seq<System>, steps: seq<Step>) {
    && |states| == |steps| + 1
    && forall i | 0 <= i < |steps| ::
      Inv(states[i]) ==> Allowed(states[i], steps[i]) && states[i + 1] == Next(states[i], steps[i])
  }

  /**
   First in, first out under interrupts and over any number of calls: however pushes
   fall between the consumer's steps, what it has read is always a prefix of what has
   been pushed, nothing lost, repeated or reordered, and all histories only grow. The
   calls share the events out among themselves without a gap, and each one that has
   returned gave the first key of its own share.
   */
  lemma {:induction false} EveryRunIsFifo(states: seq<System>, steps: seq<Step>)
    requires IsRun(states, steps) && Inv(states[0])
    ensures var s := states[|steps|];
      && Inv(s) && s.consumed <= s.pushed
      && states[0].consumed <= s.consumed && states[0].pushed <= s.pushed && states[0].calls <= s.calls
      && (forall i | 0 <= i < |s.calls| :: CallHolds(s.consumed, s.calls[i]))
      && (forall i | 0 < i < |s.calls| :: s.calls[i].from == s.calls[i - 1].to)
    decreases |steps|
  {
    hide Inv;
    hide Allowed;
    hide Next;
    var n := |steps|;
    if n > 0 {
      EveryRunIsFifo(states[..n], steps[..n - 1]);
      StepKeepsInv(states[n - 1], steps[n - 1]);
      HistoriesGrow(states[n - 1], steps[n - 1]);
    }
    InvGives(states[n]);
  }

  lemma InvGives(s: System)
    requires Inv(s)
    ensures s.consumed <= s.pushed
    ensures forall i | 0 <= i < |s.calls| :: CallHolds(s.consumed, s.calls[i])
    ensures forall i | 0 < i < |s.calls| :: s.calls[i].from == s.calls[i - 1].to
  {
  }

  lemma HistoriesGrow(s: System, step: Step)
    requires Inv(s) && Allowed(s, step)
    ensures s.consumed <= Next(s, step).consumed && s.pushed <= Next(s, step).pushed
    ensures s.calls <= Next(s, step).calls
  {
    hide CallHolds;
    hide Keys;
    hide FirstKey;
    hide Slot;
  }

  /** An event that has been fetched cannot change before it is popped: a push never writes the slot held. */
  lemma FetchedCannotChange(s: System, e: Event)
    requires Inv(s) && (s.pc.Fetched? || s.pc.Typed? || s.pc.Taken?) && Allowed(s, Interrupt(e))
    ensures Next(s, Interrupt(e)).ring.events[s.ring.head] == s.ring.events[s.ring.head]
    ensures s.ring.events[s.ring.head] == s.pushed[s.released]
  {
    HeadIsOldest(s);
    assert s.ring.head == Slot(s.ring.head, 0);
    SlotsApart(s.ring.head, 0, Occupied(s));
  }

  /** When the call returns, every event pushed so far has been read, and its result is the first key among its own. */
  lemma ReturnsFirstKey(s: System)
    requires Inv(s) && s.pc.Polling? && ConsumerStep(s).pc.Returned?
    ensures s.consumed == s.pushed && Occupied(s) == 0
    ensures Keys(s.pushed[s.start..]) > 0 && s.result == FirstKey(s.pushed[s.start..])
  {
    PollKeepsInv(s);
    if Occupied(s) > 0 {
      HeadIsOldest(s);
    }
  }

  /** A push keeps the invariant exactly when it is allowed. */
  lemma PushAllowedIff(s: System, e: Event)
    requires Inv(s)
    ensures Inv(Next(s, Interrupt(e))) <==> Allowed(s, Interrupt(e))
  {
    if Allowed(s, Interrupt(e)) {
      InterruptKeepsInv(s, e);
    } else {
      var s' := Next(s, Interrupt(e));
      assert s'.pushed[|s.pushed|] == e;
    }
  }

  /** Pushed into a full ring, an event takes the place of the oldest one: it is what the consumer reads next. */
  lemma FullRingLosesOldest(s: System, e: Event)
    requires Inv(s) && s.pc.Polling? && Occupied(s) == 100 && e.kind != 0
    ensures var s1 := Next(s, Interrupt(e));
      ConsumerStep(ConsumerStep(ConsumerStep(s1))).consumed == s.consumed + [e]
  {
    assert s.ring.tail == s.ring.head;
  }

  /** An event without a type is not seen, even alone in the ring. */
  lemma UntypedEventIsNotSeen(s: System, e: Event)
    requires Inv(s) && s.pc.Polling? && Occupied(s) == 0 && e.kind == 0
    ensures !HasEvents(Next(s, Interrupt(e)).ring)
  {
  }

  // ----- The ring itself

  /** The events from slot i after the head on, up to the first empty slot. */
  function PendingFrom(r: Ring, i: nat): seq<Event>
    requires r.Shaped() && i <= 100
    decreases 100 - i
  {
    if i == 100 || r.events[Slot(r.head, i)].kind == 0 then []
    else [r.events[Slot(r.head, i)]] + PendingFrom(r, i + 1)
  }

  /** n pops: the first n slots after the head are empty, and the head is past them. */
  ghost predicate Popped(r: Ring, r': Ring, n: nat)
    requires r.Shaped() && r'.Shaped()
  {
    && r'.head == Slot(r.head, n) && r'.tail == r.tail
    && forall i | 0 <= i < 100 ::
      var e := r.events[Slot(r.head, i)];
      r'.events[Slot(r.head, i)] == if i < n then e.(kind := 0) else e
  }

  lemma PopsAdd(r: Ring, r': Ring, n: nat)
    requires r.Shaped() && r'.Shaped() && Popped(r, r', n) && n < 100
    ensures Popped(r, AdvanceHead(ClearHead(r')), n + 1)
  {
    var r2 := AdvanceHead(ClearHead(r'));
    assert r2.head == Slot(r.head, n + 1);
    forall i | 0 <= i < 100 && i != n ensures r2.events[Slot(r.head, i)] == r'.events[Slot(r.head, i)] {
      SlotsApart(r.head, i, n);
    }
  }

  /** The events `done` have been read and popped, and what was pending behind them still is. */
  ghost predicate ReadSoFar(r: Ring, now: Ring, done: seq<Event>) {
    && r.Shaped() && now.Shaped() && |done| <= 100 && Popped(r, now, |done|)
    && done + PendingFrom(r, |done|) == PendingFrom(r, 0)
  }

  /** Each keyboard event counts one, and the first, if none was counted before, gives the result. */
  ghost predicate Counted(events: seq<Event>, state: nat, result: uint8, state': nat, result': uint8) {
    && state' == state + Keys(events)
    && (Keys(events) > 0 <==> FirstKey(events) >= 0)
    && result' == if state == 0 && FirstKey(events) >= 0 then FirstKey(events) else result
  }

  /** Between two steps of the ring's user the pending events are those pushed and not yet released. */
  lemma {:induction false} PendingIsUnread(s: System, i: nat)
    requires RingHolds(s) && s.pc != Cleared && i <= Occupied(s)
    ensures PendingFrom(s.ring, i) == s.pushed[s.released + i..]
    decreases Occupied(s) - i
  {
    if i < Occupied(s) {
      PendingIsUnread(s, i + 1);
      assert s.ring.events[Slot(s.ring.head, i)] == s.pushed[s.released + i];
    } else if i < 100 {
      assert s.ring.events[Slot(s.ring.head, i)].kind == 0;
    }
  }

  class EventQueue {
    var head: nat
    var tail: nat
    const events: array<Event>

    function View(): Ring
      reads this, events
    {
      Ring(events[..], head, tail)
    }

    predicate Valid()
      reads this, events
    {
      events.Length == 100 && head < 100 && tail < 100
    }

    /** system_events_init. */
    constructor ()
      ensures Valid() && fresh(events) && head == tail == 0
      ensures forall i | 0 <= i < 100 :: events[i].kind == 0
    {
      head, tail := 0, 0;
      events := new Event[100](i => Event(0, 0));
    }

    method PushEvent(kind: uint8, val: uint32)
      requires Valid()
      modifies this, events
      ensures Valid() && View() == Push(old(View()), Event(kind, val))
    {
      events[tail] := events[tail].(kind := kind);
      events[tail] := events[tail].(val := val);
      tail := (tail + 1) % EVENTS_SIZE;
    }

    /** system_fetch_event returns a pointer: the slot's index. */
    method FetchEvent() returns (slot: nat)
      requires Valid()
      ensures slot == head
    {
      slot := head;
    }

    method PopEvent()
      requires Valid()
      modifies this, events
      ensures Valid() && View() == AdvanceHead(ClearHead(old(View())))
    {
      events[head] := events[head].(kind := 0);
      head := (head + 1) % EVENTS_SIZE;
    }

    method HasPending() returns (b: bool)
      requires Valid()
      ensures b == HasEvents(View())
    {
      b := events[head].kind != 0;
    }

    /**
     The inner loop of keyboard_scan_key, left to itself: it reads every pending event
     and empties the ring. Each keyboard event counts, and the first one, if none was
     counted before the loop, gives the result.
     */
    method ReadPending(state: nat, result: uint8) returns (state': nat, result': uint8)
      requires Valid()
      modifies this, events
      ensures Valid() && !HasEvents(View())
      ensures var pending := PendingFrom(old(View()), 0);
        && Popped(old(View()), View(), |pending|)
        && Counted(pending, state, result, state', result')
    {
      hide Popped;
      hide PendingFrom;
      hide Counted;
      ghost var r, done := View(), [];
      assert Counted(done, state, result, state, result) by { NothingRead(state, result); }
      NothingYet(r);
      state', result' := state, result;
      var more := HasPending();
      while more
        invariant Valid() && ReadSoFar(r, View(), done)
        invariant more <==> HasEvents(View())
        invariant Counted(done, state, result, state', result')
        decreases 100 - |done|
      {
        ghost var now := View();
        ReadsNext(r, now, done);
        var slot := FetchEvent();
        CountsNext(done, events[slot], state, result, state', result');
        if events[slot].kind == SYS_EVENT_KEYBOARD {
          if state' == 0 {
            result' := events[slot].val % 256;
          }
          state' := state' + 1;
        }
        PopEvent();
        done := done + [now.events[now.head]];
        more := HasPending();
      }
      PendingEnds(r, View(), done);
      assert Counted(done, state, result, state', result');
    }
  }

  /** A ring of which every slot has been popped looks empty. */
  lemma AllPopped(r: Ring, now: Ring, n: nat)
    requires r.Shaped() && now.Shaped() && Popped(r, now, n)
    ensures n == 100 ==> !HasEvents(now)
  {
    if n == 100 {
      assert Slot(r.head, 100) == Slot(r.head, 0);
    }
  }

  lemma NothingYet(r: Ring)
    requires r.Shaped()
    ensures ReadSoFar(r, r, [])
  {
    assert [] + PendingFrom(r, 0) == PendingFrom(r, 0);
  }

  lemma NothingRead(state: nat, result: uint8)
    ensures Counted([], state, result, state, result)
  {
  }

  lemma ReadsNext(r: Ring, now: Ring, done: seq<Event>)
    requires ReadSoFar(r, now, done) && HasEvents(now)
    ensures |done| < 100 && ReadSoFar(r, AdvanceHead(ClearHead(now)), done + [now.events[now.head]])
  {
    hide Slot;
    hide Popped;
    hide PendingFrom;
    var n, e := |done|, now.events[now.head];
    AllPopped(r, now, n);
    HeadIsNext(r, now, n);
    PopsAdd(r, now, n);
    assert done + ([e] + PendingFrom(r, n + 1)) == (done + [e]) + PendingFrom(r, n + 1);
  }

  /** After n pops the head slot is the n-th, as it was. */
  lemma HeadIsNext(r: Ring, now: Ring, n: nat)
    requires r.Shaped() && now.Shaped() && n < 100 && Popped(r, now, n) && HasEvents(now)
    ensures PendingFrom(r, n) == [now.events[now.head]] + PendingFrom(r, n + 1)
  {
    assert now.events[Slot(r.head, n)] == r.events[Slot(r.head, n)];
  }

  lemma CountsNext(done: seq<Event>, e: Event, state: nat, result: uint8, state': nat, result': uint8)
    requires Counted(done, state, result, state', result')
    ensures var key := e.kind == SYS_EVENT_KEYBOARD;
      Counted(done + [e], state, result, if key then state' + 1 else state',
        if key && state' == 0 then e.val % 256 else result')
  {
    hide Keys;
    hide FirstKey;
    ReadResult(done, e);
  }

  /** When the ring looks empty, nothing more was pending. */
  lemma PendingEnds(r: Ring, now: Ring, done: seq<Event>)
    requires ReadSoFar(r, now, done) && !HasEvents(now)
    ensures done == PendingFrom(r, 0) && Popped(r, now, |done|)
  {
    var n := |done|;
    assert PendingFrom(r, n) == [] by {
      if n < 100 {
        assert now.events[Slot(r.head, n)] == r.events[Slot(r.head, n)];
      }
    }
  }
}
