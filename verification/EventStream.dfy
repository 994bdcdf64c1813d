/**
 One session's event stream as the bus keeps it (bounded ring, counter, write queue, log), the
 plain history it stands for, and the proof that the first refines the second over every run,
 restarts included.
 */
module EventStream {
  import opened Wrappers
  import opened EventLog
  import Text

  // ---- the bus's view of a session ----

  datatype LogOp = AppendOp(event: Event) | DeleteOp | TruncateOp(max: int)

  /** `None` fields are absent map entries. `queue` holds the log operations sent to the writer
      and not yet done, `log` the events in the session's file. */
  datatype Session = Session(bucket: Option<seq<Event>>, counter: Option<int>, hydrated: bool, queue: seq<LogOp>, log: seq<Event>) {
    function Buffered(): seq<Event> {
      if bucket.Some? then bucket.value else []
    }

    function Latest(): int {
      if counter.Some? then counter.value else 0
    }
  }

  /** How many elements are too many. */
  function Overflow(n: nat, cap: Option<nat>): (k: nat)
    ensures k <= n
  {
    if cap.Some? && n > cap.value then n - cap.value else 0
  }

  /** The last `cap` elements, or all without a cap. */
  function LastN<T>(s: seq<T>, cap: Option<nat>): seq<T> {
    s[Overflow(|s|, cap)..]
  }

  function MaxNum(events: seq<Event>): int
    requires events != []
  {
    if |events| == 1 then events[0].num
    else
      var rest := MaxNum(events[1..]);
      if events[0].num > rest then events[0].num else rest
  }

  function Max(a: int, b: int): int {
    if a > b then a else b
  }

  /** `ensure_hydrated`: the first touch loads the ring and the counter from the log. */
  function Hydrate(st: Session, cap: Option<nat>): Session {
    if st.hydrated then st
    else if st.log == [] || st.Buffered() != [] || st.Latest() != 0 then st.(hydrated := true)
    else st.(hydrated := true, bucket := Some(LastN(st.log, cap)), counter := Some(MaxNum(st.log)))
  }

  /** `next_seq`, whose result is the new counter. */
  function NextSeq(st: Session, cap: Option<nat>): Session {
    var h := Hydrate(st, cap);
    h.(counter := Some(h.Latest() + 1))
  }

  /** `publish_inner`. */
  function Publish(st: Session, cap: Option<nat>, e: Event, persist: bool): Session {
    st.(hydrated := true,
        bucket := Some(LastN(st.Buffered() + [e], cap)),
        counter := Some(Max(st.Latest(), e.num)),
        queue := if persist then st.queue + [AppendOp(e)] else st.queue)
  }

  /** `emit_inner`: the draft `e` gets the next number. */
  function Emit(st: Session, cap: Option<nat>, e: Event, persist: bool): Session {
    PublishNext(NextSeq(st, cap), cap, e, persist)
  }

  /** The draft `e` is published with the number just handed out. */
  function PublishNext(st: Session, cap: Option<nat>, e: Event, persist: bool): Session {
    Publish(st, cap, e.(num := st.Latest()), persist)
  }

  /** `truncate_to_seq`. */
  function TruncateTo(st: Session, cap: Option<nat>, max: int): Session {
    var h := Hydrate(st, cap);
    h.(bucket := if h.bucket.Some? then Some(UpTo(h.bucket.value, max)) else None,
       counter := Some(Max(max, 0)),
       queue := h.queue + [TruncateOp(max)])
  }

  /** `purge_session`. */
  function Purge(st: Session): Session {
    st.(bucket := None, counter := None, hydrated := true, queue := st.queue + [DeleteOp])
  }

  function Perform(log: seq<Event>, op: LogOp): seq<Event> {
    match op
    case AppendOp(e) => log + [e]
    case DeleteOp => []
    case TruncateOp(max) => UpTo(log, max)
  }

  function PerformAll(log: seq<Event>, ops: seq<LogOp>): seq<Event>
    decreases |ops|
  {
    if ops == [] then log else PerformAll(Perform(log, ops[0]), ops[1..])
  }

  /** One operation of the writer thread. */
  function WriteOne(st: Session): Session {
    if st.queue == [] then st else st.(log := Perform(st.log, st.queue[0]), queue := st.queue[1..])
  }

  /** The process ends, whatever is queued, and a new one starts on the same log. */
  function Crash(st: Session): Session {
    Session(None, None, false, [], st.log)
  }

  /** The queue is flushed before the process ends. */
  function Restart(st: Session): Session {
    Session(None, None, false, [], PerformAll(st.log, st.queue))
  }

  function Take<T>(s: seq<T>, limit: Option<nat>): seq<T> {
    if limit.Some? && limit.value < |s| then s[..limit.value] else s
  }

  /** `replay_since` on a hydrated session. A limit of 0 still yields one event: it is checked
      only after an event has been taken. */
  function Replay(st: Session, cap: Option<nat>, from: int, limit: Option<nat>): (seq<Event>, bool) {
    var bucket := st.Buffered();
    if bucket == [] then ([], false)
    else
      (Take(After(bucket, from), if limit == Some(0) then Some(1) else limit),
       cap.Some? && from + 1 < bucket[0].num)
  }

  // ---- the history it stands for ----

  /** The events emitted and not truncated are those `evicted` from the ring and those in the
      `ring`; `durable` are those of them that were not ephemeral. */
  datatype History = History(evicted: seq<Event>, ring: seq<Event>, durable: seq<Event>, counter: int) {
    function Events(): seq<Event> {
      evicted + ring
    }
  }

  /** The history a process finds in a log. */
  function Found(log: seq<Event>, cap: Option<nat>): History {
    var k := Overflow(|log|, cap);
    History(log[..k], log[k..], log, if log == [] then 0 else MaxNum(log))
  }

  function EmitTo(h: History, cap: Option<nat>, e: Event, persist: bool): History {
    var numbered := e.(num := h.counter + 1);
    var all := h.ring + [numbered];
    var k := Overflow(|all|, cap);
    History(h.evicted + all[..k], all[k..], if persist then h.durable + [numbered] else h.durable, h.counter + 1)
  }

  function Truncated(h: History, max: int): History {
    History(UpTo(h.evicted, max), UpTo(h.ring, max), UpTo(h.durable, max), Max(max, 0))
  }

  // ---- runs ----

  datatype Op =
    | DoEmit(event: Event, durable: bool)
    | DoTruncate(max: int)
    | DoPurge
    | DoTouch
    | DoWrite
    | DoRestart

  function StepBus(st: Session, cap: Option<nat>, op: Op): Session {
    match op
    case DoEmit(e, durable) => Emit(st, cap, e, durable)
    case DoTruncate(max) => TruncateTo(st, cap, max)
    case DoPurge => Purge(st)
    case DoTouch => Hydrate(st, cap)
    case DoWrite => WriteOne(st)
    case DoRestart => Restart(st)
  }

  function StepHistory(h: History, cap: Option<nat>, op: Op): History {
    match op
    case DoEmit(e, durable) => EmitTo(h, cap, e, durable)
    case DoTruncate(max) => Truncated(h, max)
    case DoPurge => History([], [], [], 0)
    case DoTouch => h
    case DoWrite => h
    case DoRestart => Found(h.durable, cap)
  }

  function RunBus(st: Session, cap: Option<nat>, ops: seq<Op>): Session {
    if ops == [] then st else StepBus(RunBus(st, cap, ops[..|ops| - 1]), cap, ops[|ops| - 1])
  }

  function RunHistory(h: History, cap: Option<nat>, ops: seq<Op>): History {
    if ops == [] then h else StepHistory(RunHistory(h, cap, ops[..|ops| - 1]), cap, ops[|ops| - 1])
  }

  // ---- the refinement relation ----

  /** A session not touched yet holds nothing and has nothing to write. */
  ghost predicate TouchedOrEmpty(st: Session) {
    st.hydrated || (st.bucket.None? && st.counter.None? && st.queue == [])
  }

  /** What a first touch finds is the ring and counter of the history, and the log, once the
      queue is done, is its durable part. */
  ghost predicate Refines(st: Session, cap: Option<nat>, h: History) {
    TouchedOrEmpty(st)
    && Hydrate(st, cap).Buffered() == h.ring && Hydrate(st, cap).Latest() == h.counter
    && PerformAll(st.log, st.queue) == h.durable
  }

  lemma {:induction false} PerformSnoc(log: seq<Event>, ops: seq<LogOp>, op: LogOp)
    ensures PerformAll(log, ops + [op]) == Perform(PerformAll(log, ops), op)
    decreases |ops|
  {
    if ops == [] {
      assert [op][1..] == [];
    } else {
      assert (ops + [op])[1..] == ops[1..] + [op];
      PerformSnoc(Perform(log, ops[0]), ops[1..], op);
    }
  }

  lemma FoundRefines(log: seq<Event>, cap: Option<nat>)
    ensures Refines(Session(None, None, false, [], log), cap, Found(log, cap))
  {
  }

  lemma EmitRefines(st: Session, cap: Option<nat>, h: History, e: Event, persist: bool)
    requires Refines(st, cap, h)
    ensures Refines(Emit(st, cap, e, persist), cap, EmitTo(h, cap, e, persist))
  {
    var hy := Hydrate(st, cap);
    assert Emit(st, cap, e, persist) == Emit(hy, cap, e, persist);
    EmitLog(hy, cap, h, e, persist);
    EmitRing(hy, cap, h, e, persist);
  }

  lemma EmitRing(st: Session, cap: Option<nat>, h: History, e: Event, persist: bool)
    requires st.hydrated && st.Buffered() == h.ring && st.Latest() == h.counter
    ensures var next, h' := Emit(st, cap, e, persist), EmitTo(h, cap, e, persist);
            next.hydrated && next.Buffered() == h'.ring && next.Latest() == h'.counter
  {
  }

  lemma EmitLog(st: Session, cap: Option<nat>, h: History, e: Event, persist: bool)
    requires st.hydrated && PerformAll(st.log, st.queue) == h.durable && st.Latest() == h.counter
    ensures var next := Emit(st, cap, e, persist);
            PerformAll(next.log, next.queue) == EmitTo(h, cap, e, persist).durable
  {
    PerformSnoc(st.log, st.queue, AppendOp(e.(num := h.counter + 1)));
  }

  lemma TruncateRefines(st: Session, cap: Option<nat>, h: History, max: int)
    requires Refines(st, cap, h)
    ensures Refines(TruncateTo(st, cap, max), cap, Truncated(h, max))
  {
    PerformSnoc(st.log, st.queue, TruncateOp(max));
  }

  lemma StepRefines(st: Session, cap: Option<nat>, h: History, op: Op)
    requires Refines(st, cap, h)
    ensures Refines(StepBus(st, cap, op), cap, StepHistory(h, cap, op))
  {
    match op
    case DoEmit(e, durable) => EmitRefines(st, cap, h, e, durable);
    case DoTruncate(max) => TruncateRefines(st, cap, h, max);
    case DoPurge => PerformSnoc(st.log, st.queue, DeleteOp);
    case DoTouch =>
    case DoWrite =>
    case DoRestart => FoundRefines(h.durable, cap);
  }

  /** The refinement theorem: over every run of emits, ephemeral emits, truncations, purges,
      reads, writer steps and flushed restarts, ring, counter, queue and log stand for the
      history. */
  lemma {:induction false} RunRefines(log: seq<Event>, cap: Option<nat>, ops: seq<Op>)
    ensures Refines(RunBus(Session(None, None, false, [], log), cap, ops), cap, RunHistory(Found(log, cap), cap, ops))
    decreases |ops|
  {
    if ops == [] {
      FoundRefines(log, cap);
    } else {
      var before := ops[..|ops| - 1];
      RunRefines(log, cap, before);
      StepRefines(RunBus(Session(None, None, false, [], log), cap, before), cap,
                  RunHistory(Found(log, cap), cap, before), ops[|ops| - 1]);
    }
  }

  // ---- what every history keeps ----

  /** Numbers strictly increase, start above 0 and stay at or below `top`. */
  ghost predicate Numbered(events: seq<Event>, top: int) {
    (forall i :: 0 <= i < |events| ==> 0 < events[i].num <= top)
    && (forall i, j :: 0 <= i < j < |events| ==> events[i].num < events[j].num)
  }

  /** The events are numbered up to the counter; so are the durable ones, which are among them;
      the ring respects the cap, and without one nothing was evicted. */
  ghost predicate Sound(h: History, cap: Option<nat>) {
    0 <= h.counter && Numbered(h.Events(), h.counter) && Numbered(h.durable, h.counter)
    && (forall e :: e in h.durable ==> e in h.Events())
    && (if cap.Some? then |h.ring| <= cap.value else h.evicted == [])
  }

  /** Behind the ring, events change as in a plain list: an emit adds one at the end, ... */
  lemma EmitAppends(h: History, cap: Option<nat>, e: Event, persist: bool)
    ensures EmitTo(h, cap, e, persist).Events() == h.Events() + [e.(num := h.counter + 1)]
  {
    var all := h.ring + [e.(num := h.counter + 1)];
    var k := Overflow(|all|, cap);
    assert all[..k] + all[k..] == all;
  }

  /** ... and a truncation drops those above the limit. */
  lemma TruncateFilters(h: History, max: int)
    ensures Truncated(h, max).Events() == UpTo(h.Events(), max)
  {
    UpToConcat(h.evicted, h.ring, max);
  }

  lemma {:induction false} UpToConcat(a: seq<Event>, b: seq<Event>, max: int)
    ensures UpTo(a + b, max) == UpTo(a, max) + UpTo(b, max)
  {
    if a == [] {
      assert a + b == b && [] + UpTo(b, max) == UpTo(b, max);
    } else {
      assert (a + b)[1..] == a[1..] + b;
      UpToConcat(a[1..], b, max);
      Text.Assoc(if a[0].num <= max then [a[0]] else [], UpTo(a[1..], max), UpTo(b, max));
    }
  }

  lemma {:induction false} UpToMembers(events: seq<Event>, max: int)
    ensures forall e :: e in UpTo(events, max) <==> e in events && e.num <= max
  {
    if events != [] {
      UpToMembers(events[1..], max);
      assert events == [events[0]] + events[1..];
    }
  }

  lemma {:induction false} UpToNumbered(events: seq<Event>, max: int, top: int)
    requires Numbered(events, top)
    ensures Numbered(UpTo(events, max), Max(max, 0))
  {
    if events != [] {
      var rest := events[1..];
      NumberedTail(events, top);
      UpToNumbered(rest, max, top);
      UpToMembers(rest, max);
      NumberedCons(events[0], UpTo(rest, max), Max(max, 0));
    }
  }

  lemma NumberedTail(events: seq<Event>, top: int)
    requires Numbered(events, top) && events != []
    ensures Numbered(events[1..], top) && forall e :: e in events[1..] ==> events[0].num < e.num
  {
  }

  lemma NumberedCons(e: Event, events: seq<Event>, top: int)
    requires Numbered(events, top) && 0 < e.num && forall x :: x in events ==> e.num < x.num
    ensures e.num <= top ==> Numbered([e] + events, top)
  {
    assert forall i :: 0 <= i < |events| ==> events[i] in events;
  }

  lemma NumberedPush(events: seq<Event>, e: Event, top: int)
    requires Numbered(events, top) && e.num == top + 1 && top >= 0
    ensures Numbered(events + [e], top + 1) && Numbered(events, top + 1)
  {
  }

  lemma {:induction false} NumberedMax(events: seq<Event>, top: int)
    requires Numbered(events, top) && events != []
    ensures MaxNum(events) == events[|events| - 1].num && Numbered(events, MaxNum(events))
  {
    if |events| > 1 {
      NumberedTail(events, top);
      NumberedMax(events[1..], top);
      assert events[1..][|events| - 2] == events[|events| - 1];
    }
  }

  lemma FoundIsSound(log: seq<Event>, cap: Option<nat>, top: int)
    requires Numbered(log, top)
    ensures Sound(Found(log, cap), cap)
  {
    var k := Overflow(|log|, cap);
    assert log[..k] + log[k..] == log;
    if log != [] {
      NumberedMax(log, top);
    }
  }

  lemma EmitIsSound(h: History, cap: Option<nat>, e: Event, persist: bool)
    requires Sound(h, cap)
    ensures Sound(EmitTo(h, cap, e, persist), cap)
  {
    var numbered := e.(num := h.counter + 1);
    EmitAppends(h, cap, e, persist);
    NumberedPush(h.Events(), numbered, h.counter);
    NumberedPush(h.durable, numbered, h.counter);
  }

  lemma TruncateIsSound(h: History, cap: Option<nat>, max: int)
    requires Sound(h, cap)
    ensures Sound(Truncated(h, max), cap)
  {
    TruncateFilters(h, max);
    UpToNumbered(h.Events(), max, h.counter);
    UpToNumbered(h.durable, max, h.counter);
    UpToMembers(h.Events(), max);
    UpToMembers(h.durable, max);
    UpToShortens(h.ring, max);
  }

  lemma {:induction false} UpToShortens(events: seq<Event>, max: int)
    ensures |UpTo(events, max)| <= |events|
  {
    if events != [] {
      UpToShortens(events[1..], max);
    }
  }

  /** Every run keeps the history sound. */
  lemma {:induction false} RunIsSound(log: seq<Event>, top: int, cap: Option<nat>, ops: seq<Op>)
    requires Numbered(log, top)
    ensures Sound(RunHistory(Found(log, cap), cap, ops), cap)
    decreases |ops|
  {
    if ops == [] {
      FoundIsSound(log, cap, top);
    } else {
      var before, op := ops[..|ops| - 1], ops[|ops| - 1];
      RunIsSound(log, top, cap, before);
      var h := RunHistory(Found(log, cap), cap, before);
      match op
      case DoEmit(e, durable) => EmitIsSound(h, cap, e, durable);
      case DoTruncate(max) => TruncateIsSound(h, cap, max);
      case DoRestart => FoundIsSound(h.durable, cap, h.counter);
      case _ =>
    }
  }

  // ---- what follows: how much the ring keeps ----

  /** The last `n` events, or all if there are fewer. */
  ghost predicate IsNewest(ring: seq<Event>, events: seq<Event>, cap: Option<nat>) {
    |ring| == (if cap.Some? && cap.value < |events| then cap.value else |events|)
    && ring == events[|events| - |ring|..]
  }

  /** A first touch of a log buffers its last events, as many as there are up to the capacity. */
  lemma HydratedRingIsNewest(log: seq<Event>, cap: Option<nat>)
    ensures IsNewest(Hydrate(Session(None, None, false, [], log), cap).Buffered(), log, cap)
    ensures IsNewest(Found(log, cap).ring, log, cap) && Found(log, cap).Events() == log
  {
    var k := if cap.Some? && |log| > cap.value then |log| - cap.value else 0;
    assert log[..k] + log[k..] == log;
  }

  /** An emit evicts nothing while there is room, and otherwise exactly the oldest event, which
      with a capacity of 0 is the new one. */
  ghost predicate EvictsOldest(h: History, next: History, cap: Option<nat>, e: Event) {
    var all := h.ring + [e];
    if cap.None? || |h.ring| < cap.value then next.evicted == h.evicted && next.ring == all
    else next.evicted == h.evicted + [all[0]] && next.ring == all[1..]
  }

  lemma EmitEvictsOldest(h: History, cap: Option<nat>, e: Event, persist: bool)
    requires cap.Some? ==> |h.ring| <= cap.value
    ensures EvictsOldest(h, EmitTo(h, cap, e, persist), cap, e.(num := h.counter + 1))
  {
    var all := h.ring + [e.(num := h.counter + 1)];
    assert all[..0] == [] && all[0..] == all && h.evicted + [] == h.evicted && all[..1] == [all[0]];
  }

  lemma EmitRingFits(h: History, cap: Option<nat>, e: Event, persist: bool)
    ensures cap.Some? ==> |EmitTo(h, cap, e, persist).ring| <= cap.value
  {
  }

  /** Over every run, from any log: the ring never holds more than the capacity, ... */
  lemma {:induction false} RunRingFits(log: seq<Event>, cap: Option<nat>, ops: seq<Op>)
    ensures cap.Some? ==> |RunHistory(Found(log, cap), cap, ops).ring| <= cap.value
    decreases |ops|
  {
    hide Found, EmitTo;
    if ops == [] {
      HydratedRingIsNewest(log, cap);
    } else {
      var before := ops[..|ops| - 1];
      RunRingFits(log, cap, before);
      var h := RunHistory(Found(log, cap), cap, before);
      match ops[|ops| - 1]
      case DoEmit(e, durable) => EmitRingFits(h, cap, e, durable);
      case DoTruncate(max) => UpToShortens(h.ring, max);
      case DoRestart => HydratedRingIsNewest(h.durable, cap);
      case _ =>
    }
  }

  /** ... an emit at its end evicts the oldest event if the ring is full and nothing otherwise, in
      the history and in the ring of the bus, ... */
  lemma RunEvictsOldest(log: seq<Event>, cap: Option<nat>, ops: seq<Op>, e: Event, persist: bool)
    ensures var h, next := RunHistory(Found(log, cap), cap, ops), RunHistory(Found(log, cap), cap, ops + [DoEmit(e, persist)]);
            var start := Session(None, None, false, [], log);
            EvictsOldest(h, next, cap, e.(num := h.counter + 1))
            && RunBus(start, cap, ops + [DoEmit(e, persist)]).Buffered() == next.ring
  {
    hide Found, Emit, EmitTo, EvictsOldest, Hydrate;
    var start, more := Session(None, None, false, [], log), ops + [DoEmit(e, persist)];
    assert more[..|more| - 1] == ops;
    RunRingFits(log, cap, ops);
    EmitEvictsOldest(RunHistory(Found(log, cap), cap, ops), cap, e, persist);
    RunRefines(log, cap, ops);
    EmitRefines(RunBus(start, cap, ops), cap, RunHistory(Found(log, cap), cap, ops), e, persist);
    EmittedIsHydrated(RunBus(start, cap, ops), cap, e, persist);
  }

  lemma EmittedIsHydrated(st: Session, cap: Option<nat>, e: Event, persist: bool)
    ensures Hydrate(Emit(st, cap, e, persist), cap) == Emit(st, cap, e, persist)
  {
  }

  /** ... and as long as nothing is truncated or purged the ring holds the newest events. */
  lemma {:induction false} RunKeepsNewest(log: seq<Event>, cap: Option<nat>, ops: seq<Op>)
    requires forall i :: 0 <= i < |ops| ==> !ops[i].DoTruncate? && !ops[i].DoPurge?
    ensures var h := RunHistory(Found(log, cap), cap, ops); IsNewest(h.ring, h.Events(), cap)
    decreases |ops|
  {
    hide Found, StepHistory, IsNewest;
    if ops == [] {
      HydratedRingIsNewest(log, cap);
    } else {
      var before := ops[..|ops| - 1];
      RunKeepsNewest(log, cap, before);
      RunRingFits(log, cap, before);
      StepKeepsNewest(RunHistory(Found(log, cap), cap, before), cap, ops[|ops| - 1]);
    }
  }

  lemma StepKeepsNewest(h: History, cap: Option<nat>, op: Op)
    requires IsNewest(h.ring, h.Events(), cap) && (cap.Some? ==> |h.ring| <= cap.value) && !op.DoTruncate? && !op.DoPurge?
    ensures var next := StepHistory(h, cap, op); IsNewest(next.ring, next.Events(), cap)
  {
    hide Found, EmitTo, IsNewest, EvictsOldest;
    match op
    case DoEmit(e, durable) =>
      EmitEvictsOldest(h, cap, e, durable);
      NewestStays(h, EmitTo(h, cap, e, durable), cap, e.(num := h.counter + 1));
    case DoRestart => HydratedRingIsNewest(h.durable, cap);
    case _ =>
  }

  lemma NewestStays(h: History, next: History, cap: Option<nat>, e: Event)
    requires IsNewest(h.ring, h.Events(), cap) && EvictsOldest(h, next, cap, e)
    ensures IsNewest(next.ring, next.Events(), cap)
  {
    var all := h.ring + [e];
    EndsWithRing(next);
    if cap.None? || |h.ring| < cap.value {
      assert |next.Events()| == |h.Events()| + 1;
    } else {
      assert |all[1..]| == |h.ring| && |next.Events()| == |h.Events()| + 1;
    }
  }

  lemma EndsWithRing(h: History)
    ensures h.Events()[|h.Events()| - |h.ring|..] == h.ring && |h.Events()| == |h.evicted| + |h.ring|
  {
  }

  // ---- what follows: what reaches the log ----

  /** What a flushed restart finds in the log changes, at the end of any run, by the emitted event
      if it is durable, with the number then due; by the cut of a truncation; and by a purge, which
      leaves nothing. Touching, writing and restarting do not change it. */
  lemma WhatARestartFinds(log: seq<Event>, cap: Option<nat>, ops: seq<Op>, op: Op)
    ensures var start := Session(None, None, false, [], log);
            var st, next := RunBus(start, cap, ops), RunBus(start, cap, ops + [op]);
            Restart(next).log
            == if op.DoEmit? then
                 if op.durable then Restart(st).log + [op.event.(num := NextSeq(st, cap).Latest())] else Restart(st).log
               else if op.DoTruncate? then UpTo(Restart(st).log, op.max)
               else if op.DoPurge? then []
               else Restart(st).log
  {
    var start := Session(None, None, false, [], log);
    var st, more := RunBus(start, cap, ops), ops + [op];
    assert more[..|more| - 1] == ops;
    match op
    case DoEmit(e, durable) => PerformSnoc(st.log, st.queue, AppendOp(e.(num := NextSeq(st, cap).Latest())));
    case DoTruncate(max) => PerformSnoc(st.log, st.queue, TruncateOp(max));
    case DoPurge => PerformSnoc(st.log, st.queue, DeleteOp);
    case _ =>
  }

  // ---- what follows: truncation and purge ----

  /** After any run, a truncation to a number makes the next event the one after it (at least
      number 1), and a purge starts the session afresh. */
  lemma CutsSetTheNextNumber(log: seq<Event>, cap: Option<nat>, ops: seq<Op>, max: int)
    ensures var start := Session(None, None, false, [], log);
            NextSeq(RunBus(start, cap, ops + [DoTruncate(max)]), cap).Latest() == (if max < 0 then 1 else max + 1)
            && NextSeq(RunBus(start, cap, ops + [DoPurge]), cap).Latest() == 1
            && RunHistory(Found(log, cap), cap, ops + [DoPurge]).Events() == []
            && RunHistory(Found(log, cap), cap, ops + [DoPurge]).durable == []
  {
    var cut, purge := ops + [DoTruncate(max)], ops + [DoPurge];
    assert cut[..|cut| - 1] == ops && purge[..|purge| - 1] == ops;
    RunRefines(log, cap, cut);
    RunRefines(log, cap, purge);
  }

  // ---- what follows: restart ----

  /** A first touch on a numbered log. */
  lemma ReloadsLog(log: seq<Event>, cap: Option<nat>, top: int)
    requires Numbered(log, top)
    ensures var reborn := Hydrate(Session(None, None, false, [], log), cap);
            reborn.log == log && reborn.Buffered() == LastN(log, cap)
            && reborn.Latest() == (if log == [] then 0 else log[|log| - 1].num)
            && forall i :: 0 <= i < |log| ==> log[i].num <= reborn.Latest() < NextSeq(reborn, cap).Latest()
  {
    if log != [] {
      NumberedMax(log, top);
    }
  }

  /** After a flushed restart and a first touch: the log is the list of surviving durable events,
      numbered strictly increasing; the ring holds its last `cap`; the next number is above every
      logged one. */
  lemma RestartRestores(st: Session, cap: Option<nat>, h: History)
    requires Refines(st, cap, h) && Sound(h, cap)
    ensures var reborn := Hydrate(Restart(st), cap);
            reborn.log == h.durable && Numbered(reborn.log, h.counter)
            && IsNewest(reborn.Buffered(), reborn.log, cap)
            && forall i :: 0 <= i < |reborn.log| ==> reborn.log[i].num <= reborn.Latest() < NextSeq(reborn, cap).Latest()
  {
    ReloadsLog(h.durable, cap, h.counter);
    HydratedRingIsNewest(h.durable, cap);
  }

  /** The number of the last event of a log. */
  function TopOf(log: seq<Event>): int {
    if log == [] then 0 else log[|log| - 1].num
  }

  /** A restart goes on from the last durable event, wherever the counter stood: it hands out at
      once a number that was within the counter exactly if the counter was above that event. */
  lemma RestartFallsBackExactly(st: Session, cap: Option<nat>, h: History)
    requires Refines(st, cap, h) && Sound(h, cap)
    ensures NextSeq(Restart(st), cap).Latest() == TopOf(h.durable) + 1
    ensures NextSeq(Restart(st), cap).Latest() <= h.counter <==> h.counter > TopOf(h.durable)
  {
    ReloadsLog(h.durable, cap, h.counter);
  }

  /** Ephemeral events are lost by a restart, and their numbers are given out again: some event of
      the session has a number that is still to be handed out exactly if the last one was
      ephemeral. */
  lemma NumbersRepeatExactly(st: Session, cap: Option<nat>, h: History)
    requires Refines(st, cap, h) && Sound(h, cap)
    ensures (exists e :: e in h.Events() && e.num >= NextSeq(Restart(st), cap).Latest())
            <==> h.Events() != [] && h.Events()[|h.Events()| - 1] !in h.durable
  {
    hide Refines, Restart, Numbered;
    var es := h.Events();
    RestartFallsBackExactly(st, cap, h);
    LastIsGreatest(es, h.counter);
    LastIsGreatest(h.durable, h.counter);
    if h.durable != [] {
      assert h.durable[|h.durable| - 1] in es;
    }
    if es != [] {
      assert es[|es| - 1] in es;
    }
  }

  lemma LastIsGreatest(log: seq<Event>, top: int)
    requires Numbered(log, top)
    ensures 0 <= TopOf(log) && forall e :: e in log ==> 0 < e.num <= TopOf(log) && (e.num == TopOf(log) ==> e == log[|log| - 1])
  {
    forall e | e in log
      ensures 0 < e.num <= TopOf(log) && (e.num == TopOf(log) ==> e == log[|log| - 1])
    {
      var i :| 0 <= i < |log| && log[i] == e;
    }
  }

  /** For one: an ephemeral event takes number 1, and after a restart the next one does again. */
  lemma EphemeralNumberRepeats(cap: Option<nat>, e: Event)
    ensures var st := RunBus(Session(None, None, false, [], []), cap, [DoEmit(e, false)]);
            st.Latest() == 1 && NextSeq(Restart(st), cap).Latest() == 1
  {
    assert [DoEmit(e, false)][..0] == [];
  }

  // ---- what follows: a crash between two operations of the writer ----

  /** The log is at every moment the durable history of some earlier moment, so a process that
      dies with a full queue comes back to a state that was once true. */
  ghost predicate LogWasTrue(log: seq<Event>, start: seq<Event>, cap: Option<nat>, ops: seq<Op>) {
    exists n :: 0 <= n <= |ops| && log == RunHistory(Found(start, cap), cap, ops[..n]).durable
  }

  /** Every prefix of the queue, once performed, is such a moment. */
  ghost predicate QueueWasTrue(st: Session, start: seq<Event>, cap: Option<nat>, ops: seq<Op>) {
    forall k :: 0 <= k <= |st.queue| ==> LogWasTrue(PerformAll(st.log, st.queue[..k]), start, cap, ops)
  }

  lemma LaterStillTrue(log: seq<Event>, start: seq<Event>, cap: Option<nat>, ops: seq<Op>, op: Op)
    requires LogWasTrue(log, start, cap, ops)
    ensures LogWasTrue(log, start, cap, ops + [op])
  {
    var n :| 0 <= n <= |ops| && log == RunHistory(Found(start, cap), cap, ops[..n]).durable;
    assert (ops + [op])[..n] == ops[..n];
  }

  lemma NowIsTrue(st: Session, start: seq<Event>, cap: Option<nat>, ops: seq<Op>)
    requires Refines(st, cap, RunHistory(Found(start, cap), cap, ops))
    ensures LogWasTrue(PerformAll(st.log, st.queue), start, cap, ops)
  {
    assert ops[..|ops|] == ops;
  }

  /** A step appends to the queue at most one operation, or performs its first, or empties it. */
  lemma StepQueue(st: Session, cap: Option<nat>, op: Op)
    requires st.hydrated || st.queue == []
    ensures var next := StepBus(st, cap, op);
            (next.log == st.log && (next.queue == st.queue || exists q :: next.queue == st.queue + [q]))
            || (st.queue != [] && next.log == Perform(st.log, st.queue[0]) && next.queue == st.queue[1..])
            || (next.queue == [] && next.log == PerformAll(st.log, st.queue))
  {
  }

  lemma {:induction false} QueueStaysTrue(log: seq<Event>, cap: Option<nat>, ops: seq<Op>)
    ensures QueueWasTrue(RunBus(Session(None, None, false, [], log), cap, ops), log, cap, ops)
    decreases |ops|
  {
    var init := Session(None, None, false, [], log);
    RunRefines(log, cap, ops);
    NowIsTrue(RunBus(init, cap, ops), log, cap, ops);
    if ops == [] {
      EmptyQueueTrue(init, log, cap, ops);
    } else {
      var before, op := ops[..|ops| - 1], ops[|ops| - 1];
      QueueStaysTrue(log, cap, before);
      RunRefines(log, cap, before);
      assert ops == before + [op];
      StepKeepsTrue(RunBus(init, cap, before), log, cap, before, op);
    }
  }

  /** The log a process leaves that dies between two operations of its writer, at any moment of any
      run, is the durable history of some earlier moment of the run. */
  lemma CrashFindsOnceTrueLog(log: seq<Event>, cap: Option<nat>, ops: seq<Op>)
    ensures LogWasTrue(Crash(RunBus(Session(None, None, false, [], log), cap, ops)).log, log, cap, ops)
  {
    QueueStaysTrue(log, cap, ops);
    var st := RunBus(Session(None, None, false, [], log), cap, ops);
    assert PerformAll(st.log, st.queue[..0]) == st.log;
  }

  lemma EmptyQueueTrue(st: Session, start: seq<Event>, cap: Option<nat>, ops: seq<Op>)
    requires st.queue == [] && LogWasTrue(PerformAll(st.log, st.queue), start, cap, ops)
    ensures QueueWasTrue(st, start, cap, ops)
  {
    forall k | 0 <= k <= |st.queue|
      ensures LogWasTrue(PerformAll(st.log, st.queue[..k]), start, cap, ops)
    {
      assert st.queue[..k] == st.queue;
    }
  }

  lemma StepKeepsTrue(prev: Session, start: seq<Event>, cap: Option<nat>, ops: seq<Op>, op: Op)
    requires (prev.hydrated || prev.queue == []) && QueueWasTrue(prev, start, cap, ops)
    requires var st := StepBus(prev, cap, op); LogWasTrue(PerformAll(st.log, st.queue), start, cap, ops + [op])
    ensures QueueWasTrue(StepBus(prev, cap, op), start, cap, ops + [op])
  {
    var st := StepBus(prev, cap, op);
    StepQueue(prev, cap, op);
    forall k | 0 <= k <= |st.queue|
      ensures LogWasTrue(PerformAll(st.log, st.queue[..k]), start, cap, ops + [op])
    {
      if k == |st.queue| {
        assert st.queue[..k] == st.queue;
      } else if st.log == prev.log && k <= |prev.queue| && st.queue[..k] == prev.queue[..k] {
        LaterStillTrue(PerformAll(prev.log, prev.queue[..k]), start, cap, ops, op);
      } else {
        assert prev.queue[..k + 1][0] == prev.queue[0] && prev.queue[..k + 1][1..] == st.queue[..k];
        LaterStillTrue(PerformAll(prev.log, prev.queue[..k + 1]), start, cap, ops, op);
      }
    }
  }
}
