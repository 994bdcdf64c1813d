/**
 The event bus: per-session rings, counters and hydration marks changed in place, a queue of log
 operations and the writer that performs them. Each method is tied to the session functions of
 `EventStream`; sessions do not affect each other.
 */
module EventBus {
  import opened Wrappers
  import opened EventLog
  import opened EventStream
  import opened EventReplay
  import opened Jsonl

  /** The operations queued for one session. */
  function OpsFor(queue: seq<(string, LogOp)>, session: string): seq<LogOp> {
    if queue == [] then []
    else OpsFor(queue[..|queue| - 1], session)
         + (if queue[|queue| - 1].0 == session then [queue[|queue| - 1].1] else [])
  }

  lemma {:induction false} OpsForSnoc(queue: seq<(string, LogOp)>, entry: (string, LogOp), session: string)
    ensures OpsFor(queue + [entry], session) == if entry.0 == session then OpsFor(queue, session) + [entry.1] else OpsFor(queue, session)
  {
    assert (queue + [entry])[..|queue|] == queue;
  }

  lemma {:induction false} OpsForCons(queue: seq<(string, LogOp)>, session: string)
    requires queue != []
    ensures OpsFor(queue, session)
            == if queue[0].0 == session then [queue[0].1] + OpsFor(queue[1..], session) else OpsFor(queue[1..], session)
  {
    if |queue| > 1 {
      var most, last := queue[..|queue| - 1], queue[|queue| - 1];
      OpsForCons(most, session);
      assert queue[1..] == most[1..] + [last];
      OpsForSnoc(most[1..], last, session);
    }
  }

  lemma LastNIs(events: seq<Event>, cap: Option<nat>)
    ensures LastN(events, cap) == events[Overflow(|events|, cap)..]
  {
  }

  class Bus {
    const cap: Option<nat>
    const store: JsonlStore
    var perSession: map<string, seq<Event>>
    var seqBySession: map<string, int>
    var hydrated: set<string>
    /** Operations sent to the writer and not yet performed. */
    var queue: seq<(string, LogOp)>

    ghost predicate Valid()
      reads this, store
    {
      store.Valid()
    }

    /** One session as the bus and the store hold it. */
    ghost function View(session: string): Session
      reads this, store
    {
      Session(if session in perSession then Some(perSession[session]) else None,
              if session in seqBySession then Some(seqBySession[session]) else None,
              session in hydrated, OpsFor(queue, session), store.Log(session))
    }

    /** A process starts on an existing log. */
    constructor (cap: Option<nat>, store: JsonlStore)
      requires store.Valid()
      ensures Valid() && this.cap == cap && this.store == store && queue == []
      ensures forall s :: View(s) == Session(None, None, false, [], store.Log(s))
    {
      this.cap, this.store := cap, store;
      perSession, seqBySession, hydrated, queue := map[], map[], {}, [];
    }

    /** `ensure_hydrated`, by one thread: the first touch reads the session's log. */
    method EnsureHydrated(session: string)
      requires Valid()
      modifies this
      ensures Valid() && queue == old(queue)
      ensures View(session) == Hydrate(old(View(session)), cap)
      ensures forall s :: s != session ==> View(s) == old(View(s))
    {
      hide OpsFor, MaxNum, LastN, Consistent, Parse;
      if session in hydrated {
        return;
      }
      var events := store.ReadSession(session);
      hydrated := hydrated + {session};
      var bucketEmpty := session !in perSession || perSession[session] == [];
      var current := if session in seqBySession then seqBySession[session] else 0;
      if events == [] || !bucketEmpty || current != 0 {
        return;
      }
      var max := MaxOf(events);
      perSession := perSession[session := events[Overflow(|events|, cap)..]];
      seqBySession := seqBySession[session := max];
      LastNIs(events, cap);
    }

    /** `next_seq`. */
    method TakeSeq(session: string) returns (n: int)
      requires Valid()
      modifies this
      ensures Valid() && queue == old(queue)
      ensures View(session) == NextSeq(old(View(session)), cap) && n == View(session).Latest()
      ensures forall s :: s != session ==> View(s) == old(View(s))
    {
      EnsureHydrated(session);
      n := (if session in seqBySession then seqBySession[session] else 0) + 1;
      seqBySession := seqBySession[session := n];
    }

    /** `latest_seq`. */
    method LatestSeq(session: string) returns (n: int)
      requires Valid()
      modifies this
      ensures Valid() && View(session) == Hydrate(old(View(session)), cap) && n == View(session).Latest()
      ensures forall s :: s != session ==> View(s) == old(View(s))
    {
      EnsureHydrated(session);
      n := if session in seqBySession then seqBySession[session] else 0;
    }

    /** The locked part of `publish_inner`: push at the back, pop at the front down to the cap. */
    method Buffer(e: Event)
      requires Valid()
      modifies this
      ensures Valid() && queue == old(queue)
      ensures View(e.session) == Publish(old(View(e.session)), cap, e, false)
      ensures forall s :: s != e.session ==> View(s) == old(View(s))
    {
      hydrated := hydrated + {e.session};
      var bucket := (if e.session in perSession then perSession[e.session] else []) + [e];
      bucket := PopFront(bucket, cap);
      perSession := perSession[e.session := bucket];
      var current := if e.session in seqBySession then seqBySession[e.session] else 0;
      seqBySession := seqBySession[e.session := if e.num > current then e.num else current];
    }

    /** Sends an operation to the writer. */
    method Send(session: string, op: LogOp)
      modifies this`queue
      ensures queue == old(queue) + [(session, op)]
      ensures View(session) == old(View(session)).(queue := old(View(session)).queue + [op])
      ensures forall s :: s != session ==> View(s) == old(View(s))
    {
      queue := queue + [(session, op)];
      forall s
        ensures OpsFor(queue, s) == if s == session then OpsFor(old(queue), s) + [op] else OpsFor(old(queue), s)
      {
        OpsForSnoc(old(queue), (session, op), s);
      }
    }

    /** `publish_inner`. */
    method PublishInner(e: Event, persist: bool)
      requires Valid()
      modifies this
      ensures Valid()
      ensures View(e.session) == Publish(old(View(e.session)), cap, e, persist)
      ensures forall s :: s != e.session ==> View(s) == old(View(s))
    {
      Buffer(e);
      if persist {
        Send(e.session, AppendOp(e));
      }
    }

    /** `emit` and `emit_ephemeral`: the draft gets the session's next number. */
    method EmitEvent(draft: Event, persist: bool) returns (e: Event)
      requires Valid()
      modifies this
      ensures Valid()
      ensures View(draft.session) == Emit(old(View(draft.session)), cap, draft, persist)
      ensures e == draft.(num := Hydrate(old(View(draft.session)), cap).Latest() + 1)
      ensures forall s :: s != draft.session ==> View(s) == old(View(s))
    {
      var n := TakeSeq(draft.session);
      e := draft.(num := n);
      PublishInner(e, persist);
    }

    /** `replay_since`. */
    method ReplaySince(session: string, from: int, limit: Option<nat>) returns (out: seq<Event>, gap: bool)
      requires Valid()
      modifies this
      ensures Valid() && View(session) == Hydrate(old(View(session)), cap)
      ensures (out, gap) == Replay(View(session), cap, from, limit)
      ensures forall s :: s != session ==> View(s) == old(View(s))
    {
      EnsureHydrated(session);
      if session !in perSession || perSession[session] == [] {
        return [], false;
      }
      var bucket := perSession[session];
      gap := cap.Some? && from + 1 < bucket[0].num;
      out := TakeAfter(bucket, from, limit);
    }

    /** `truncate_to_seq`. */
    method TruncateToSeq(session: string, max: int)
      requires Valid()
      modifies this
      ensures Valid()
      ensures View(session) == TruncateTo(old(View(session)), cap, max)
      ensures forall s :: s != session ==> View(s) == old(View(s))
    {
      hide UpTo, OpsFor, Hydrate;
      EnsureHydrated(session);
      if session in perSession {
        var kept := FilterUpTo(perSession[session], max);
        perSession := perSession[session := kept];
      }
      seqBySession := seqBySession[session := if max > 0 then max else 0];
      Send(session, TruncateOp(max));
    }

    /** `truncate_before_event`. */
    method TruncateBeforeEvent(session: string, id: string)
      requires Valid()
      modifies this
      ensures Valid()
      ensures View(session) == TruncateBefore(old(View(session)), cap, id)
      ensures forall s :: s != session ==> View(s) == old(View(s))
    {
      EnsureHydrated(session);
      if session !in perSession {
        return;
      }
      var bucket := perSession[session];
      match FindId(bucket, id)
      case None =>
      case Some(t) =>
        var cutoff := bucket[t].num;
        for i := 0 to |bucket|
          invariant cutoff == RunMin(bucket[..i], bucket[t].run, bucket[t].num)
        {
          assert bucket[..i + 1][..i] == bucket[..i];
          if bucket[t].run.Some? && bucket[i].run == bucket[t].run {
            cutoff := if bucket[i].num < cutoff then bucket[i].num else cutoff;
          }
        }
        assert bucket[..|bucket|] == bucket;
        TruncateToSeq(session, cutoff - 1);
    }

    /** `truncate_session`. */
    method TruncateSession(session: string, id: string)
      requires Valid()
      modifies this
      ensures Valid()
      ensures View(session) == TruncateAfter(old(View(session)), cap, id)
      ensures forall s :: s != session ==> View(s) == old(View(s))
    {
      EnsureHydrated(session);
      if session !in perSession {
        return;
      }
      match FindId(perSession[session], id)
      case None =>
      case Some(t) => TruncateToSeq(session, perSession[session][t].num);
    }

    /** `purge_session`. */
    method PurgeSession(session: string)
      requires Valid()
      modifies this
      ensures Valid()
      ensures View(session) == Purge(old(View(session)))
      ensures forall s :: s != session ==> View(s) == old(View(s))
    {
      perSession := perSession - {session};
      seqBySession := seqBySession - {session};
      hydrated := hydrated + {session};
      Send(session, DeleteOp);
    }

    /** `fork_session`: the snapshot of one session, re-emitted one by one into another. */
    method ForkSession(source: string, target: string, ids: seq<string>)
      requires Valid()
      requires |ids| == |Hydrate(View(source), cap).Buffered()|
      modifies this
      ensures Valid()
      ensures source != target ==> View(source) == Hydrate(old(View(source)), cap)
      ensures var from := Hydrate(old(View(source)), cap);
              View(target) == Fork(from.Buffered(), ids, target, if source == target then from else old(View(target)), cap)
      ensures forall s :: s != source && s != target ==> View(s) == old(View(s))
    {
      hide OpsFor, Hydrate, Emit;
      EnsureHydrated(source);
      var events := if source in perSession then perSession[source] else [];
      ghost var src, dst := View(source), View(target);
      for i := 0 to |events|
        invariant Valid() && (source != target ==> View(source) == src)
        invariant View(target) == Fork(events[..i], ids[..i], target, dst, cap)
        invariant forall s :: s != source && s != target ==> View(s) == old(View(s))
      {
        assert events[..i + 1][..i] == events[..i] && ids[..i + 1][..i] == ids[..i];
        var e := EmitEvent(Copy(events[i], ids[i], target), true);
      }
      assert events[..|events|] == events && ids[..|ids|] == ids;
    }

    /** The writer takes one operation from the queue and performs it. */
    method WriterStep()
      requires Valid()
      modifies this, store
      ensures Valid() && |queue| == if old(queue) == [] then 0 else |old(queue)| - 1
      ensures old(queue) != [] ==> View(old(queue)[0].0) == WriteOne(old(View(queue[0].0)))
      ensures forall s :: old(queue) == [] || s != old(queue)[0].0 ==> View(s) == old(View(s))
    {
      if queue == [] {
        return;
      }
      var (session, op) := queue[0];
      queue := queue[1..];
      forall s
        ensures OpsFor(old(queue), s) == if s == session then [op] + OpsFor(queue, s) else OpsFor(queue, s)
      {
        OpsForCons(old(queue), s);
      }
      PerformOp(store, session, op);
    }

    /** `flush`, then the process ends and a new one starts on the same directory. */
    method FlushAndRestart() returns (next: Bus)
      requires Valid()
      modifies this, store
      ensures next.Valid() && fresh(next) && fresh(next.store) && next.cap == cap
      ensures forall s :: next.View(s) == Restart(old(View(s)))
    {
      while queue != []
        invariant Valid()
        invariant forall s :: Restart(View(s)) == Restart(old(View(s)))
        decreases |queue|
      {
        WriterStep();
      }
      var reopened := new JsonlStore(store.codec, store.files);
      next := new Bus(cap, reopened);
    }
  }

  /** What the writer does with one operation. */
  method PerformOp(store: JsonlStore, session: string, op: LogOp)
    requires store.Valid()
    modifies store
    ensures store.Valid()
    ensures store.Log(session) == Perform(old(store.Log(session)), op)
    ensures forall s :: s != session ==> store.Log(s) == old(store.Log(s))
  {
    match op
    case AppendOp(e) => store.Append(session, e);
    case DeleteOp => store.DeleteSession(session);
    case TruncateOp(max) => store.TruncateAfterSeq(session, max);
    assert forall s :: s != session ==> store.File(s) == old(store.File(s));
  }

  method MaxOf(events: seq<Event>) returns (max: int)
    requires events != []
    ensures max == MaxNum(events)
  {
    var i := |events| - 1;
    max := events[i].num;
    while i > 0
      invariant 0 <= i < |events| && max == MaxNum(events[i..])
    {
      i := i - 1;
      assert events[i..][1..] == events[i + 1..];
      max := if events[i].num > max then events[i].num else max;
    }
    assert events[0..] == events;
  }

  /** The loop of `replay_since`: skip, push, and stop once the limit is reached. */
  method TakeAfter(bucket: seq<Event>, from: int, limit: Option<nat>) returns (out: seq<Event>)
    ensures out == Take(After(bucket, from), if limit == Some(0) then Some(1) else limit)
  {
    out := [];
    for i := 0 to |bucket|
      invariant out + After(bucket[i..], from) == After(bucket, from)
      invariant limit.Some? ==> out == [] || |out| < limit.value
    {
      assert bucket[i..][1..] == bucket[i + 1..];
      if bucket[i].num <= from {
        assert [] + After(bucket[i + 1..], from) == After(bucket[i + 1..], from);
        continue;
      }
      assert out + ([bucket[i]] + After(bucket[i + 1..], from)) == out + [bucket[i]] + After(bucket[i + 1..], from);
      out := out + [bucket[i]];
      if limit.Some? && |out| >= limit.value {
        return;
      }
    }
    assert bucket[|bucket|..] == [];
  }

  /** Popping at the front of a list that is too long leaves its last elements. */
  lemma PopKeepsLast<T>(s: seq<T>, cap: Option<nat>)
    requires cap.Some? && |s| > cap.value
    ensures LastN(s[1..], cap) == LastN(s, cap)
  {
  }

  /** Pops at the front down to the capacity. */
  method PopFront(all: seq<Event>, cap: Option<nat>) returns (bucket: seq<Event>)
    ensures bucket == LastN(all, cap)
  {
    bucket := all;
    while cap.Some? && |bucket| > cap.value
      invariant LastN(bucket, cap) == LastN(all, cap)
    {
      PopKeepsLast(bucket, cap);
      bucket := bucket[1..];
    }
  }
}
