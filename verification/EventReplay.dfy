/**
 What the bus answers and undoes, against the plain history: replay and its gap flag, rewinding
 to before a run, and forking.
 */
module EventReplay {
  import opened Wrappers
  import opened EventLog
  import opened EventStream

  // ---- replay ----

  lemma {:induction false} AfterConcat(a: seq<Event>, b: seq<Event>, from: int)
    ensures After(a + b, from) == After(a, from) + After(b, from)
  {
    if a == [] {
      assert a + b == b;
    } else {
      assert (a + b)[1..] == a[1..] + b;
      AfterConcat(a[1..], b, from);
    }
  }

  lemma {:induction false} AfterNone(events: seq<Event>, from: int)
    ensures After(events, from) == [] <==> forall e :: e in events ==> e.num <= from
  {
    if events != [] {
      AfterNone(events[1..], from);
      assert events == [events[0]] + events[1..];
    }
  }

  /** Evicted events are numbered below everything in the ring. */
  lemma EvictedAreOlder(h: History, cap: Option<nat>)
    requires Sound(h, cap) && h.ring != []
    ensures forall e :: e in h.evicted ==> e.num < h.ring[0].num
  {
    var es := h.Events();
    forall i | 0 <= i < |h.evicted|
      ensures h.evicted[i].num < h.ring[0].num
    {
      assert es[i] == h.evicted[i] && es[|h.evicted|] == h.ring[0];
    }
  }

  /** A non-empty ring that reports no gap answers with every surviving event past `from`. */
  lemma ReplayIsComplete(st: Session, cap: Option<nat>, h: History, from: int)
    requires Refines(st, cap, h) && Sound(h, cap) && st.hydrated
    requires h.ring != [] && !Replay(st, cap, from, None).1
    ensures Replay(st, cap, from, None).0 == After(h.Events(), from)
  {
    EvictedAreOlder(h, cap);
    AfterNone(h.evicted, from);
    AfterConcat(h.evicted, h.ring, from);
    assert [] + After(h.ring, from) == After(h.ring, from);
  }

  /** Without a gap flag the answer is wrong in one case only: the ring is empty while evicted
      events past `from` survive. */
  lemma SilentlyIncompleteExactly(st: Session, cap: Option<nat>, h: History, from: int)
    requires Refines(st, cap, h) && Sound(h, cap) && st.hydrated
    ensures var (out, gap) := Replay(st, cap, from, None);
            !gap && out != After(h.Events(), from) <==> h.ring == [] && exists e :: e in h.evicted && e.num > from
  {
    if h.ring != [] {
      if !Replay(st, cap, from, None).1 {
        ReplayIsComplete(st, cap, h, from);
      }
    } else {
      assert h.Events() == h.evicted;
      AfterNone(h.evicted, from);
    }
  }

  /** That case is reached by truncating to the last evicted event: it survives, yet no replay
      from below it returns it or reports a gap. */
  lemma TruncatingBelowTheRingHides(st: Session, cap: Option<nat>, h: History, from: int)
    requires Refines(st, cap, h) && Sound(h, cap) && st.hydrated
    requires h.evicted != [] && h.ring != [] && from < h.evicted[|h.evicted| - 1].num
    ensures var last := h.evicted[|h.evicted| - 1];
            Replay(TruncateTo(st, cap, last.num), cap, from, None) == ([], false)
            && last in After(Truncated(h, last.num).Events(), from)
  {
    var last := h.evicted[|h.evicted| - 1];
    var h' := Truncated(h, last.num);
    TruncateRefines(st, cap, h, last.num);
    EvictedAreOlder(h, cap);
    RingAbove(h, cap, last.num);
    assert forall i :: 0 <= i < |h.ring| ==> h.ring[i] in h.ring;
    UpToNone(h.ring, last.num);
    UpToMembers(h.evicted, last.num);
    assert h'.Events() == h'.evicted;
    AfterMembers(h'.evicted, from);
  }

  lemma RingAbove(h: History, cap: Option<nat>, max: int)
    requires Sound(h, cap) && h.ring != [] && max < h.ring[0].num
    ensures forall e :: e in h.ring ==> e.num > max
  {
    var es := h.Events();
    forall i | 0 <= i < |h.ring|
      ensures h.ring[i].num > max
    {
      assert es[|h.evicted|] == h.ring[0] && es[|h.evicted| + i] == h.ring[i];
    }
  }

  lemma {:induction false} AfterMembers(events: seq<Event>, from: int)
    ensures forall e :: e in After(events, from) <==> e in events && e.num > from
  {
    if events != [] {
      AfterMembers(events[1..], from);
      assert events == [events[0]] + events[1..];
    }
  }

  /** The number of the last event evicted. */
  function EvictedTop(h: History): int {
    if h.evicted == [] then 0 else h.evicted[|h.evicted| - 1].num
  }

  lemma EvictedTopIsTop(h: History, cap: Option<nat>, from: int)
    requires Sound(h, cap)
    ensures h.evicted == [] || EvictedTop(h) <= from <==> forall e :: e in h.evicted ==> e.num <= from
  {
    if h.evicted != [] {
      var n := |h.evicted|;
      assert forall i :: 0 <= i < n ==> h.Events()[i] == h.evicted[i];
      assert h.evicted[n - 1] in h.evicted;
    }
  }

  /** A gap is reported though nothing past `from` was evicted. */
  ghost predicate FalseGap(st: Session, cap: Option<nat>, h: History, from: int) {
    Replay(st, cap, from, None).1 && forall e :: e in h.evicted ==> e.num <= from
  }

  /** A gap is never missed, and a false one is reported exactly from a number inside a hole just
      before the ring. */
  lemma FalseGapExactly(st: Session, cap: Option<nat>, h: History, from: int)
    requires Refines(st, cap, h) && Sound(h, cap) && st.hydrated && h.ring != []
    ensures (exists e :: e in h.evicted && e.num > from) ==> Replay(st, cap, from, None).1
    ensures FalseGap(st, cap, h, from)
            <==> cap.Some? && (h.evicted == [] || EvictedTop(h) <= from) && from < h.ring[0].num - 1
  {
    EvictedAreOlder(h, cap);
    EvictedTopIsTop(h, cap, from);
  }

  /** There are false gaps exactly if numbers are missing just before the ring: the first buffered
      number is not the next after the last evicted one (after 0 if none was). */
  lemma FalseGapsExactly(st: Session, cap: Option<nat>, h: History)
    requires Refines(st, cap, h) && Sound(h, cap) && st.hydrated && h.ring != []
    ensures (exists from: nat :: FalseGap(st, cap, h, from)) <==> cap.Some? && h.ring[0].num > EvictedTop(h) + 1
  {
    if exists from: nat :: FalseGap(st, cap, h, from) {
      var from: nat :| FalseGap(st, cap, h, from);
      FalseGapExactly(st, cap, h, from);
    }
    if h.evicted != [] {
      assert h.Events()[|h.evicted| - 1] == h.evicted[|h.evicted| - 1];
    }
    FalseGapExactly(st, cap, h, EvictedTop(h));
  }

  /** Survivors are numbered 1, 2, 3, ... without holes. */
  ghost predicate Contiguous(events: seq<Event>) {
    forall i :: 0 <= i < |events| ==> events[i].num == i + 1
  }

  /** With contiguous numbers and `from` at least 0, a gap is reported exactly when an evicted
      event past `from` exists. */
  lemma GapMeansEvicted(st: Session, cap: Option<nat>, h: History, from: int)
    requires Refines(st, cap, h) && Sound(h, cap) && st.hydrated && h.ring != []
    requires Contiguous(h.Events()) && from >= 0
    ensures Replay(st, cap, from, None).1 <==> exists e :: e in h.evicted && e.num > from
  {
    var n := |h.evicted|;
    assert h.Events()[n] == h.ring[0] && (n > 0 ==> h.Events()[n - 1] == h.evicted[n - 1]);
    FalseGapExactly(st, cap, h, from);
  }

  /** A counter raised by a truncation makes such a hole: the event emitted into an empty ring is
      taken for the end of a gap exactly if the counter was above the last evicted number. */
  lemma RaisedCounterMakesFalseGap(st: Session, cap: Option<nat>, h: History, e: Event, persist: bool)
    requires Refines(st, cap, h) && Sound(h, cap) && st.hydrated && h.ring == [] && cap.Some? && cap.value > 0
    ensures (exists from: nat :: FalseGap(Emit(st, cap, e, persist), cap, EmitTo(h, cap, e, persist), from))
            <==> h.counter > EvictedTop(h)
  {
    var one := [e.(num := h.counter + 1)];
    assert h.ring + one == one && one[..0] == [] && one[0..] == one && h.evicted + [] == h.evicted;
    EmitRefines(st, cap, h, e, persist);
    EmitIsSound(h, cap, e, persist);
    FalseGapsExactly(Emit(st, cap, e, persist), cap, EmitTo(h, cap, e, persist));
  }

  /** For one: truncating an empty session to 5 raises its counter, and the one event emitted then
      is reported as the end of a gap. */
  lemma RaisedCounterReportsFalseGap(e: Event, cap: nat)
    requires cap > 0
    ensures var st := Emit(TruncateTo(Session(None, None, false, [], []), Some(cap), 5), Some(cap), e, true);
            st.Buffered() == [e.(num := 6)] && Replay(st, Some(cap), 0, None) == ([e.(num := 6)], true)
  {
    var one := [e.(num := 6)];
    assert one[1..] == [] && one[0..] == one;
    assert After(one, 0) == one;
    assert [] + one == one;
  }

  lemma {:induction false} AfterShortens(events: seq<Event>, from: int)
    ensures |After(events, from)| <= |events|
  {
    if events != [] {
      AfterShortens(events[1..], from);
    }
  }

  /** A limited replay is the beginning of the unlimited one, with the same flag. It is as long as
      the limit, if there is as much, but never shorter than one event. */
  lemma LimitedReplayIsABeginning(st: Session, cap: Option<nat>, from: int, limit: nat)
    ensures var (all, gap) := Replay(st, cap, from, None);
            var n := if limit == 0 then 1 else limit;
            Replay(st, cap, from, Some(limit)) == (if n < |all| then all[..n] else all, gap)
  {
  }

  // ---- rewinding ----

  /** The first buffered event with this id. */
  function FindId(events: seq<Event>, id: string): (r: Option<nat>)
    ensures r.Some? ==> r.value < |events| && events[r.value].id == id && forall i :: 0 <= i < r.value ==> events[i].id != id
    ensures r.None? ==> forall i :: 0 <= i < |events| ==> events[i].id != id
  {
    if events == [] then None
    else if events[0].id == id then Some(0)
    else
      match FindId(events[1..], id)
      case None => None
      case Some(k) => Some(k + 1)
  }

  /** The least of `start` and the numbers of the events of `run`. */
  function RunMin(events: seq<Event>, run: Option<string>, start: int): int {
    if events == [] then start
    else
      var rest := RunMin(events[..|events| - 1], run, start);
      var last := events[|events| - 1];
      if run.Some? && last.run == run && last.num < rest then last.num else rest
  }

  /** `truncate_before_event`. */
  function TruncateBefore(st: Session, cap: Option<nat>, id: string): Session {
    var h := Hydrate(st, cap);
    match FindId(h.Buffered(), id)
    case None => h
    case Some(t) => TruncateTo(h, cap, RunMin(h.Buffered(), h.Buffered()[t].run, h.Buffered()[t].num) - 1)
  }

  /** `truncate_session`: up to and including the event. */
  function TruncateAfter(st: Session, cap: Option<nat>, id: string): Session {
    var h := Hydrate(st, cap);
    match FindId(h.Buffered(), id)
    case None => h
    case Some(t) => TruncateTo(h, cap, h.Buffered()[t].num)
  }

  /** The event is the target, or of the target's run. */
  ghost predicate WithTarget(events: seq<Event>, t: nat, i: nat)
    requires t < |events| && i < |events|
  {
    i == t || (events[t].run.Some? && events[i].run == events[t].run)
  }

  lemma {:induction false} RunMinIsLeast(events: seq<Event>, run: Option<string>, start: int)
    ensures var m := RunMin(events, run, start);
            m <= start
            && (forall i :: 0 <= i < |events| && run.Some? && events[i].run == run ==> m <= events[i].num)
            && (m == start || exists i :: 0 <= i < |events| && run.Some? && events[i].run == run && events[i].num == m)
  {
    if events != [] {
      RunMinIsLeast(events[..|events| - 1], run, start);
    }
  }

  /** Event `first` is the earliest of the target's run, or the target itself. */
  ghost predicate EarliestWithTarget(ring: seq<Event>, t: nat, first: nat) {
    t < |ring| && first < |ring| && WithTarget(ring, t, first) && forall i: nat :: i < first ==> !WithTarget(ring, t, i)
  }

  lemma RingIsNumbered(h: History, cap: Option<nat>)
    requires Sound(h, cap)
    ensures Numbered(h.ring, h.counter)
  {
    var es, n := h.Events(), |h.evicted|;
    forall i | 0 <= i < |h.ring|
      ensures h.ring[i] == es[n + i]
    {
    }
  }

  lemma RunMinOfEarliest(ring: seq<Event>, top: int, t: nat, first: nat)
    requires Numbered(ring, top) && EarliestWithTarget(ring, t, first)
    ensures RunMin(ring, ring[t].run, ring[t].num) == ring[first].num
  {
    RunMinIsLeast(ring, ring[t].run, ring[t].num);
    var m := RunMin(ring, ring[t].run, ring[t].num);
    if m != ring[t].num {
      var i: nat :| i < |ring| && ring[t].run.Some? && ring[i].run == ring[t].run && ring[i].num == m;
      assert WithTarget(ring, t, i);
    } else {
      assert WithTarget(ring, t, t);
    }
  }

  /** Cutting a numbered list just below one of its events keeps the events before it. */
  lemma {:induction false} CutBelow(events: seq<Event>, top: int, k: nat)
    requires Numbered(events, top) && k < |events|
    ensures UpTo(events, events[k].num - 1) == events[..k]
  {
    var head, tail, max := events[..k], events[k..], events[k].num - 1;
    assert events == head + tail;
    UpToConcat(head, tail, max);
    assert forall i :: 0 <= i < |tail| ==> tail[i] == events[k + i];
    UpToAll(head, max);
    UpToNone(tail, max);
  }

  lemma {:induction false} UpToAll(events: seq<Event>, max: int)
    requires forall i :: 0 <= i < |events| ==> events[i].num <= max
    ensures UpTo(events, max) == events
  {
    if events != [] {
      UpToAll(events[1..], max);
    }
  }

  lemma {:induction false} UpToNone(events: seq<Event>, max: int)
    requires forall i :: 0 <= i < |events| ==> events[i].num > max
    ensures UpTo(events, max) == []
  {
    if events != [] {
      UpToNone(events[1..], max);
    }
  }

  /** Rewinding keeps exactly the buffered events before the earliest one of the target's run. */
  lemma RewindIsExact(st: Session, cap: Option<nat>, h: History, t: nat, first: nat)
    requires Refines(st, cap, h) && Sound(h, cap) && st.hydrated
    requires EarliestWithTarget(h.ring, t, first) && FindId(h.ring, h.ring[t].id) == Some(t)
    ensures var next := TruncateBefore(st, cap, h.ring[t].id);
            next == TruncateTo(st, cap, h.ring[first].num - 1) && next.Buffered() == h.ring[..first]
  {
    RingIsNumbered(h, cap);
    RunMinOfEarliest(h.ring, h.counter, t, first);
    CutBelow(h.ring, h.counter, first);
  }

  /** Cutting after an event keeps exactly the buffered events up to and including it, and the
      history up to its number; for an event that is not buffered nothing changes. */
  lemma CutAfterIsExact(st: Session, cap: Option<nat>, h: History, id: string)
    requires Refines(st, cap, h) && Sound(h, cap) && st.hydrated
    ensures var next := TruncateAfter(st, cap, id);
            (forall t: nat :: t < |h.ring| && h.ring[t].id == id && (forall i :: 0 <= i < t ==> h.ring[i].id != id) ==>
               next.Buffered() == h.ring[..t + 1] && next.Latest() == h.ring[t].num
               && PerformAll(next.log, next.queue) == UpTo(h.durable, h.ring[t].num))
            && ((forall e :: e in h.ring ==> e.id != id) ==> next == st)
  {
    hide UpTo, Sound, PerformAll;
    if FindId(h.ring, id).Some? {
      FoundIsCut(st, cap, h, id, FindId(h.ring, id).value);
    }
  }

  lemma FoundIsCut(st: Session, cap: Option<nat>, h: History, id: string, t: nat)
    requires Refines(st, cap, h) && Sound(h, cap) && st.hydrated && FindId(h.ring, id) == Some(t)
    ensures var next := TruncateAfter(st, cap, id);
            next.Buffered() == h.ring[..t + 1] && next.Latest() == h.ring[t].num
            && PerformAll(next.log, next.queue) == UpTo(h.durable, h.ring[t].num)
  {
    hide UpTo, PerformAll, Sound;
    RingIsNumbered(h, cap);
    CutAt(h.ring, h.counter, t);
    TruncateRefines(st, cap, h, h.ring[t].num);
  }

  lemma CutAt(events: seq<Event>, top: int, k: nat)
    requires Numbered(events, top) && k < |events|
    ensures UpTo(events, events[k].num) == events[..k + 1]
  {
    hide UpTo;
    var head, tail, max := events[..k + 1], events[k + 1..], events[k].num;
    forall i | 0 <= i < |tail|
      ensures tail[i].num > max
    {
      assert tail[i] == events[k + 1 + i];
    }
    forall i | 0 <= i < |head|
      ensures head[i].num <= max
    {
      assert head[i] == events[i];
    }
    CutJoin(head, tail, max);
    assert events == head + tail;
  }

  lemma CutJoin(head: seq<Event>, tail: seq<Event>, max: int)
    requires (forall i :: 0 <= i < |head| ==> head[i].num <= max) && forall i :: 0 <= i < |tail| ==> tail[i].num > max
    ensures UpTo(head + tail, max) == head
  {
    UpToConcat(head, tail, max);
    UpToAll(head, max);
    UpToNone(tail, max);
    assert head + [] == head;
  }

  /** None of the run is left in the ring, but the log keeps what had been evicted: the whole
      history is rid of the run exactly when no evicted event belongs to it. */
  lemma RunIsGoneExactly(h: History, cap: Option<nat>, t: nat, first: nat)
    requires Sound(h, cap) && EarliestWithTarget(h.ring, t, first) && h.ring[t].run.Some?
    ensures var left := Truncated(h, h.ring[first].num - 1);
            (forall e :: e in left.Events() ==> e.run != h.ring[t].run) <==> forall e :: e in h.evicted ==> e.run != h.ring[t].run
  {
    var run, max := h.ring[t].run, h.ring[first].num - 1;
    RingIsNumbered(h, cap);
    CutBelow(h.ring, h.counter, first);
    EvictedAreOlder(h, cap);
    UpToMembers(h.evicted, max);
    assert h.ring[0].num <= h.ring[first].num;
    forall i: nat | i < first
      ensures h.ring[..first][i].run != run
    {
      assert !WithTarget(h.ring, t, i);
    }
  }

  // ---- forking ----

  /** The copy of an event for another session; its number is given on emit. */
  function Copy(e: Event, id: string, session: string): Event {
    e.(id := id, session := session)
  }

  /** `fork_session`: the buffered events of the source, one by one, as durable events. */
  function Fork(source: seq<Event>, ids: seq<string>, session: string, st: Session, cap: Option<nat>): Session
    requires |ids| == |source|
  {
    if source == [] then st
    else
      var n := |source| - 1;
      Emit(Fork(source[..n], ids[..n], session, st, cap), cap, Copy(source[n], ids[n], session), true)
  }

  function ForkHistory(source: seq<Event>, ids: seq<string>, session: string, h: History, cap: Option<nat>): History
    requires |ids| == |source|
  {
    if source == [] then h
    else
      var n := |source| - 1;
      EmitTo(ForkHistory(source[..n], ids[..n], session, h, cap), cap, Copy(source[n], ids[n], session), true)
  }

  /** The copies a fork makes, numbered on from `counter`. */
  function Copies(source: seq<Event>, ids: seq<string>, session: string, counter: int): seq<Event>
    requires |ids| == |source|
  {
    seq(|source|, i requires 0 <= i < |source| => Copy(source[i], ids[i], session).(num := counter + 1 + i))
  }

  /** Forking appends copies in order, numbered on from the target's counter; all are durable,
      even of ephemeral events. */
  lemma {:induction false} ForkAppendsCopies(source: seq<Event>, ids: seq<string>, session: string, h: History,
                                             cap: Option<nat>)
    requires |ids| == |source|
    ensures var f, copies := ForkHistory(source, ids, session, h, cap), Copies(source, ids, session, h.counter);
            f.counter == h.counter + |source| && f.Events() == h.Events() + copies && f.durable == h.durable + copies
    decreases |source|
  {
    if source != [] {
      var n := |source| - 1;
      var g := ForkHistory(source[..n], ids[..n], session, h, cap);
      ForkAppendsCopies(source[..n], ids[..n], session, h, cap);
      EmitAppends(g, cap, Copy(source[n], ids[n], session), true);
      var last := Copy(source[n], ids[n], session).(num := g.counter + 1);
      assert Copies(source, ids, session, h.counter) == Copies(source[..n], ids[..n], session, h.counter) + [last];
    }
  }

  lemma {:induction false} ForkRefines(source: seq<Event>, ids: seq<string>, session: string, st: Session,
                                       cap: Option<nat>, h: History)
    requires |ids| == |source| && Refines(st, cap, h)
    ensures Refines(Fork(source, ids, session, st, cap), cap, ForkHistory(source, ids, session, h, cap))
    decreases |source|
  {
    if source != [] {
      var n := |source| - 1;
      ForkRefines(source[..n], ids[..n], session, st, cap, h);
      EmitRefines(Fork(source[..n], ids[..n], session, st, cap), cap,
                  ForkHistory(source[..n], ids[..n], session, h, cap), Copy(source[n], ids[n], session), true);
    }
  }

  /** What a copy keeps of its event: all but id, session and number. */
  lemma CopiesKeepContent(source: seq<Event>, ids: seq<string>, session: string, h: History, cap: Option<nat>, i: nat)
    requires |ids| == |source| && i < |source|
    ensures var f := ForkHistory(source, ids, session, h, cap);
            |f.Events()| == |h.Events()| + |source|
            && f.Events()[|h.Events()| + i] == Event(ids[i], session, h.counter + 1 + i, source[i].run, source[i].body)
  {
    ForkAppendsCopies(source, ids, session, h, cap);
  }

  /** A fork adds as many events as the source session has exactly if none of those had left the
      source's ring. */
  lemma ForkIsWholeExactly(h: History, ids: seq<string>, session: string, target: History, cap: Option<nat>)
    requires |ids| == |h.ring|
    ensures |ForkHistory(h.ring, ids, session, target, cap).Events()| == |target.Events()| + |h.Events()| <==> h.evicted == []
  {
    ForkAppendsCopies(h.ring, ids, session, target, cap);
  }
}
