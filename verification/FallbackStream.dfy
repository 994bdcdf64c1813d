/**
 What the consumer of the fallback chain can rely on: the stream after the last `Reset`, the
 order and number of calls, the time spent waiting, and when a response is flagged.
 */
module FallbackStream {
  import opened Wrappers
  import opened Fallback

  // ---- the stream ----

  /** What a consumer holds that drops everything at a `Reset` and does not render `Done`. */
  function Visible(events: seq<Event>): seq<Event> {
    if events == [] then []
    else
      var last, before := events[|events| - 1], events[..|events| - 1];
      if last.Reset? then [] else if last.Done? then Visible(before) else Visible(before) + [last]
  }

  lemma {:induction false} VisibleAppend(s: seq<Event>, t: seq<Event>)
    ensures Visible(s + t) == if Reset in t then Visible(t) else Visible(s) + Visible(t)
    decreases |t|
  {
    if t == [] {
      assert s + t == s;
    } else {
      var before := t[..|t| - 1];
      VisibleAppend(s, before);
      assert (s + t)[..|s + t| - 1] == s + before;
      assert t == before + [t[|t| - 1]];
    }
  }

  lemma {:induction false} SilentIsInvisible(events: seq<Event>)
    requires !Streams(events)
    ensures Visible(events) == [] && Reset !in events
  {
    if events != [] {
      var before := events[..|events| - 1];
      assert forall i :: 0 <= i < |before| ==> before[i] == events[i];
      SilentIsInvisible(before);
      assert forall i :: 0 <= i < |events| ==> events[i].Done?;
    }
  }

  /** The visible stream is the last call's own, and the flag says whether there is any. */
  ghost predicate ShowsLastCall(env: Env, run: Run) {
    if run.calls == [] then Visible(run.stream) == [] && !run.emitted
    else
      var events := env.call(|run.calls| - 1).events;
      Visible(run.stream) == Visible(events) && (run.emitted <==> Streams(events))
  }

  lemma CalledShows(env: Env, run: Run, pos: nat, model: string, attempt: nat)
    requires ShowsLastCall(env, run)
    ensures ShowsLastCall(env, Called(env, run, pos, model, attempt))
  {
    var events := env.call(|run.calls|).events;
    if run.emitted {
      assert Visible(run.stream + [Reset]) == [];
      VisibleAppend(run.stream + [Reset], events);
    } else {
      if run.calls != [] {
        SilentIsInvisible(env.call(|run.calls| - 1).events);
      }
      assert run.stream + [] == run.stream;
      VisibleAppend(run.stream, events);
    }
    assert [] + Visible(events) == Visible(events);
  }

  lemma {:induction false} AttemptsShow(env: Env, run: Run, e: Entry, pos: nat, attempt: nat)
    requires attempt <= env.maxRetries + 1 && ShowsLastCall(env, run)
    ensures ShowsLastCall(env, Attempts(env, run, e, pos, attempt).0)
    decreases env.maxRetries + 1 - attempt
  {
    if attempt <= env.maxRetries {
      var a, model := env.call(|run.calls|), EffectiveModel(e, env.model);
      CalledShows(env, run, pos, model, attempt);
      if !a.cancelledBefore && a.outcome.Failure? {
        AttemptsShow(env, NotedFailure(env, Called(env, run, pos, model, attempt), a.outcome.error, attempt), e, pos, attempt + 1);
      }
    }
  }

  lemma {:induction false} WalkShows(env: Env, run: Run, ordered: seq<Entry>, pos: nat)
    requires pos <= |ordered| && ShowsLastCall(env, run)
    ensures ShowsLastCall(env, Walk(env, run, ordered, pos).0)
    decreases |ordered| - pos
  {
    if pos < |ordered| {
      if Skips(run, ordered[pos]) {
        WalkShows(env, run, ordered, pos + 1);
      } else {
        AttemptsShow(env, Entered(run, ordered[pos]), ordered[pos], pos, 0);
        var (after, end) := Attempts(env, Entered(run, ordered[pos]), ordered[pos], pos, 0);
        if end == Spent {
          WalkShows(env, Exhausted(env, after, ordered[pos]), ordered, pos + 1);
        }
      }
    }
  }

  // ---- calls ----

  /** The calls go forward: later providers after earlier ones, retries in order. */
  ghost predicate Forward(calls: seq<Call>) {
    forall i, j :: 0 <= i < j < |calls| ==>
      calls[i].pos < calls[j].pos || (calls[i].pos == calls[j].pos && calls[i].attempt < calls[j].attempt)
  }

  /** The first `attempts` calls to a provider were made, with its model. */
  ghost predicate Tried(env: Env, calls: seq<Call>, e: Entry, pos: nat, attempts: nat) {
    forall k: nat :: k < attempts ==> Call(pos, k, EffectiveModel(e, env.model)) in calls
  }

  predicate FailedCall(env: Env, k: nat) {
    env.call(k).outcome.Failure?
  }

  /** The first n calls all failed. */
  ghost predicate AllFailed(env: Env, n: nat) {
    forall k: nat :: k < n ==> FailedCall(env, k)
  }

  /** The state between calls, before attempt `attempt` at provider `pos`. */
  ghost predicate UpTo(env: Env, run: Run, pos: nat, attempt: nat) {
    Forward(run.calls) && AllFailed(env, |run.calls|)
    && (forall c :: c in run.calls ==> c.pos < pos || (c.pos == pos && c.attempt < attempt))
    && (if run.calls == [] then run.lastError == None
        else run.lastError.Some? && env.call(|run.calls| - 1).outcome == Failure(run.lastError.value))
  }

  /** The shape of a run that ended at provider `pos`. */
  ghost predicate EndedAt(env: Env, run: Run, end: End, e: Entry, pos: nat) {
    var n := |run.calls|;
    Forward(run.calls) && (forall c :: c in run.calls ==> c.pos <= pos)
    && match end
       case Won(response) =>
         n > 0 && AllFailed(env, n - 1) && run.calls[n - 1].pos == pos && env.call(n - 1).outcome.Answer?
         && response == Flagged(env.call(n - 1).outcome.response, e.name == "mock" && n > 1)
       case Stopped(message) =>
         (message == "run cancelled" && AllFailed(env, n) && env.call(n).cancelledBefore)
         || (message == "run cancelled during provider call" && n > 0 && AllFailed(env, n - 1)
             && env.call(n - 1).outcome.Interrupted?)
       case Spent => false
  }

  function Flagged(response: Response, flag: bool): Response {
    if flag then response.(degraded := true) else response
  }

  lemma ForwardSnoc(calls: seq<Call>, c: Call)
    requires Forward(calls) && forall b :: b in calls ==> b.pos < c.pos || (b.pos == c.pos && b.attempt < c.attempt)
    ensures Forward(calls + [c]) && forall b :: b in calls + [c] <==> b in calls || b == c
  {
    assert forall i :: 0 <= i < |calls| ==> calls[i] in calls;
  }

  /** After a failed call the walk stands before the next attempt. */
  lemma FailureGoesOn(env: Env, run: Run, e: Entry, pos: nat, attempt: nat)
    requires UpTo(env, run, pos, attempt) && Tried(env, run.calls, e, pos, attempt) && FailedCall(env, |run.calls|)
    ensures var next := NotedFailure(env, Called(env, run, pos, EffectiveModel(e, env.model), attempt),
                                     env.call(|run.calls|).outcome.error, attempt);
            UpTo(env, next, pos, attempt + 1) && Tried(env, next.calls, e, pos, attempt + 1)
  {
    ForwardSnoc(run.calls, Call(pos, attempt, EffectiveModel(e, env.model)));
  }

  /** An attempt that does not fail is the last one. */
  lemma AttemptEnds(env: Env, run: Run, e: Entry, pos: nat, attempt: nat)
    requires attempt <= env.maxRetries && UpTo(env, run, pos, attempt)
    requires env.call(|run.calls|).cancelledBefore || !FailedCall(env, |run.calls|)
    ensures var (after, end) := Attempts(env, run, e, pos, attempt);
            EndedAt(env, after, end, e, pos) && run.calls <= after.calls
            && forall c :: c in after.calls ==> c in run.calls || c.pos == pos
  {
    ForwardSnoc(run.calls, Call(pos, attempt, EffectiveModel(e, env.model)));
    var (after, end) := Attempts(env, run, e, pos, attempt);
    assert end.Won? ==> |after.calls| == |run.calls| + 1;
  }

  lemma NoMoreAttempts(env: Env, run: Run, e: Entry, pos: nat, attempt: nat)
    requires attempt == env.maxRetries + 1 && UpTo(env, run, pos, attempt) && Tried(env, run.calls, e, pos, attempt)
    ensures Attempts(env, run, e, pos, attempt) == (run, Attempts(env, run, e, pos, attempt).1)
            && Attempts(env, run, e, pos, attempt).1.Spent? && UpTo(env, run, pos + 1, 0)
  {
  }

  lemma {:induction false} AttemptsCall(env: Env, run: Run, e: Entry, pos: nat, attempt: nat)
    requires attempt <= env.maxRetries + 1 && UpTo(env, run, pos, attempt) && Tried(env, run.calls, e, pos, attempt)
    ensures var (after, end) := Attempts(env, run, e, pos, attempt);
            run.calls <= after.calls && (forall c :: c in after.calls ==> c in run.calls || c.pos == pos)
            && if end.Spent? then UpTo(env, after, pos + 1, 0) && Tried(env, after.calls, e, pos, env.maxRetries + 1)
               else EndedAt(env, after, end, e, pos)
    decreases env.maxRetries + 1 - attempt
  {
    hide UpTo, Tried, EndedAt, EffectiveModel;
    if attempt > env.maxRetries {
      NoMoreAttempts(env, run, e, pos, attempt);
    } else {
      if env.call(|run.calls|).cancelledBefore || !FailedCall(env, |run.calls|) {
        AttemptEnds(env, run, e, pos, attempt);
      } else {
        FailureGoesOn(env, run, e, pos, attempt);
        var next := NotedFailure(env, Called(env, run, pos, EffectiveModel(e, env.model), attempt),
                                 env.call(|run.calls|).outcome.error, attempt);
        assert Attempts(env, run, e, pos, attempt) == Attempts(env, next, e, pos, attempt + 1);
        assert next.calls == run.calls + [Call(pos, attempt, EffectiveModel(e, env.model))];
        AttemptsCall(env, next, e, pos, attempt + 1);
      }
    }
  }

  /** The attempts at one provider touch its breaker only, and only on success; time goes on. */
  lemma {:induction false} AttemptsKeepBreakers(env: Env, run: Run, e: Entry, pos: nat, attempt: nat)
    requires attempt <= env.maxRetries + 1
    ensures var (after, end) := Attempts(env, run, e, pos, attempt);
            after.now >= run.now
            && after.breakers == if end.Won? then Succeeded(run.breakers, e.name) else run.breakers
    decreases env.maxRetries + 1 - attempt
  {
    if attempt <= env.maxRetries {
      var a := env.call(|run.calls|);
      if !a.cancelledBefore && a.outcome.Failure? {
        var next := Called(env, run, pos, EffectiveModel(e, env.model), attempt);
        AttemptsKeepBreakers(env, NotedFailure(env, next, a.outcome.error, attempt), e, pos, attempt + 1);
      }
    }
  }

  /** A provider that is up for calls: ready, its breaker closed or expired. */
  predicate Eligible(e: Entry, breakers: map<string, Breaker>, now: nat) {
    e.ready
    && (e.name in breakers ==> match breakers[e.name].openUntil
                               case Some(until) => until <= now
                               case None => true)
  }

  /** Barred from start to finish: not ready, or its breaker stays open past the end. */
  predicate Barred(e: Entry, breakers: map<string, Breaker>, end: nat) {
    !e.ready
    || (e.name in breakers && match breakers[e.name].openUntil
                              case Some(until) => end < until
                              case None => false)
  }

  /** Both are what the loop looks at. */
  lemma LoopLooksAt(e: Entry, breakers: map<string, Breaker>, now: nat)
    ensures Eligible(e, breakers, now) <==> e.ready && !Open(breakers, e.name, now)
    ensures Barred(e, breakers, now) <==> !e.ready || Open(breakers, e.name, now)
  {
  }

  ghost predicate NoCallsTo(calls: seq<Call>, pos: nat) {
    forall c :: c in calls ==> c.pos != pos
  }

  lemma TriedGrows(env: Env, calls: seq<Call>, more: seq<Call>, e: Entry, pos: nat, attempts: nat)
    requires Tried(env, calls, e, pos, attempts) && calls <= more
    ensures Tried(env, more, e, pos, attempts)
  {
    assert forall c :: c in calls ==> c in more;
  }

  /** Leaving a provider behind: its calls failed, and only its own breaker may have changed. */
  lemma LeavesBehind(env: Env, run: Run, e: Entry, pos: nat)
    requires UpTo(env, run, pos, 0)
    ensures var (after, end) := Attempts(env, Entered(run, e), e, pos, 0);
            run.calls <= after.calls && run.now <= after.now
            && (forall c :: c in after.calls ==> c in run.calls || c.pos == pos)
            && (if end.Spent? then UpTo(env, Exhausted(env, after, e), pos + 1, 0) && Tried(env, after.calls, e, pos, env.maxRetries + 1)
                else EndedAt(env, after, end, e, pos))
            && (forall name, now :: name != e.name ==>
                  (Open(Exhausted(env, after, e).breakers, name, now) <==> Open(run.breakers, name, now)) || end.Won?)
  {
    AttemptsCall(env, Entered(run, e), e, pos, 0);
    AttemptsKeepBreakers(env, Entered(run, e), e, pos, 0);
  }

  /** Where the walk stops: the providers before it were left behind. */
  function StopsAt(env: Env, run: Run, ordered: seq<Entry>, pos: nat): (p: nat)
    requires pos <= |ordered|
    ensures pos <= p <= |ordered|
    ensures Walk(env, run, ordered, pos).1.Spent? <==> p == |ordered|
    decreases |ordered| - pos
  {
    if pos == |ordered| then pos
    else if Skips(run, ordered[pos]) then StopsAt(env, run, ordered, pos + 1)
    else
      var (after, end) := Attempts(env, Entered(run, ordered[pos]), ordered[pos], pos, 0);
      if end != Spent then pos else StopsAt(env, Exhausted(env, after, ordered[pos]), ordered, pos + 1)
  }

  /** The state in which the walk goes on after a provider all of whose attempts failed. */
  function Behind(env: Env, run: Run, e: Entry, pos: nat): Run {
    Exhausted(env, Attempts(env, Entered(run, e), e, pos, 0).0, e)
  }

  lemma {:induction false} WalkEnds(env: Env, run: Run, ordered: seq<Entry>, pos: nat)
    requires pos <= |ordered| && UpTo(env, run, pos, 0)
    ensures var (after, end) := Walk(env, run, ordered, pos);
            var p := StopsAt(env, run, ordered, pos);
            run.calls <= after.calls && run.now <= after.now
            && if p == |ordered| then UpTo(env, after, p, 0) else EndedAt(env, after, end, ordered[p], p)
    decreases |ordered| - pos
  {
    if pos < |ordered| {
      var e := ordered[pos];
      if Skips(run, e) {
        WalkEnds(env, run, ordered, pos + 1);
      } else {
        LeavesBehind(env, run, e, pos);
        if Attempts(env, Entered(run, e), e, pos, 0).1.Spent? {
          WalkEnds(env, Behind(env, run, e, pos), ordered, pos + 1);
        }
      }
    }
  }

  /** A provider left behind that was eligible from the start was tried to the last attempt. */
  lemma {:induction false} WalkTries(env: Env, run: Run, ordered: seq<Entry>, pos: nat, i: nat)
    requires pos <= |ordered| && NamesDiffer(ordered) && UpTo(env, run, pos, 0)
    requires pos <= i < StopsAt(env, run, ordered, pos) && Eligible(ordered[i], run.breakers, run.now)
    ensures Tried(env, Walk(env, run, ordered, pos).0.calls, ordered[i], i, env.maxRetries + 1)
    decreases |ordered| - pos
  {
    hide Eligible, Tried, EndedAt;
    var e := ordered[pos];
    LoopLooksAt(ordered[i], run.breakers, run.now);
    if Skips(run, e) {
      WalkTries(env, run, ordered, pos + 1, i);
    } else {
      LeavesBehind(env, run, e, pos);
      var next := Behind(env, run, e, pos);
      LoopLooksAt(ordered[i], next.breakers, next.now);
      if i == pos {
        WalkEnds(env, next, ordered, pos + 1);
        TriedGrows(env, next.calls, Walk(env, next, ordered, pos + 1).0.calls, e, pos, env.maxRetries + 1);
      } else {
        assert Eligible(ordered[i], next.breakers, next.now);
        WalkTries(env, next, ordered, pos + 1, i);
      }
    }
  }

  /** A provider barred throughout is not called. */
  lemma {:induction false} WalkBars(env: Env, run: Run, ordered: seq<Entry>, pos: nat, i: nat)
    requires pos <= |ordered| && NamesDiffer(ordered) && UpTo(env, run, pos, 0) && i < |ordered| && NoCallsTo(run.calls, i)
    requires i < pos || Barred(ordered[i], run.breakers, Walk(env, run, ordered, pos).0.now)
    ensures NoCallsTo(Walk(env, run, ordered, pos).0.calls, i)
    decreases |ordered| - pos
  {
    hide Attempts, Tried, EndedAt, Barred;
    if pos < |ordered| {
      var e, after := ordered[pos], Walk(env, run, ordered, pos).0;
      LoopLooksAt(ordered[i], run.breakers, after.now);
      LoopLooksAt(ordered[i], Behind(env, run, e, pos).breakers, after.now);
      WalkEnds(env, run, ordered, pos);
      if Skips(run, e) {
        WalkBars(env, run, ordered, pos + 1, i);
      } else {
        LeavesBehind(env, run, e, pos);
        assert i != pos;
        if Attempts(env, Entered(run, e), e, pos, 0).1.Spent? {
          WalkBars(env, Behind(env, run, e, pos), ordered, pos + 1, i);
        }
      }
    }
  }
}
