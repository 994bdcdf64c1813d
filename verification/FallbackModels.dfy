/**
 What the calls of one execute are made with and what they take: the model each provider is asked
 for, the exact waiting and running time, and the breaker a success leaves.
 */
module FallbackModels {
  import opened Wrappers
  import opened Text
  import opened Fallback
  import opened FallbackPromises
  import opened FallbackStream

  // ---- the model asked for ----

  /** The requested model names the channel of this entry, and the model `name` there. */
  ghost predicate Targets(requested: string, entry: string, name: string) {
    exists id: string :: ':' !in id && id != "" && name != "" && requested == "channel:" + id + ":" + name && entry == "channel:" + id
  }

  /** The model an entry is to be asked for: the one named for its channel; otherwise its default, if
      the request names no model of its own and there is a default; otherwise the requested one. */
  ghost predicate RightModel(requested: string, e: Entry, model: string) {
    if Targets(requested, e.name, model) then true
    else
      (forall name :: !Targets(requested, e.name, name))
      && model == if (requested in {"", "default", "mock"} || "channel:" <= requested) && e.defaultModel.Some?
                  then e.defaultModel.value else requested
  }

  lemma ParsedTargets(requested: string, entry: string, name: string)
    ensures ParseTarget(requested) == Some((entry, name)) <==> Targets(requested, entry, name)
  {
    if Targets(requested, entry, name) {
      var id: string :| ':' !in id && id != "" && name != "" && requested == "channel:" + id + ":" + name && entry == "channel:" + id;
      TargetExactly(requested, id, name);
    }
    if ParseTarget(requested) == Some((entry, name)) {
      var rest := requested[8..];
      var id := rest[..FindFrom(rest, ":", 0).value];
      NoColonBefore(rest);
      TargetExactly(requested, id, name);
    }
  }

  lemma NoColonBefore(rest: string)
    requires FindFrom(rest, ":", 0).Some?
    ensures FindFrom(rest, ":", 0).value <= |rest| && ':' !in rest[..FindFrom(rest, ":", 0).value]
  {
    var colon := FindFrom(rest, ":", 0).value;
    forall k: nat | k < colon
      ensures rest[k] != ':'
    {
      assert !OccursAt(rest, ":", k);
      assert rest[k..k + 1] == [rest[k]];
    }
  }

  lemma OneTarget(requested: string, entry: string, a: string, b: string)
    requires Targets(requested, entry, a) && Targets(requested, entry, b)
    ensures a == b
  {
    ParsedTargets(requested, entry, a);
    ParsedTargets(requested, entry, b);
  }

  lemma EffectiveIsRight(e: Entry, requested: string)
    ensures RightModel(requested, e, EffectiveModel(e, requested))
  {
    hide Targets;
    forall name
      ensures ParseTarget(requested) == Some((e.name, name)) <==> Targets(requested, e.name, name)
    {
      ParsedTargets(requested, e.name, name);
    }
    assert "channel:" <= requested <==> StartsWith(requested, "channel:");
  }

  /** The calls from the n-th on are to providers from `pos` on, each asked for the right model. */
  ghost predicate AskRight(env: Env, calls: seq<Call>, n: nat, ordered: seq<Entry>, pos: nat) {
    forall i :: n <= i < |calls| ==>
      pos <= calls[i].pos < |ordered| && RightModel(env.model, ordered[calls[i].pos], calls[i].model)
  }

  lemma {:induction false} AttemptsAskRight(env: Env, run: Run, ordered: seq<Entry>, pos: nat, attempt: nat, n: nat)
    requires attempt <= env.maxRetries + 1 && pos < |ordered| && n <= |run.calls| && AskRight(env, run.calls, n, ordered, pos)
    ensures var after := Attempts(env, run, ordered[pos], pos, attempt).0;
            run.calls <= after.calls && AskRight(env, after.calls, n, ordered, pos)
    decreases env.maxRetries + 1 - attempt
  {
    hide RightModel, EffectiveModel;
    if attempt <= env.maxRetries {
      var e := ordered[pos];
      var a, called := env.call(|run.calls|), Called(env, run, pos, EffectiveModel(e, env.model), attempt);
      EffectiveIsRight(e, env.model);
      assert AskRight(env, called.calls, n, ordered, pos);
      if !a.cancelledBefore && a.outcome.Failure? {
        AttemptsAskRight(env, NotedFailure(env, called, a.outcome.error, attempt), ordered, pos, attempt + 1, n);
      }
    }
  }

  lemma {:induction false} WalkAsksRight(env: Env, run: Run, ordered: seq<Entry>, pos: nat)
    requires pos <= |ordered| && AskRight(env, run.calls, 0, ordered, 0)
    ensures AskRight(env, Walk(env, run, ordered, pos).0.calls, 0, ordered, 0)
    decreases |ordered| - pos
  {
    hide RightModel, Attempts;
    if pos < |ordered| {
      var e := ordered[pos];
      if Skips(run, e) {
        WalkAsksRight(env, run, ordered, pos + 1);
      } else {
        var n := |run.calls|;
        AttemptsAskRight(env, Entered(run, e), ordered, pos, 0, n);
        var after := Attempts(env, Entered(run, e), e, pos, 0).0;
        forall i | 0 <= i < |after.calls|
          ensures after.calls[i].pos < |ordered| && RightModel(env.model, ordered[after.calls[i].pos], after.calls[i].model)
        {
          assert i < n ==> after.calls[i] == run.calls[i];
        }
        if Attempts(env, Entered(run, e), e, pos, 0).1.Spent? {
          WalkAsksRight(env, Behind(env, run, e, pos), ordered, pos + 1);
        }
      }
    }
  }

  /** Every call of an execute is to a provider of the ordered chain and for the right model: a
      targeted channel for the model named with it, any other provider for its default when the
      request names no model or a channel, and else for the requested model. */
  lemma ExecuteAsksRight(env: Env, now: nat, breakers: map<string, Breaker>, chain: seq<Entry>)
    ensures AskRight(env, Execute(env, now, breakers, chain).0.calls, 0, Ordered(chain, env.model), 0)
  {
    WalkAsksRight(env, Begin(now, breakers), Ordered(chain, env.model), 0);
  }

  // ---- time ----

  /** The time the first n calls took. */
  function Took(env: Env, n: nat): nat {
    if n == 0 then 0 else Took(env, n - 1) + env.call(n - 1).took
  }

  /** The waits after failed calls: 200 ms, doubled with every retry, and none after the last. */
  function Waits(env: Env, calls: seq<Call>): nat {
    if calls == [] then 0
    else
      var n := |calls| - 1;
      Waits(env, calls[..n])
      + if env.call(n).outcome.Failure? && calls[n].attempt < env.maxRetries then 200 * Power(calls[n].attempt) else 0
  }

  ghost predicate Timed(env: Env, start: nat, run: Run) {
    run.slept == Waits(env, run.calls) && run.now == start + Took(env, |run.calls|) + run.slept
  }

  lemma CallIsTimed(env: Env, start: nat, run: Run, pos: nat, model: string, attempt: nat)
    requires Timed(env, start, run)
    ensures var called := Called(env, run, pos, model, attempt);
            match env.call(|run.calls|).outcome
            case Failure(error) => Timed(env, start, NotedFailure(env, called, error, attempt))
            case _ => Timed(env, start, called)
  {
    var calls := run.calls + [Call(pos, attempt, model)];
    assert calls[..|calls| - 1] == run.calls;
  }

  lemma {:induction false} AttemptsAreTimed(env: Env, start: nat, run: Run, e: Entry, pos: nat, attempt: nat)
    requires attempt <= env.maxRetries + 1 && Timed(env, start, run)
    ensures Timed(env, start, Attempts(env, run, e, pos, attempt).0)
    decreases env.maxRetries + 1 - attempt
  {
    hide EffectiveModel, Waits, Took;
    if attempt <= env.maxRetries {
      var a, model := env.call(|run.calls|), EffectiveModel(e, env.model);
      CallIsTimed(env, start, run, pos, model, attempt);
      if !a.cancelledBefore && a.outcome.Failure? {
        AttemptsAreTimed(env, start, NotedFailure(env, Called(env, run, pos, model, attempt), a.outcome.error, attempt), e, pos, attempt + 1);
      }
    }
  }

  lemma {:induction false} WalkIsTimed(env: Env, start: nat, run: Run, ordered: seq<Entry>, pos: nat)
    requires pos <= |ordered| && Timed(env, start, run)
    ensures Timed(env, start, Walk(env, run, ordered, pos).0)
    decreases |ordered| - pos
  {
    hide Attempts, Waits, Took;
    if pos < |ordered| {
      var e := ordered[pos];
      if Skips(run, e) {
        WalkIsTimed(env, start, run, ordered, pos + 1);
      } else {
        AttemptsAreTimed(env, start, Entered(run, e), e, pos, 0);
        if Attempts(env, Entered(run, e), e, pos, 0).1.Spent? {
          WalkIsTimed(env, start, Behind(env, run, e, pos), ordered, pos + 1);
        }
      }
    }
  }

  /** An execute takes exactly the time its calls take and the waits between them. */
  lemma ExecuteIsTimed(env: Env, now: nat, breakers: map<string, Breaker>, chain: seq<Entry>)
    ensures Timed(env, now, Execute(env, now, breakers, chain).0)
  {
    WalkIsTimed(env, now, Begin(now, breakers), Ordered(chain, env.model), 0);
  }

  // ---- success ----

  lemma {:induction false} WalkWonClears(env: Env, run: Run, ordered: seq<Entry>, pos: nat)
    requires pos <= |ordered| && UpTo(env, run, pos, 0) && Walk(env, run, ordered, pos).1.Won?
    ensures var after := Walk(env, run, ordered, pos).0;
            after.calls != [] && var last := after.calls[|after.calls| - 1];
            last.pos < |ordered| && ordered[last.pos].name in after.breakers
            && after.breakers[ordered[last.pos].name] == Breaker(0, None)
    decreases |ordered| - pos
  {
    hide Attempts;
    WalkEnds(env, run, ordered, pos);
    var e := ordered[pos];
    if Skips(run, e) {
      WalkWonClears(env, run, ordered, pos + 1);
    } else {
      LeavesBehind(env, run, e, pos);
      AttemptsKeepBreakers(env, Entered(run, e), e, pos, 0);
      if Attempts(env, Entered(run, e), e, pos, 0).1.Spent? {
        WalkWonClears(env, Behind(env, run, e, pos), ordered, pos + 1);
      }
    }
  }

  /** The provider that answered has no failures left against it, and its breaker is closed. */
  lemma SuccessClosesTheBreaker(env: Env, now: nat, breakers: map<string, Breaker>, chain: seq<Entry>)
    requires Execute(env, now, breakers, chain).1.Won?
    ensures var run, ordered := Execute(env, now, breakers, chain).0, Ordered(chain, env.model);
            run.calls != [] && var last := run.calls[|run.calls| - 1];
            last.pos < |ordered| && ordered[last.pos].name in run.breakers
            && run.breakers[ordered[last.pos].name] == Breaker(0, None)
  {
    WalkWonClears(env, Begin(now, breakers), Ordered(chain, env.model), 0);
  }
}
