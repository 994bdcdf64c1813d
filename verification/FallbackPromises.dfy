/**
 The promises of the provider fallback chain: how the chain is ordered, that every eligible
 provider is tried, how much is called and waited for, how breakers move, and when the mock's
 answer is flagged.
 */
module FallbackPromises {
  import opened Wrappers
  import opened Text
  import opened Fallback
  import opened FallbackStream

  // ---- targets and models ----

  /** A model id targets a channel exactly when it is `channel:`, a non-empty id without a colon,
      a colon and a non-empty model name. */
  lemma TargetExactly(model: string, id: string, name: string)
    requires ':' !in id
    ensures ParseTarget(model) == Some(("channel:" + id, name)) <==> id != "" && name != "" && model == "channel:" + id + ":" + name
  {
    var prefix := "channel:";
    if StartsWith(model, prefix) {
      var rest := model[8..];
      assert model == prefix + rest;
      if rest == id + ":" + name {
        ColonComesAt(id, name);
        assert (id + ":" + name)[..|id|] == id && (id + ":" + name)[|id| + 1..] == name;
      }
      if model == prefix + id + ":" + name {
        assert model == prefix + (id + ":" + name);
        assert rest == (prefix + (id + ":" + name))[8..] == id + ":" + name;
      }
      if ParseTarget(model) == Some((prefix + id, name)) {
        var colon := FindFrom(rest, ":", 0).value;
        assert (prefix + rest[..colon])[8..] == rest[..colon] && (prefix + id)[8..] == id;
        assert rest[colon..colon + 1] == ":";
        assert rest == rest[..colon] + rest[colon..colon + 1] + rest[colon + 1..];
        assert prefix + (id + ":" + name) == prefix + id + ":" + name;
      }
    } else {
      assert (prefix + (id + ":" + name)) == prefix + id + ":" + name;
      assert prefix <= prefix + (id + ":" + name);
    }
  }

  lemma ColonComesAt(id: string, name: string)
    requires ':' !in id
    ensures FindFrom(id + ":" + name, ":", 0) == Some(|id|)
  {
    var s := id + ":" + name;
    assert s[|id|] == ':';
    assert OccursAt(s, ":", |id|);
    assert forall k :: 0 <= k < |id| ==> s[k] == id[k] && id[k] in id;
    assert forall k: nat :: OccursAt(s, ":", k) ==> s[k] == ':';
  }

  // ---- the order ----

  /** The position of the first entry with a name. */
  function FirstIndex(chain: seq<Entry>, name: string): (i: nat)
    ensures i <= |chain|
  {
    if chain == [] || chain[0].name == name then 0 else 1 + FirstIndex(chain[1..], name)
  }

  lemma {:induction false} FirstIndexIs(chain: seq<Entry>, name: string)
    ensures var i := FirstIndex(chain, name);
            (i < |chain| <==> Named(chain, name)) && (i < |chain| ==> chain[i].name == name)
            && forall j :: 0 <= j < i ==> chain[j].name != name
  {
    if chain != [] && chain[0].name != name {
      FirstIndexIs(chain[1..], name);
      assert forall j :: 0 < j < |chain| ==> chain[j] == chain[1..][j - 1];
    }
  }

  lemma {:induction false} FirstNamedIs(chain: seq<Entry>, name: string)
    ensures var i := FirstIndex(chain, name);
            FirstNamed(chain, name) == if i < |chain| then [chain[i]] else []
  {
    if chain != [] && chain[0].name != name {
      FirstNamedIs(chain[1..], name);
      var i := FirstIndex(chain[1..], name);
      assert i < |chain| - 1 ==> chain[1..][i] == chain[i + 1];
    }
  }

  /** `ordered` holds the first entries of their names, and those after the first `fixed` keep
      the chain's order and are all to be found before position k. */
  ghost predicate InOrder(ordered: seq<Entry>, chain: seq<Entry>, fixed: nat, k: nat) {
    NamesDiffer(ordered) && fixed <= |ordered|
    && (forall i :: 0 <= i < |ordered| ==>
          FirstIndex(chain, ordered[i].name) < |chain| && ordered[i] == chain[FirstIndex(chain, ordered[i].name)])
    && (forall i :: fixed <= i < |ordered| ==> FirstIndex(chain, ordered[i].name) < k)
    && (forall i, j :: fixed <= i < j < |ordered| ==> FirstIndex(chain, ordered[i].name) < FirstIndex(chain, ordered[j].name))
  }

  /** The list after the k-th entry of the chain was looked at. */
  function Added(ordered: seq<Entry>, e: Entry): (next: seq<Entry>)
    ensures ordered <= next
  {
    if Named(ordered, e.name) then ordered else ordered + [e]
  }

  lemma AddedNames(ordered: seq<Entry>, e: Entry)
    ensures forall name :: Named(Added(ordered, e), name) <==> Named(ordered, name) || name == e.name
  {
    var next := Added(ordered, e);
    forall name | Named(ordered, name) || name == e.name ensures Named(next, name) {
      if Named(ordered, name) {
        var i :| 0 <= i < |ordered| && ordered[i].name == name;
        assert next[i].name == name;
      } else {
        assert next[|ordered|].name == name;
      }
    }
  }

  /** Adding the k-th entry of the chain if its name is new. */
  lemma AddKeepsOrder(ordered: seq<Entry>, chain: seq<Entry>, fixed: nat, k: nat)
    requires k < |chain| && InOrder(ordered, chain, fixed, k) && forall j :: 0 <= j < k ==> Named(ordered, chain[j].name)
    ensures InOrder(Added(ordered, chain[k]), chain, fixed, k + 1)
  {
    if !Named(ordered, chain[k].name) {
      FirstIndexIs(chain, chain[k].name);
      assert FirstIndex(chain, chain[k].name) == k;
      assert forall i :: 0 <= i < |ordered| ==> ordered[i].name != chain[k].name;
    }
  }

  lemma {:induction false} AddNewOrders(ordered: seq<Entry>, chain: seq<Entry>, fixed: nat, k: nat)
    requires k <= |chain| && InOrder(ordered, chain, fixed, k) && forall j :: 0 <= j < k ==> Named(ordered, chain[j].name)
    ensures var all := AddNew(ordered, chain[k..]);
            InOrder(all, chain, fixed, |chain|) && ordered <= all && forall j :: 0 <= j < |chain| ==> Named(all, chain[j].name)
    decreases |chain| - k
  {
    if k < |chain| {
      AddKeepsOrder(ordered, chain, fixed, k);
      AddedNames(ordered, chain[k]);
      assert chain[k..][1..] == chain[k + 1..] && chain[k..][0] == chain[k];
      AddNewOrders(Added(ordered, chain[k]), chain, fixed, k + 1);
    }
  }

  /** Every name of the chain is tried once, through its first entry: the targeted one first if
      it exists, the others in the chain's order. */
  lemma OrderIsTargetFirst(chain: seq<Entry>, model: string)
    ensures var ordered, target := Ordered(chain, model), ParseTarget(model);
            var hit := target.Some? && Named(chain, target.value.0);
            NamesDiffer(ordered) && InOrder(ordered, chain, if hit then 1 else 0, |chain|)
            && (hit ==> ordered[0].name == target.value.0)
            && (forall name :: Named(ordered, name) <==> Named(chain, name))
  {
    var ordered, target := Ordered(chain, model), ParseTarget(model);
    var hit := target.Some? && Named(chain, target.value.0);
    var first := if target.None? then [] else FirstNamed(chain, target.value.0);
    if target.Some? {
      FirstNamedIs(chain, target.value.0);
      FirstIndexIs(chain, target.value.0);
    }
    assert chain[0..] == chain;
    AddNewOrders(first, chain, if hit then 1 else 0, 0);
    forall name | Named(chain, name) ensures Named(ordered, name) {
      var j :| 0 <= j < |chain| && chain[j].name == name;
    }
    forall name | Named(ordered, name) ensures Named(chain, name) {
      var i :| 0 <= i < |ordered| && ordered[i].name == name;
      FirstIndexIs(chain, ordered[i].name);
    }
  }

  // ---- main results about one execute ----

  /** Whatever the providers do, what a consumer is left with is exactly what the last call
      streamed; for a success that is the winning attempt. */
  lemma StreamIsTheLastCalls(env: Env, now: nat, breakers: map<string, Breaker>, chain: seq<Entry>)
    ensures var (run, end) := Execute(env, now, breakers, chain);
            Visible(run.stream) == if run.calls == [] then [] else Visible(env.call(|run.calls| - 1).events)
  {
    WalkShows(env, Begin(now, breakers), Ordered(chain, env.model), 0);
  }

  /** All providers before the stop that were eligible at the start got every attempt and failed
      them all; barred ones got none; the calls go forward; and the report is the last call's. */
  lemma EveryEligibleIsTried(env: Env, now: nat, breakers: map<string, Breaker>, chain: seq<Entry>)
    ensures var ordered, (run, end) := Ordered(chain, env.model), Execute(env, now, breakers, chain);
            var p, n := StopsAt(env, Begin(now, breakers), ordered, 0), |run.calls|;
            Forward(run.calls) && now <= run.now
            && (end.Spent? <==> p == |ordered|)
            && (end.Spent? ==> AllFailed(env, n) && if n == 0 then Report(run, end).error.code == "PROVIDER_UNAVAILABLE"
                                                   else env.call(n - 1).outcome == Failure(Report(run, end).error))
            && (!end.Spent? ==> EndedAt(env, run, end, ordered[p], p))
            && (forall i: nat :: i < p && Eligible(ordered[i], breakers, now) ==>
                  Tried(env, run.calls, ordered[i], i, env.maxRetries + 1))
            && (forall i: nat :: i < |ordered| && Barred(ordered[i], breakers, run.now) ==> NoCallsTo(run.calls, i))
  {
    var ordered, start := Ordered(chain, env.model), Begin(now, breakers);
    OrderIsTargetFirst(chain, env.model);
    WalkEnds(env, start, ordered, 0);
    var p, after := StopsAt(env, start, ordered, 0), Walk(env, start, ordered, 0).0;
    forall i: nat | i < p && Eligible(ordered[i], breakers, now)
      ensures Tried(env, after.calls, ordered[i], i, env.maxRetries + 1)
    {
      WalkTries(env, start, ordered, 0, i);
    }
    forall i: nat | i < |ordered| && Barred(ordered[i], breakers, after.now) ensures NoCallsTo(after.calls, i) {
      WalkBars(env, start, ordered, 0, i);
    }
  }

  /** What is reported follows from the last call: its answer, its interruption or its error; without
      a call, that no provider could be asked; and a cancellation seen before the next call. */
  lemma ReportFollowsLastCall(env: Env, now: nat, breakers: map<string, Breaker>, chain: seq<Entry>)
    ensures var (run, end) := Execute(env, now, breakers, chain);
            var n, r := |run.calls|, Report(run, end);
            if n > 0 && env.call(n - 1).outcome.Answer? then
              r.Ok? && r.value.body == env.call(n - 1).outcome.response.body
            else if n > 0 && env.call(n - 1).outcome.Interrupted? then
              r == Err(Error("RUN_CANCELLED", "run cancelled during provider call"))
            else
              (env.call(n).cancelledBefore && r == Err(Error("RUN_CANCELLED", "run cancelled")))
              || r == Err(if n > 0 then env.call(n - 1).outcome.error
                          else Error("PROVIDER_UNAVAILABLE", "no provider could service the request"))
  {
    hide Walk, Forward, Tried, Eligible, Barred;
    EveryEligibleIsTried(env, now, breakers, chain);
    WalkEnds(env, Begin(now, breakers), Ordered(chain, env.model), 0);
    var n := |Execute(env, now, breakers, chain).0.calls|;
    if n > 0 {
      assert AllFailed(env, n) ==> FailedCall(env, n - 1);
    }
  }

  /** A success is flagged exactly when the mock answers and an earlier call of this execute
      failed, whichever provider that call was for. */
  lemma FlaggedExactly(env: Env, now: nat, breakers: map<string, Breaker>, chain: seq<Entry>)
    requires Execute(env, now, breakers, chain).1.Won?
    ensures var (run, end) := Execute(env, now, breakers, chain);
            var n, ordered := |run.calls|, Ordered(chain, env.model);
            n > 0 && run.calls[n - 1].pos < |ordered| && env.call(n - 1).outcome.Answer?
            && (end.response.degraded <==>
                  env.call(n - 1).outcome.response.degraded || (ordered[run.calls[n - 1].pos].name == "mock" && n > 1))
  {
    EveryEligibleIsTried(env, now, breakers, chain);
  }

  /** So the flag is silent when every real provider is held back by an open breaker, although
      the answer is the mock's. */
  lemma OpenBreakersHideTheFallback(env: Env, now: nat, breakers: map<string, Breaker>, chain: seq<Entry>)
    requires var ordered := Ordered(chain, env.model);
             ordered != [] && ordered[|ordered| - 1].name == "mock" && ordered[|ordered| - 1].ready
             && Eligible(ordered[|ordered| - 1], breakers, now)
             && forall i :: 0 <= i < |ordered| - 1 ==> Barred(ordered[i], breakers, now)
    requires !env.call(0).cancelledBefore && env.call(0).outcome.Answer? && !env.call(0).outcome.response.degraded
    ensures var (run, end) := Execute(env, now, breakers, chain);
            end.Won? && !end.response.degraded && |run.calls| == 1
  {
    SkipsToTheEnd(env, Begin(now, breakers), Ordered(chain, env.model), 0);
  }

  lemma {:induction false} SkipsToTheEnd(env: Env, run: Run, ordered: seq<Entry>, pos: nat)
    requires pos < |ordered| && forall i :: pos <= i < |ordered| - 1 ==> Barred(ordered[i], run.breakers, run.now)
    ensures Walk(env, run, ordered, pos) == Walk(env, run, ordered, |ordered| - 1)
    decreases |ordered| - pos
  {
    if pos < |ordered| - 1 {
      SkipsToTheEnd(env, run, ordered, pos + 1);
    }
  }

  // ---- bounds ----

  lemma {:induction false} AttemptsCost(env: Env, run: Run, e: Entry, pos: nat, attempt: nat)
    requires attempt <= env.maxRetries
    ensures var (after, end) := Attempts(env, run, e, pos, attempt);
            |after.calls| <= |run.calls| + env.maxRetries + 1 - attempt
            && after.slept <= run.slept + 200 * (Power(env.maxRetries) - Power(attempt))
    decreases env.maxRetries + 1 - attempt
  {
    var a := env.call(|run.calls|);
    PowerGrows(attempt, env.maxRetries);
    if !a.cancelledBefore && a.outcome.Failure? {
      var next := NotedFailure(env, Called(env, run, pos, EffectiveModel(e, env.model), attempt), a.outcome.error, attempt);
      if attempt < env.maxRetries {
        AttemptsCost(env, next, e, pos, attempt + 1);
        assert Power(attempt + 1) == 2 * Power(attempt);
      } else {
        assert Attempts(env, run, e, pos, attempt) == (next, Spent);
      }
    }
  }

  lemma {:induction false} PowerGrows(a: nat, b: nat)
    requires a <= b
    ensures Power(a) <= Power(b)
    decreases b
  {
    if a < b {
      PowerGrows(a, b - 1);
    }
  }

  lemma {:induction false} WalkCost(env: Env, run: Run, ordered: seq<Entry>, pos: nat)
    requires pos <= |ordered|
    ensures var (after, end) := Walk(env, run, ordered, pos);
            |after.calls| <= |run.calls| + (|ordered| - pos) * (env.maxRetries + 1)
            && after.slept <= run.slept + (|ordered| - pos) * (200 * (Power(env.maxRetries) - 1))
    decreases |ordered| - pos
  {
    if pos < |ordered| {
      var k, calls, pause := |ordered| - pos, env.maxRetries + 1, 200 * (Power(env.maxRetries) - 1);
      PowerGrows(0, env.maxRetries);
      OneMoreTime(k, calls);
      OneMoreTime(k, pause);
      if Skips(run, ordered[pos]) {
        WalkCost(env, run, ordered, pos + 1);
      } else {
        AttemptsCost(env, Entered(run, ordered[pos]), ordered[pos], pos, 0);
        if Attempts(env, Entered(run, ordered[pos]), ordered[pos], pos, 0).1.Spent? {
          WalkCost(env, Behind(env, run, ordered[pos], pos), ordered, pos + 1);
        }
      }
    }
  }

  lemma OneMoreTime(k: int, x: nat)
    requires k > 0
    ensures k * x == (k - 1) * x + x && (k - 1) * x >= 0
  {
  }

  lemma {:induction false} AddNewIsShort(ordered: seq<Entry>, chain: seq<Entry>)
    ensures |AddNew(ordered, chain)| <= |ordered| + |chain|
    ensures (exists j :: 0 <= j < |chain| && Named(ordered, chain[j].name)) ==> |AddNew(ordered, chain)| < |ordered| + |chain|
    decreases |chain|
  {
    if chain != [] {
      AddNewIsShort(Added(ordered, chain[0]), chain[1..]);
      AddedNames(ordered, chain[0]);
      assert forall j :: 0 < j < |chain| ==> chain[1..][j - 1] == chain[j];
    }
  }

  lemma OrderIsShort(chain: seq<Entry>, model: string)
    ensures |Ordered(chain, model)| <= |chain|
  {
    var target := ParseTarget(model);
    if target.Some? {
      FirstIndexIs(chain, target.value.0);
    }
    AddNewIsShort(if target.None? then [] else FirstNamed(chain, target.value.0), chain);
    if target.Some? {
      FirstNamedIs(chain, target.value.0);
      var i := FirstIndex(chain, target.value.0);
      if i < |chain| {
        assert [chain[i]][0].name == chain[i].name;
        assert Named([chain[i]], chain[i].name);
      }
    }
  }

  lemma TimesGrows(a: nat, b: nat, x: nat)
    requires a <= b
    ensures a * x <= b * x
  {
  }

  /** At most retries + 1 calls and 200 * (2^retries - 1) ms of backoff for each provider. */
  lemma ExecuteCost(env: Env, now: nat, breakers: map<string, Breaker>, chain: seq<Entry>)
    ensures var run := Execute(env, now, breakers, chain).0;
            |run.calls| <= |chain| * (env.maxRetries + 1) && run.slept <= |chain| * (200 * (Power(env.maxRetries) - 1))
  {
    var ordered := Ordered(chain, env.model);
    WalkCost(env, Begin(now, breakers), ordered, 0);
    OrderIsShort(chain, env.model);
    PowerGrows(0, env.maxRetries);
    TimesGrows(|ordered|, |chain|, env.maxRetries + 1);
    TimesGrows(|ordered|, |chain|, 200 * (Power(env.maxRetries) - 1));
  }

  // ---- breakers ----

  /** A breaker is open exactly when its failures reached the threshold, for thirty seconds. */
  ghost predicate Sane(breakers: map<string, Breaker>, threshold: nat, now: nat) {
    forall name :: name in breakers ==>
      (breakers[name].openUntil.Some? <==> breakers[name].failures >= threshold)
      && (breakers[name].openUntil.Some? ==> breakers[name].openUntil.value <= now + 30000)
  }

  lemma {:induction false} WalkKeepsSane(env: Env, run: Run, ordered: seq<Entry>, pos: nat)
    requires pos <= |ordered| && env.threshold > 0 && Sane(run.breakers, env.threshold, run.now)
    ensures var after := Walk(env, run, ordered, pos).0; Sane(after.breakers, env.threshold, after.now)
    decreases |ordered| - pos
  {
    if pos < |ordered| {
      var e := ordered[pos];
      if Skips(run, e) {
        WalkKeepsSane(env, run, ordered, pos + 1);
      } else {
        AttemptsKeepBreakers(env, Entered(run, e), e, pos, 0);
        if Attempts(env, Entered(run, e), e, pos, 0).1.Spent? {
          WalkKeepsSane(env, Behind(env, run, e, pos), ordered, pos + 1);
        }
      }
    }
  }

  /** The failures that count against a provider when it is next looked at. */
  function Strikes(breakers: map<string, Breaker>, name: string): nat {
    if name !in breakers || breakers[name].openUntil.Some? then 0 else breakers[name].failures
  }

  function Struck(strikes: nat, threshold: nat, at: nat): Breaker {
    Breaker(strikes, if strikes >= threshold then Some(at + 30000) else None)
  }

  /** A name that does not come in the rest of the walk keeps its breaker. */
  lemma {:induction false} WalkLeavesOthers(env: Env, run: Run, ordered: seq<Entry>, pos: nat, name: string)
    requires pos <= |ordered| && forall i :: pos <= i < |ordered| ==> ordered[i].name != name
    ensures var after := Walk(env, run, ordered, pos).0;
            after.now >= run.now && (name in after.breakers <==> name in run.breakers)
            && (name in run.breakers ==> after.breakers[name] == run.breakers[name])
    decreases |ordered| - pos
  {
    if pos < |ordered| {
      var e := ordered[pos];
      if Skips(run, e) {
        WalkLeavesOthers(env, run, ordered, pos + 1, name);
      } else {
        AttemptsKeepBreakers(env, Entered(run, e), e, pos, 0);
        if Attempts(env, Entered(run, e), e, pos, 0).1.Spent? {
          WalkLeavesOthers(env, Behind(env, run, e, pos), ordered, pos + 1, name);
        }
      }
    }
  }

  /** A provider left behind that was eligible from the start has one strike more, and its
      breaker is open exactly if that makes the threshold. */
  lemma {:induction false} WalkStrikes(env: Env, run: Run, ordered: seq<Entry>, pos: nat, i: nat) returns (at: nat)
    requires pos <= |ordered| && NamesDiffer(ordered) && pos <= i < StopsAt(env, run, ordered, pos)
    requires Eligible(ordered[i], run.breakers, run.now)
    ensures var after, name := Walk(env, run, ordered, pos).0, ordered[i].name;
            run.now <= at <= after.now && name in after.breakers
            && after.breakers[name] == Struck(Strikes(run.breakers, name) + 1, env.threshold, at)
    decreases |ordered| - pos
  {
    var e := ordered[pos];
    if Skips(run, e) {
      at := WalkStrikes(env, run, ordered, pos + 1, i);
    } else {
      AttemptsKeepBreakers(env, Entered(run, e), e, pos, 0);
      var next := Behind(env, run, e, pos);
      if i == pos {
        at := next.now;
        WalkLeavesOthers(env, next, ordered, pos + 1, e.name);
      } else {
        assert Strikes(next.breakers, ordered[i].name) == Strikes(run.breakers, ordered[i].name);
        at := WalkStrikes(env, next, ordered, pos + 1, i);
      }
    }
  }

  // ---- many executes ----

  /** Clock and breakers between two executes. */
  datatype Moment = Moment(now: nat, breakers: map<string, Breaker>)

  function After(m: Moment, pause: nat, env: Env, chain: seq<Entry>): Moment {
    var run := Execute(env, m.now + pause, m.breakers, chain).0;
    Moment(run.now, run.breakers)
  }

  /** Execute k runs in `envs[k]`, `pauses[k]` after the one before it. */
  ghost predicate History(moments: seq<Moment>, pauses: seq<nat>, envs: seq<Env>, chain: seq<Entry>) {
    |pauses| == |envs| && |moments| == |envs| + 1
    && forall k :: 0 <= k < |envs| ==> Follows(moments, pauses, envs, chain, k)
  }

  predicate Follows(moments: seq<Moment>, pauses: seq<nat>, envs: seq<Env>, chain: seq<Entry>, k: nat)
    requires |pauses| == |envs| && |moments| == |envs| + 1 && k < |envs|
  {
    moments[k + 1] == After(moments[k], pauses[k], envs[k], chain)
  }

  /** The k-th execute, with the usual threshold, left the provider behind. */
  ghost predicate Missed(moments: seq<Moment>, pauses: seq<nat>, envs: seq<Env>, chain: seq<Entry>, name: string,
                         threshold: nat, k: nat)
    requires |pauses| == |envs| && |moments| == |envs| + 1 && k < |envs|
  {
    envs[k].threshold == threshold && LeftBehind(envs[k], moments[k].now + pauses[k], moments[k].breakers, chain, name)
  }

  /** In this execute the named provider used up its attempts or was passed over. */
  ghost predicate LeftBehind(env: Env, now: nat, breakers: map<string, Breaker>, chain: seq<Entry>, name: string) {
    var ordered := Ordered(chain, env.model);
    exists i: nat :: i < StopsAt(env, Begin(now, breakers), ordered, 0) && ordered[i].name == name && ordered[i].ready
  }

  /** The breaker of a provider with so many strikes. */
  predicate HasStrikes(breakers: map<string, Breaker>, name: string, strikes: nat, threshold: nat) {
    if strikes == 0 then name !in breakers
    else name in breakers && breakers[name].failures == strikes && (breakers[name].openUntil.Some? <==> strikes == threshold)
  }

  /** One execute that leaves the provider behind adds a strike. */
  lemma OneStrike(env: Env, now: nat, breakers: map<string, Breaker>, chain: seq<Entry>, name: string, strikes: nat)
    requires strikes < env.threshold && HasStrikes(breakers, name, strikes, env.threshold)
    requires LeftBehind(env, now, breakers, chain, name)
    ensures HasStrikes(Execute(env, now, breakers, chain).0.breakers, name, strikes + 1, env.threshold)
  {
    var ordered := Ordered(chain, env.model);
    OrderIsTargetFirst(chain, env.model);
    var i: nat :| i < StopsAt(env, Begin(now, breakers), ordered, 0) && ordered[i].name == name && ordered[i].ready;
    var at := WalkStrikes(env, Begin(now, breakers), ordered, 0, i);
  }

  /** A provider with no strikes that fails every execute gets its breaker opened by exactly the
      threshold-th of them, not earlier. */
  lemma {:induction false} ThresholdStrikesOpen(moments: seq<Moment>, pauses: seq<nat>, envs: seq<Env>, chain: seq<Entry>,
                                                name: string, threshold: nat, k: nat)
    requires History(moments, pauses, envs, chain) && name !in moments[0].breakers && k <= |envs| && k <= threshold
    requires forall j :: 0 <= j < k ==> Missed(moments, pauses, envs, chain, name, threshold, j)
    ensures HasStrikes(moments[k].breakers, name, k, threshold)
    decreases k
  {
    hide LeftBehind, Execute;
    if k > 0 {
      ThresholdStrikesOpen(moments, pauses, envs, chain, name, threshold, k - 1);
      assert Missed(moments, pauses, envs, chain, name, threshold, k - 1) && Follows(moments, pauses, envs, chain, k - 1);
      OneStrike(envs[k - 1], moments[k - 1].now + pauses[k - 1], moments[k - 1].breakers, chain, name, k - 1);
    }
  }
}
