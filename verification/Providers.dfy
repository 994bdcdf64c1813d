/**
 The provider execution service as an object: the chain, the breakers by provider name and the
 clock, with `execute` as its nested retry loop. What `execute` promises is proved about the
 function it computes, `Fallback.Execute`.
 */
module Providers {
  import opened Wrappers
  import F = Fallback

  class Service {
    var chain: seq<F.Entry>
    var breakers: map<string, F.Breaker>
    var now: nat
    const maxRetries: nat
    const threshold: nat

    constructor (chain: seq<F.Entry>, maxRetries: nat, threshold: nat, now: nat)
      ensures this.chain == chain && breakers == map[] && this.now == now
      ensures this.maxRetries == maxRetries && this.threshold == threshold
    {
      this.chain, breakers, this.now := chain, map[], now;
      this.maxRetries, this.threshold := maxRetries, threshold;
    }

    /** Looking at an expired breaker resets it. */
    method BreakerOpen(name: string) returns (open: bool)
      modifies this`breakers
      ensures open == F.Open(old(breakers), name, now)
      ensures breakers == F.Looked(old(breakers), name, now)
    {
      if name in breakers && breakers[name].openUntil.Some? {
        if now < breakers[name].openUntil.value {
          return true;
        }
        breakers := breakers[name := F.Breaker(0, None)];
      }
      open := false;
    }

    method RecordSuccess(name: string)
      modifies this`breakers
      ensures breakers == F.Succeeded(old(breakers), name)
    {
      breakers := breakers[name := F.Breaker(0, None)];
    }

    method RecordFailure(name: string)
      modifies this`breakers
      ensures breakers == F.Failed(old(breakers), name, now, threshold)
    {
      if name !in breakers {
        breakers := breakers[name := F.Breaker(0, None)];
      }
      var state := breakers[name].(failures := breakers[name].failures + 1);
      if state.failures >= threshold {
        state := state.(openUntil := Some(now + 30000));
      }
      breakers := breakers[name := state];
    }

    /** The targeted channel first, then the rest in chain order, each name once. */
    method Order(model: string) returns (ordered: seq<F.Entry>)
      ensures ordered == F.Ordered(chain, model)
    {
      var target := F.ParseTarget(model);
      ordered := [];
      if target.Some? {
        ordered := FindNamed(target.value.0);
      }
      var i := 0;
      while i < |chain|
        invariant i <= |chain|
        invariant F.AddNew(ordered, chain[i..]) == F.Ordered(chain, model)
      {
        assert chain[i..][0] == chain[i] && chain[i..][1..] == chain[i + 1..];
        if !F.Named(ordered, chain[i].name) {
          ordered := ordered + [chain[i]];
        }
        i := i + 1;
      }
    }

    method FindNamed(name: string) returns (found: seq<F.Entry>)
      ensures found == F.FirstNamed(chain, name)
    {
      var i := 0;
      while i < |chain|
        invariant i <= |chain|
        invariant F.FirstNamed(chain, name) == F.FirstNamed(chain[i..], name)
      {
        assert chain[i..][0] == chain[i] && chain[i..][1..] == chain[i + 1..];
        if chain[i].name == name {
          return [chain[i]];
        }
        i := i + 1;
      }
      found := [];
    }

    /** One call: a `Reset` goes first if the attempt before streamed anything. */
    method CallOnce(call: nat -> F.Attempt, model: string, e: F.Entry, pos: nat, attempt: nat, before: F.Run) returns (run: F.Run)
      requires before.now == now
      modifies this`now
      ensures run == F.Called(F.Env(call, maxRetries, threshold, model), before, pos, F.EffectiveModel(e, model), attempt)
      ensures run.now == now
    {
      run := before;
      if run.emitted {
        run := run.(stream := run.stream + [F.Reset]);
      }
      assert before.stream + [] == before.stream;
      var a := call(|run.calls|);
      now := now + a.took;
      run := run.(now := now, stream := run.stream + a.events, emitted := F.Streams(a.events),
                  calls := run.calls + [F.Call(pos, attempt, F.EffectiveModel(e, model))]);
    }

    /** The retry loop at one provider. `seen` is what the execute has done so far; its clock and
        breakers are the service's. */
    method TryEntry(call: nat -> F.Attempt, model: string, e: F.Entry, pos: nat, seen: F.Run)
        returns (end: F.End, run: F.Run)
      requires seen.now == now && seen.breakers == breakers
      modifies this`breakers, this`now
      ensures (run, end) == F.Attempts(F.Env(call, maxRetries, threshold, model), seen, e, pos, 0)
      ensures run.now == now && run.breakers == breakers
    {
      ghost var env := F.Env(call, maxRetries, threshold, model);
      run := seen;
      var attempt: nat := 0;
      while attempt <= maxRetries
        invariant attempt <= maxRetries + 1 && run.now == now && run.breakers == breakers == old(breakers)
        invariant F.Attempts(env, run, e, pos, attempt) == F.Attempts(env, seen, e, pos, 0)
      {
        var a := call(|run.calls|);
        if a.cancelledBefore {
          return F.Stopped("run cancelled"), run;
        }
        run := CallOnce(call, model, e, pos, attempt, run);
        match a.outcome
        case Interrupted =>
          return F.Stopped("run cancelled during provider call"), run;
        case Answer(response) =>
          RecordSuccess(e.name);
          var flag := e.name == "mock" && run.lastError.Some?;
          return F.Won(if flag then response.(degraded := true) else response), run.(breakers := breakers);
        case Failure(error) =>
          run := run.(lastError := Some(error));
          if attempt < maxRetries {
            now := now + 200 * F.Power(attempt);
            run := run.(now := now, slept := run.slept + 200 * F.Power(attempt));
          }
          attempt := attempt + 1;
      }
      end := F.Spent;
    }

    /** Runs one request against the chain: what it answers, what the sink was sent, which calls
        were made, and the breakers and clock afterwards. */
    method Execute(call: nat -> F.Attempt, model: string)
        returns (result: Result<F.Response, F.Error>, stream: seq<F.Event>, calls: seq<F.Call>)
      modifies this`breakers, this`now
      ensures var env := F.Env(call, maxRetries, threshold, model);
              var (run, end) := F.Execute(env, old(now), old(breakers), chain);
              result == F.Report(run, end) && stream == run.stream && calls == run.calls
              && breakers == run.breakers && now == run.now
    {
      ghost var env := F.Env(call, maxRetries, threshold, model);
      var ordered := Order(model);
      var run, pos: nat := F.Begin(now, breakers), 0;
      while pos < |ordered|
        invariant pos <= |ordered| && run.now == now && run.breakers == breakers
        invariant F.Walk(env, run, ordered, pos) == F.Execute(env, old(now), old(breakers), chain)
      {
        var e := ordered[pos];
        if e.ready {
          var open := BreakerOpen(e.name);
          if !open {
            var end;
            end, run := TryEntry(call, model, e, pos, run.(breakers := breakers));
            if end != F.Spent {
              return F.Report(run, end), run.stream, run.calls;
            }
            RecordFailure(e.name);
            run := run.(breakers := breakers);
          }
        }
        pos := pos + 1;
      }
      return F.Report(run, F.Spent), run.stream, run.calls;
    }
  }
}
