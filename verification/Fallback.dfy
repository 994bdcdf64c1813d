/**
 What one `execute` of the provider service does, on values: the order the providers are tried
 in, the retries with their backoff, the breakers, and the stream the consumer sees. Providers
 are a black box: `Env.call` gives what the k-th call of an execute streams, how it ends and how
 long it takes, so a statement for every `Env` covers every behaviour of theirs. Times are in
 milliseconds.
 */
module Fallback {
  import opened Wrappers
  import opened Text

  datatype Event =
    | Piece(text: string)
    | Reasoning(text: string)
    | ToolCall(index: nat, id: Option<string>, name: Option<string>, arguments: string)
    | Done(reason: string)
    | Reset

  datatype Error = Error(code: string, message: string)

  datatype Response = Response(body: string, degraded: bool)

  datatype Outcome = Answer(response: Response) | Failure(error: Error) | Interrupted

  /** A call: was the run cancelled just before it, what it streamed, how it ended. */
  datatype Attempt = Attempt(cancelledBefore: bool, events: seq<Event>, outcome: Outcome, took: nat)

  datatype Entry = Entry(name: string, ready: bool, defaultModel: Option<string>)

  datatype Breaker = Breaker(failures: nat, openUntil: Option<nat>)

  datatype Env = Env(call: nat -> Attempt, maxRetries: nat, threshold: nat, model: string)

  /** The attempt-th call to the pos-th provider tried, with the model it was asked for. */
  datatype Call = Call(pos: nat, attempt: nat, model: string)

  datatype Run = Run(now: nat, breakers: map<string, Breaker>, stream: seq<Event>, emitted: bool,
                     calls: seq<Call>, lastError: Option<Error>, slept: nat)

  /** How a stretch of an execute ends: with an answer, with a cancellation, or with every
      attempt used up. */
  datatype End = Won(response: Response) | Stopped(message: string) | Spent

  // ---- the order of the chain ----

  /** `channel:{id}:{model}` names a channel provider and its model. */
  function ParseTarget(model: string): Option<(string, string)> {
    if !StartsWith(model, "channel:") then None
    else
      var rest := model[8..];
      match FindFrom(rest, ":", 0)
      case None => None
      case Some(colon) =>
        if colon == 0 || colon + 1 >= |rest| then None
        else Some(("channel:" + rest[..colon], rest[colon + 1..]))
  }

  function EffectiveModel(e: Entry, requested: string): string {
    var target := ParseTarget(requested);
    if target.Some? && e.name == target.value.0 then target.value.1
    else if (requested == "" || requested == "default" || requested == "mock" || StartsWith(requested, "channel:"))
            && e.defaultModel.Some? then e.defaultModel.value
    else requested
  }

  predicate Named(entries: seq<Entry>, name: string) {
    exists i :: 0 <= i < |entries| && entries[i].name == name
  }

  function FirstNamed(chain: seq<Entry>, name: string): (r: seq<Entry>) {
    if chain == [] then [] else if chain[0].name == name then [chain[0]] else FirstNamed(chain[1..], name)
  }

  /** Appends the entries whose name is not there yet. */
  function AddNew(ordered: seq<Entry>, chain: seq<Entry>): seq<Entry>
    decreases |chain|
  {
    if chain == [] then ordered
    else AddNew(if Named(ordered, chain[0].name) then ordered else ordered + [chain[0]], chain[1..])
  }

  function Ordered(chain: seq<Entry>, model: string): seq<Entry> {
    var target := ParseTarget(model);
    AddNew(if target.None? then [] else FirstNamed(chain, target.value.0), chain)
  }

  ghost predicate NamesDiffer(entries: seq<Entry>) {
    forall i, j :: 0 <= i < j < |entries| ==> entries[i].name != entries[j].name
  }

  // ---- breakers ----

  predicate Open(breakers: map<string, Breaker>, name: string, now: nat) {
    name in breakers && breakers[name].openUntil.Some? && now < breakers[name].openUntil.value
  }

  /** An expired breaker is reset when it is looked at. */
  function Looked(breakers: map<string, Breaker>, name: string, now: nat): map<string, Breaker> {
    if name in breakers && breakers[name].openUntil.Some? && breakers[name].openUntil.value <= now
    then breakers[name := Breaker(0, None)] else breakers
  }

  function Failures(breakers: map<string, Breaker>, name: string): nat {
    if name in breakers then breakers[name].failures else 0
  }

  function Failed(breakers: map<string, Breaker>, name: string, now: nat, threshold: nat): map<string, Breaker> {
    var n := Failures(breakers, name) + 1;
    breakers[name := Breaker(n, if n >= threshold then Some(now + 30000)
                                else if name in breakers then breakers[name].openUntil else None)]
  }

  function Succeeded(breakers: map<string, Breaker>, name: string): map<string, Breaker> {
    breakers[name := Breaker(0, None)]
  }

  // ---- one execute ----

  function Power(n: nat): nat {
    if n == 0 then 1 else 2 * Power(n - 1)
  }

  predicate Streams(events: seq<Event>) {
    exists i :: 0 <= i < |events| && !events[i].Done?
  }

  /** The next call is made: a `Reset` first if something was streamed before. */
  function Called(env: Env, run: Run, pos: nat, model: string, attempt: nat): Run {
    var a := env.call(|run.calls|);
    run.(now := run.now + a.took,
         stream := run.stream + (if run.emitted then [Reset] else []) + a.events,
         emitted := Streams(a.events),
         calls := run.calls + [Call(pos, attempt, model)])
  }

  function NotedFailure(env: Env, run: Run, error: Error, attempt: nat): Run {
    var pause := if attempt < env.maxRetries then 200 * Power(attempt) else 0;
    run.(lastError := Some(error), now := run.now + pause, slept := run.slept + pause)
  }

  /** The attempts at one provider from `attempt` on. */
  function Attempts(env: Env, run: Run, e: Entry, pos: nat, attempt: nat): (Run, End)
    requires attempt <= env.maxRetries + 1
    decreases env.maxRetries + 1 - attempt
  {
    if attempt > env.maxRetries then (run, Spent)
    else
      var a := env.call(|run.calls|);
      if a.cancelledBefore then (run, Stopped("run cancelled"))
      else
        var next := Called(env, run, pos, EffectiveModel(e, env.model), attempt);
        match a.outcome
        case Interrupted => (next, Stopped("run cancelled during provider call"))
        case Failure(error) => Attempts(env, NotedFailure(env, next, error, attempt), e, pos, attempt + 1)
        case Answer(response) =>
          var flagged := e.name == "mock" && next.lastError.Some?;
          (next.(breakers := Succeeded(next.breakers, e.name)),
           Won(if flagged then response.(degraded := true) else response))
  }

  /** The providers from position `pos` on. */
  function Walk(env: Env, run: Run, ordered: seq<Entry>, pos: nat): (Run, End)
    requires pos <= |ordered|
    decreases |ordered| - pos
  {
    if pos == |ordered| then (run, Spent)
    else if Skips(run, ordered[pos]) then Walk(env, run, ordered, pos + 1)
    else
      var (after, end) := Attempts(env, Entered(run, ordered[pos]), ordered[pos], pos, 0);
      if end != Spent then (after, end)
      else Walk(env, Exhausted(env, after, ordered[pos]), ordered, pos + 1)
  }

  predicate Skips(run: Run, e: Entry) {
    !e.ready || Open(run.breakers, e.name, run.now)
  }

  function Entered(run: Run, e: Entry): Run {
    run.(breakers := Looked(run.breakers, e.name, run.now))
  }

  function Exhausted(env: Env, run: Run, e: Entry): Run {
    run.(breakers := Failed(run.breakers, e.name, run.now, env.threshold))
  }

  function Begin(now: nat, breakers: map<string, Breaker>): Run {
    Run(now, breakers, [], false, [], None, 0)
  }

  function Execute(env: Env, now: nat, breakers: map<string, Breaker>, chain: seq<Entry>): (Run, End) {
    Walk(env, Begin(now, breakers), Ordered(chain, env.model), 0)
  }

  function Report(run: Run, end: End): Result<Response, Error> {
    match end
    case Won(response) => Ok(response)
    case Stopped(message) => Err(Error("RUN_CANCELLED", message))
    case Spent =>
      Err(if run.lastError.Some? then run.lastError.value
          else Error("PROVIDER_UNAVAILABLE", "no provider could service the request"))
  }
}
