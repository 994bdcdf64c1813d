/**
 The todo engine's scheduling queries, and what a whole plan run makes of them: a closed form
 for the status every todo ends with, independent of batch sizes and of the order in which
 parallel tasks join.
 */
module TodoSchedule {
  import opened Text

  datatype Kind = Explore | Edit

  /** `Other` stands for any status text outside the lifecycle, which a patch may store. */
  datatype Status = Queued | Ready | Running | Completed | Failed | Cancelled | Blocked | Other

  datatype Todo = Todo(id: string, kind: Kind, deps: seq<string>, status: Status)

  predicate Terminal(s: Status) {
    s.Completed? || s.Failed? || s.Cancelled? || s.Blocked?
  }

  predicate Startable(s: Status) {
    s.Queued? || s.Ready?
  }

  /** A session's todos in creation order: ids are distinct, and a dependency on a todo of the
      session is on an earlier one, since ids are fresh when dependencies are chosen. */
  ghost predicate WellFormed(ts: seq<Todo>) {
    (forall i, j :: 0 <= i < j < |ts| ==> ts[i].id != ts[j].id)
    && (forall i, j :: 0 <= i < |ts| && 0 <= j < |ts| && ts[j].id in ts[i].deps ==> j < i)
  }

  // ---- the queries ----

  function CompletedIds(ts: seq<Todo>): set<string> {
    set i | 0 <= i < |ts| && ts[i].status.Completed? :: ts[i].id
  }

  function DeadIds(ts: seq<Todo>): set<string> {
    set i | 0 <= i < |ts| && Terminal(ts[i].status) && !ts[i].status.Completed? :: ts[i].id
  }

  predicate ExplorePending(ts: seq<Todo>) {
    exists i :: 0 <= i < |ts| && ts[i].kind.Explore? && !Terminal(ts[i].status)
  }

  predicate IsReady(ts: seq<Todo>, i: nat)
    requires i < |ts|
  {
    Startable(ts[i].status)
    && (forall d :: d in ts[i].deps ==> d in CompletedIds(ts))
    && !(ts[i].kind.Edit? && ExplorePending(ts))
  }

  predicate IsBlocked(ts: seq<Todo>, i: nat)
    requires i < |ts|
  {
    Startable(ts[i].status) && exists d :: d in ts[i].deps && d in DeadIds(ts)
  }

  /** Ready todos of one kind, by creation order. */
  function ReadyOf(ts: seq<Todo>, kind: Kind, from: nat): seq<nat>
    requires from <= |ts|
    decreases |ts| - from
  {
    if from == |ts| then []
    else (if IsReady(ts, from) && ts[from].kind == kind then [from] else []) + ReadyOf(ts, kind, from + 1)
  }

  /** `ready_todos`: sorted by kind, explore first, then by creation. */
  function ReadyTodos(ts: seq<Todo>): seq<nat> {
    ReadyOf(ts, Explore, 0) + ReadyOf(ts, Edit, 0)
  }

  function BlockedFrom(ts: seq<Todo>, from: nat): seq<nat>
    requires from <= |ts|
    decreases |ts| - from
  {
    if from == |ts| then [] else (if IsBlocked(ts, from) then [from] else []) + BlockedFrom(ts, from + 1)
  }

  function BlockedTodos(ts: seq<Todo>): seq<nat> {
    BlockedFrom(ts, 0)
  }

  lemma {:induction false} ReadyOfLists(ts: seq<Todo>, kind: Kind, from: nat)
    requires from <= |ts|
    ensures var r := ReadyOf(ts, kind, from);
            (forall k: nat :: k in r <==> from <= k < |ts| && IsReady(ts, k) && ts[k].kind == kind)
            && (r != [] ==> r[0] < |ts| && IsReady(ts, r[0]) && ts[r[0]].kind == kind)
    decreases |ts| - from
  {
    if from < |ts| {
      ReadyOfLists(ts, kind, from + 1);
    }
  }

  ghost predicate Ascending(s: seq<nat>, from: nat) {
    (forall a :: 0 <= a < |s| ==> from <= s[a]) && (forall a, b :: 0 <= a < b < |s| ==> s[a] < s[b])
  }

  lemma {:induction false} ReadyOfAscends(ts: seq<Todo>, kind: Kind, from: nat)
    requires from <= |ts|
    ensures Ascending(ReadyOf(ts, kind, from), from)
    decreases |ts| - from
  {
    if from < |ts| {
      ReadyOfAscends(ts, kind, from + 1);
      AscendingCons(ReadyOf(ts, kind, from + 1), from);
      assert [] + ReadyOf(ts, kind, from + 1) == ReadyOf(ts, kind, from + 1);
    }
  }

  lemma AscendingCons(s: seq<nat>, from: nat)
    requires Ascending(s, from + 1)
    ensures Ascending(s, from) && Ascending([from] + s, from)
  {
  }

  lemma {:induction false} BlockedLists(ts: seq<Todo>, from: nat)
    requires from <= |ts|
    ensures forall k: nat :: k in BlockedFrom(ts, from) <==> from <= k < |ts| && IsBlocked(ts, k)
    ensures BlockedFrom(ts, from) != [] ==> BlockedFrom(ts, from)[0] < |ts| && IsBlocked(ts, BlockedFrom(ts, from)[0])
    decreases |ts| - from
  {
    if from < |ts| {
      BlockedLists(ts, from + 1);
    }
  }

  /** The ready list holds exactly the ready todos, each once, and never mixes kinds: a ready
      explore todo is itself unfinished, so it holds every edit back. */
  lemma ReadyListIsHomogeneous(ts: seq<Todo>)
    ensures forall k: nat :: k in ReadyTodos(ts) <==> k < |ts| && IsReady(ts, k)
    ensures ReadyTodos(ts) != [] ==> ReadyTodos(ts)[0] < |ts| && IsReady(ts, ReadyTodos(ts)[0])
    ensures forall a, b :: 0 <= a < b < |ReadyTodos(ts)| ==> ReadyTodos(ts)[a] < ReadyTodos(ts)[b]
    ensures forall a, b :: a in ReadyTodos(ts) && b in ReadyTodos(ts) ==> ts[a].kind == ts[b].kind
  {
    hide IsReady, ReadyOf;
    var x, e := ReadyOf(ts, Explore, 0), ReadyOf(ts, Edit, 0);
    ReadyOfLists(ts, Explore, 0);
    ReadyOfLists(ts, Edit, 0);
    ReadyOfAscends(ts, Explore, 0);
    ReadyOfAscends(ts, Edit, 0);
    OneKindReady(ts);
    assert x == [] ==> ReadyTodos(ts) == e;
    assert e == [] ==> ReadyTodos(ts) == x;
  }

  lemma OneKindReady(ts: seq<Todo>)
    ensures ReadyOf(ts, Explore, 0) == [] || ReadyOf(ts, Edit, 0) == []
  {
    ReadyOfLists(ts, Explore, 0);
    ReadyOfLists(ts, Edit, 0);
    if ReadyOf(ts, Explore, 0) != [] {
      assert ExplorePending(ts);
    }
  }

  // ---- the closed form of a run ----

  /** Whether each todo's agent run would succeed. A todo runs at most once in a plan run, so
      one answer per todo covers every execution. */
  type Oracle = string -> bool

  /** Todo `i` gets to run, given whether edit todos are ever let through. */
  ghost predicate Runs(ts: seq<Todo>, ok: Oracle, i: nat, gate: bool)
    requires i < |ts|
    decreases i, 0
  {
    Startable(ts[i].status) && (ts[i].kind.Edit? ==> gate)
    && forall d :: d in ts[i].deps ==> exists j: nat :: j < i && ts[j].id == d && Completes(ts, ok, j, gate)
  }

  ghost predicate Completes(ts: seq<Todo>, ok: Oracle, i: nat, gate: bool)
    requires i < |ts|
    decreases i, 1
  {
    ts[i].status.Completed? || (Runs(ts, ok, i, gate) && ok(ts[i].id))
  }

  /** Every explore todo is finished or gets to run without any edit todo running. */
  ghost predicate ExploresSettle(ts: seq<Todo>, ok: Oracle) {
    forall i: nat :: i < |ts| && ts[i].kind.Explore? ==> Terminal(ts[i].status) || Runs(ts, ok, i, false)
  }

  ghost predicate WillRun(ts: seq<Todo>, ok: Oracle, i: nat)
    requires i < |ts|
  {
    Runs(ts, ok, i, ExploresSettle(ts, ok))
  }

  ghost function Settled(ok: Oracle, id: string): Status {
    if ok(id) then Completed else Failed
  }

  /** Todo `j` ends the scheduling loop terminal but not completed. */
  ghost predicate EndsDead(ts: seq<Todo>, ok: Oracle, j: nat)
    requires j < |ts|
  {
    (Terminal(ts[j].status) && !ts[j].status.Completed?) || (WillRun(ts, ok, j) && !ok(ts[j].id))
  }

  ghost predicate DirectlyDead(ts: seq<Todo>, ok: Oracle, i: nat)
    requires i < |ts|
  {
    exists j: nat :: j < |ts| && ts[j].id in ts[i].deps && EndsDead(ts, ok, j)
  }

  /** The status todo `i` ends a plan run with. */
  ghost function FinalStatus(ts: seq<Todo>, ok: Oracle, i: nat): Status
    requires i < |ts|
  {
    if WillRun(ts, ok, i) then Settled(ok, ts[i].id)
    else if Startable(ts[i].status) && DirectlyDead(ts, ok, i) then Blocked
    else ts[i].status
  }

  lemma {:induction false} GateOnlyHelps(ts: seq<Todo>, ok: Oracle, i: nat)
    requires i < |ts| && Runs(ts, ok, i, false)
    ensures Runs(ts, ok, i, true)
  {
    forall d | d in ts[i].deps
      ensures exists j: nat :: j < i && ts[j].id == d && Completes(ts, ok, j, true)
    {
      var j: nat :| j < i && ts[j].id == d && Completes(ts, ok, j, false);
      if !ts[j].status.Completed? {
        GateOnlyHelps(ts, ok, j);
      }
      assert Completes(ts, ok, j, true);
    }
  }

  /** How far a run has come: each todo is as at the start, or has run and settled. */
  ghost predicate Underway(start: seq<Todo>, ok: Oracle, now: seq<Todo>) {
    |now| == |start|
    && forall i: nat :: i < |start| ==>
      now[i] == start[i].(status := now[i].status)
      && (now[i].status == start[i].status || (WillRun(start, ok, i) && now[i].status == Settled(ok, start[i].id)))
  }

  /** Nothing is scheduled that the closed form does not let run. */
  lemma ReadyWillRun(start: seq<Todo>, ok: Oracle, now: seq<Todo>, i: nat)
    requires WellFormed(start) && Underway(start, ok, now) && i < |now| && IsReady(now, i)
    ensures WillRun(start, ok, i) && Startable(start[i].status)
  {
    var gate := ExploresSettle(start, ok);
    forall d | d in start[i].deps
      ensures exists j: nat :: j < i && start[j].id == d && Completes(start, ok, j, gate)
    {
      assert d in CompletedIds(now);
      var j: nat :| j < |now| && now[j].status.Completed? && now[j].id == d;
      assert Completes(start, ok, j, gate);
    }
  }

  /** When nothing is ready any more, every explore todo that can run without edits has run. */
  lemma {:induction false} ExploresExhausted(start: seq<Todo>, ok: Oracle, now: seq<Todo>, i: nat)
    requires WellFormed(start) && Underway(start, ok, now) && ReadyTodos(now) == []
    requires i < |start| && Runs(start, ok, i, false)
    ensures now[i].status == Settled(ok, start[i].id)
  {
    forall d | d in now[i].deps
      ensures d in CompletedIds(now)
    {
      var j: nat :| j < i && start[j].id == d && Completes(start, ok, j, false);
      if !start[j].status.Completed? {
        ExploresExhausted(start, ok, now, j);
      }
      assert now[j].status.Completed? && now[j].id == d;
    }
    ReadyListIsHomogeneous(now);
    assert !IsReady(now, i);
  }

  /** When nothing is ready any more, everything the closed form lets run has run. */
  lemma {:induction false} AllExhausted(start: seq<Todo>, ok: Oracle, now: seq<Todo>, i: nat)
    requires WellFormed(start) && Underway(start, ok, now) && ReadyTodos(now) == []
    requires i < |start| && WillRun(start, ok, i)
    ensures now[i].status == Settled(ok, start[i].id)
  {
    var gate := ExploresSettle(start, ok);
    forall d | d in now[i].deps
      ensures d in CompletedIds(now)
    {
      var j: nat :| j < i && start[j].id == d && Completes(start, ok, j, gate);
      if !start[j].status.Completed? {
        AllExhausted(start, ok, now, j);
      }
      assert now[j].status.Completed? && now[j].id == d;
    }
    if start[i].kind.Edit? {
      forall e: nat | e < |now| && now[e].kind.Explore?
        ensures Terminal(now[e].status)
      {
        if !Terminal(start[e].status) {
          ExploresExhausted(start, ok, now, e);
        }
      }
    }
    ReadyListIsHomogeneous(now);
    assert !IsReady(now, i);
  }

  /** Marking the blocked todos of an exhausted run gives every todo its final status. */
  lemma BlockingFinishes(start: seq<Todo>, ok: Oracle, now: seq<Todo>, i: nat)
    requires WellFormed(start) && Underway(start, ok, now) && ReadyTodos(now) == [] && i < |start|
    ensures FinalStatus(start, ok, i) == if IsBlocked(now, i) then Blocked else now[i].status
  {
    forall j: nat | j < |start|
      ensures WillRun(start, ok, j) ==> now[j].status == Settled(ok, start[j].id)
      ensures now[j].id in DeadIds(now) <==> EndsDead(start, ok, j)
    {
      if WillRun(start, ok, j) {
        AllExhausted(start, ok, now, j);
      }
      if now[j].id in DeadIds(now) {
        var k: nat :| k < |now| && Terminal(now[k].status) && !now[k].status.Completed? && now[k].id == now[j].id;
        assert k == j;
      }
    }
    if DirectlyDead(start, ok, i) {
      var j: nat :| j < |start| && start[j].id in start[i].deps && EndsDead(start, ok, j);
      assert now[j].id in now[i].deps && now[j].id in DeadIds(now);
    }
    if IsBlocked(now, i) {
      var d :| d in now[i].deps && d in DeadIds(now);
      var j: nat :| j < |now| && Terminal(now[j].status) && !now[j].status.Completed? && now[j].id == d;
      assert start[j].id in start[i].deps;
    }
  }

  /** The todos not started yet: the measure of a run. */
  ghost function Unstarted(ts: seq<Todo>): set<nat> {
    set i: nat | i < |ts| && Startable(ts[i].status)
  }

  ghost predicate SomeFailed(start: seq<Todo>, ok: Oracle, now: seq<Todo>)
    requires |now| == |start|
  {
    exists i: nat :: i < |start| && now[i].status != start[i].status && !ok(start[i].id)
  }

  ghost predicate BatchSettled(before: seq<Todo>, batch: seq<nat>, ok: Oracle, after: seq<Todo>) {
    |after| == |before|
    && forall i: nat :: i < |after| ==>
      after[i] == if i in batch then before[i].(status := Settled(ok, before[i].id)) else before[i]
  }

  lemma BatchIsDue(start: seq<Todo>, ok: Oracle, before: seq<Todo>, batch: seq<nat>)
    requires WellFormed(start) && Underway(start, ok, before) && forall k :: k in batch ==> k < |before| && IsReady(before, k)
    ensures forall k: nat :: k in batch ==>
              k < |start| && WillRun(start, ok, k) && Startable(start[k].status) && before[k].status == start[k].status
  {
    forall k: nat | k in batch
      ensures WillRun(start, ok, k) && Startable(start[k].status) && before[k].status == start[k].status
    {
      ReadyWillRun(start, ok, before, k);
    }
  }

  lemma BatchFailures(start: seq<Todo>, ok: Oracle, before: seq<Todo>, batch: seq<nat>, after: seq<Todo>)
    requires |start| == |before| && BatchSettled(before, batch, ok, after) && forall i: nat :: i < |start| ==> before[i].id == start[i].id
    requires forall k: nat :: k in batch ==> k < |start| && Startable(start[k].status) && before[k].status == start[k].status
    ensures SomeFailed(start, ok, after)
            <==> SomeFailed(start, ok, before) || exists k :: k in batch && !ok(before[k].id)
  {
    if k :| k in batch && !ok(before[k].id) {
      assert after[k].status != start[k].status && !ok(start[k].id);
    }
    if SomeFailed(start, ok, before) {
      var i: nat :| i < |start| && before[i].status != start[i].status && !ok(start[i].id);
      assert i !in batch && after[i].status != start[i].status;
    }
  }

  /** Settling a batch of ready todos keeps the run on the closed form and makes it shorter. */
  lemma BatchAdvances(start: seq<Todo>, ok: Oracle, before: seq<Todo>, batch: seq<nat>, after: seq<Todo>)
    requires WellFormed(start) && Underway(start, ok, before) && BatchSettled(before, batch, ok, after)
    requires batch != [] && forall k :: k in batch ==> k < |before| && IsReady(before, k)
    ensures Underway(start, ok, after) && Unstarted(after) < Unstarted(before)
    ensures SomeFailed(start, ok, after)
            <==> SomeFailed(start, ok, before) || exists k :: k in batch && !ok(before[k].id)
  {
    hide WillRun, SomeFailed, IsReady, WellFormed;
    BatchIsDue(start, ok, before, batch);
    BatchFailures(start, ok, before, batch, after);
    assert batch[0] in batch;
    assert batch[0] in Unstarted(before) && batch[0] !in Unstarted(after);
  }

  // ---- the engine ----

  function NormalizeKind(kind: string): Kind {
    if Trim(kind) in {"explore", "research", "investigate"} then Explore else Edit
  }

  /** Any order of a list, round by round. */
  ghost predicate Rearranges(arrange: (nat, seq<nat>) -> seq<nat>) {
    forall round: nat, s: seq<nat> :: multiset(arrange(round, s)) == multiset(s)
  }

  lemma SameElements(listed: seq<nat>, s: seq<nat>, arrange: (nat, seq<nat>) -> seq<nat>, round: nat)
    requires Rearranges(arrange) && listed == arrange(round, s)
    ensures (forall k :: k in listed <==> k in s) && (listed == [] <==> s == [])
  {
    assert multiset(listed) == multiset(s);
    assert forall k :: k in listed <==> k in multiset(listed);
    assert forall k :: k in s <==> k in multiset(s);
    assert listed != [] ==> listed[0] in listed;
    assert s != [] ==> s[0] in s;
  }

  datatype PlanOutcome = PlanCompleted | PlanCancelled | PlanPartialFailure

  /** One session's todos, in creation order. */
  class TodoEngine {
    var todos: seq<Todo>

    constructor ()
      ensures todos == [] && WellFormed(todos)
    {
      todos := [];
    }

    /** `add`: a new queued todo. The id comes from the fresh-id supply. */
    method Add(id: string, kind: string, deps: seq<string>)
      requires WellFormed(todos)
      requires id !in deps && forall t :: t in todos ==> t.id != id && id !in t.deps
      modifies this
      ensures todos == old(todos) + [Todo(id, NormalizeKind(kind), deps, Queued)]
      ensures todos[|old(todos)|].kind.Explore?
              <==> Trim(kind) == "explore" || Trim(kind) == "research" || Trim(kind) == "investigate"
      ensures WellFormed(todos)
    {
      todos := todos + [Todo(id, NormalizeKind(kind), deps, Queued)];
    }

    method SetStatus(i: nat, status: Status)
      requires i < |todos|
      modifies this
      ensures todos == old(todos)[i := old(todos)[i].(status := status)]
    {
      todos := todos[i := todos[i].(status := status)];
    }

    /** Marks a batch running, then settles each of its todos as its agent run ends. */
    method RunBatch(batch: seq<nat>, ok: Oracle) returns (anyFailed: bool)
      requires forall k :: k in batch ==> k < |todos|
      modifies this
      ensures |todos| == old(|todos|)
      ensures forall i: nat :: i < |todos| ==>
        todos[i] == if i in batch then old(todos)[i].(status := Settled(ok, old(todos)[i].id)) else old(todos)[i]
      ensures anyFailed <==> exists k :: k in batch && !ok(old(todos)[k].id)
    {
      ghost var before := todos;
      for n := 0 to |batch|
        invariant |todos| == |before|
        invariant forall i: nat :: i < |todos| ==>
          todos[i] == if i in batch[..n] then before[i].(status := Running) else before[i]
      {
        assert batch[n] in batch;
        SetStatus(batch[n], Running);
        assert batch[..n + 1] == batch[..n] + [batch[n]];
      }
      assert batch[..|batch|] == batch;
      anyFailed := false;
      for n := 0 to |batch|
        invariant |todos| == |before|
        invariant forall i: nat :: i < |todos| ==>
          todos[i] == if i in batch[..n] then before[i].(status := Settled(ok, before[i].id))
                      else if i in batch then before[i].(status := Running) else before[i]
        invariant anyFailed <==> exists k :: k in batch[..n] && k < |before| && !ok(before[k].id)
      {
        var k := batch[n];
        assert k in batch;
        var succeeded := ok(todos[k].id);
        SetStatus(k, if succeeded then Completed else Failed);
        anyFailed := anyFailed || !succeeded;
        assert batch[..n + 1] == batch[..n] + [k];
      }
    }

    /** The scheduling loop of `run_plan`: batches of ready todos until nothing is ready. Todos
        created in the same millisecond are listed in any order, which may differ by round. */
    method RunBatches(parallelLimit: nat, editParallel: nat, ok: Oracle, cancelled: nat -> bool,
                      arrange: (nat, seq<nat>) -> seq<nat>) returns (outcome: PlanOutcome)
      requires WellFormed(todos) && parallelLimit >= 1 && editParallel >= 1 && Rearranges(arrange)
      modifies this
      ensures Underway(old(todos), ok, todos)
      ensures outcome == PlanCancelled ==> exists round :: cancelled(round)
      ensures outcome != PlanCancelled ==>
        ReadyTodos(todos) == [] && (outcome == PlanPartialFailure <==> SomeFailed(old(todos), ok, todos))
    {
      hide IsReady, WillRun, Rearranges, ReadyOf;
      ghost var start := todos;
      var anyFailed, round := false, 0;
      while true
        invariant Underway(start, ok, todos)
        invariant anyFailed <==> SomeFailed(start, ok, todos)
        decreases Unstarted(todos)
      {
        if cancelled(round) {
          return PlanCancelled;
        }
        var ready := arrange(round, ReadyTodos(todos));
        SameElements(ready, ReadyTodos(todos), arrange, round);
        if ready == [] {
          return if anyFailed then PlanPartialFailure else PlanCompleted;
        }
        ReadyListIsHomogeneous(todos);
        assert ready[0] in ready;
        var limit := if todos[ready[0]].kind.Explore? then parallelLimit else editParallel;
        var batch := if |ready| <= limit then ready else ready[..limit];
        ghost var before := todos;
        forall k | k in batch
          ensures k < |todos| && IsReady(todos, k)
        {
          assert k in ready;
        }
        var failed := RunBatch(batch, ok);
        assert batch[0] in batch;
        BatchAdvances(start, ok, before, batch, todos);
        anyFailed := anyFailed || failed;
        round := round + 1;
      }
    }

    /** The marking pass of `run_plan`, made once. */
    method MarkBlocked()
      modifies this
      ensures |todos| == old(|todos|)
      ensures forall i: nat :: i < |todos| ==>
        todos[i] == if IsBlocked(old(todos), i) then old(todos)[i].(status := Blocked) else old(todos)[i]
    {
      hide IsBlocked, BlockedFrom;
      var blocked := BlockedTodos(todos);
      BlockedLists(todos, 0);
      ghost var now := todos;
      for n := 0 to |blocked|
        invariant |todos| == |now|
        invariant forall i: nat :: i < |todos| ==> todos[i] == if i in blocked[..n] then now[i].(status := Blocked) else now[i]
      {
        assert blocked[n] in blocked;
        SetStatus(blocked[n], Blocked);
        assert blocked[..n + 1] == blocked[..n] + [blocked[n]];
      }
      assert blocked[..|blocked|] == blocked;
    }

    /** `run_plan`. Not cancelled, it leaves every todo with its final status, whatever the batch
        limits and the order of the ready lists, and reports a failure exactly when a todo that ran failed. Cancelled, it leaves
        each todo as it was, settled as it would have been, or marked blocked. */
    method RunPlan(parallelLimit: nat, editParallel: nat, ok: Oracle, cancelled: nat -> bool,
                   arrange: (nat, seq<nat>) -> seq<nat>) returns (outcome: PlanOutcome)
      requires WellFormed(todos) && parallelLimit >= 1 && editParallel >= 1 && Rearranges(arrange)
      modifies this
      ensures |todos| == old(|todos|)
      ensures outcome != PlanCancelled ==>
        forall i: nat :: i < |todos| ==> todos[i] == old(todos)[i].(status := FinalStatus(old(todos), ok, i))
      ensures outcome != PlanCancelled ==>
        (outcome == PlanPartialFailure
         <==> exists i: nat :: i < |old(todos)| && WillRun(old(todos), ok, i) && !ok(old(todos)[i].id))
      ensures outcome == PlanCancelled ==>
        (exists round :: cancelled(round))
        && forall i: nat :: i < |todos| ==>
          todos[i] == old(todos)[i]
          || (WillRun(old(todos), ok, i) && todos[i] == old(todos)[i].(status := Settled(ok, old(todos)[i].id)))
          || (Startable(old(todos)[i].status) && todos[i] == old(todos)[i].(status := Blocked))
    {
      ghost var start := todos;
      outcome := RunBatches(parallelLimit, editParallel, ok, cancelled, arrange);
      ghost var now := todos;
      MarkBlocked();
      if outcome != PlanCancelled {
        forall i: nat | i < |start|
          ensures FinalStatus(start, ok, i) == if IsBlocked(now, i) then Blocked else now[i].status
          ensures WillRun(start, ok, i) ==> now[i].status == Settled(ok, start[i].id) && start[i].status != now[i].status
        {
          BlockingFinishes(start, ok, now, i);
          if WillRun(start, ok, i) {
            AllExhausted(start, ok, now, i);
          }
        }
      }
    }
  }
}
