/**
 How a plan becomes a todo graph: reading the model's task array, and adding one todo a task
 with its dependency edges.
 */
module PlanGraph {
  import opened Text
  import opened TodoSchedule
  import opened PlanOutcomes

  /** One element of the model's task array: a title (empty when there is none), a kind, and the
      indices it lists. */
  datatype Draft = Draft(title: string, kind: Kind, dependsOn: seq<nat>)

  function Below(indices: seq<nat>, bound: nat): (r: seq<nat>)
    ensures forall d :: d in r <==> d in indices && d < bound
  {
    if indices == [] then []
    else (if indices[0] < bound then [indices[0]] else []) + Below(indices[1..], bound)
  }

  // ---- reading the array ----

  /** The indices of the titled tasks among the first `n`, ascending. */
  function KeptIndices(raw: seq<Draft>, n: nat): (r: seq<nat>)
    requires n <= |raw|
    ensures |r| <= n && forall k :: 0 <= k < |r| ==> k <= r[k] < n && raw[r[k]].title != ""
  {
    if n == 0 then []
    else
      var before := KeptIndices(raw, n - 1);
      if raw[n - 1].title != "" then before + [n - 1] else before
  }

  /** The indices kept are those of the titled tasks, each once and in their order. */
  lemma {:induction false} KeptExactly(raw: seq<Draft>, n: nat)
    requires n <= |raw|
    ensures forall i: nat :: i in KeptIndices(raw, n) <==> i < n && raw[i].title != ""
    ensures forall j, k :: 0 <= j < k < |KeptIndices(raw, n)| ==> KeptIndices(raw, n)[j] < KeptIndices(raw, n)[k]
  {
    if n > 0 {
      KeptExactly(raw, n - 1);
    }
  }

  /** `parse_task_array`: untitled tasks are dropped, and each kept task keeps the listed indices
      that are below its own raw index. */
  method ParseTasks(raw: seq<Draft>) returns (drafts: seq<Draft>)
    ensures var kept := KeptIndices(raw, |raw|);
            |drafts| == |kept|
            && forall k :: 0 <= k < |kept| ==> drafts[k] == raw[kept[k]].(dependsOn := Below(raw[kept[k]].dependsOn, kept[k]))
  {
    drafts := [];
    for i := 0 to |raw|
      invariant var kept := KeptIndices(raw, i);
                |drafts| == |kept|
                && forall k :: 0 <= k < |kept| ==> drafts[k] == raw[kept[k]].(dependsOn := Below(raw[kept[k]].dependsOn, kept[k]))
    {
      var task := raw[i].(dependsOn := Below(raw[i].dependsOn, i));
      if task.title != "" {
        drafts := drafts + [task];
      }
    }
  }

  lemma {:induction false} AllKept(raw: seq<Draft>, n: nat)
    requires n <= |raw|
    ensures |KeptIndices(raw, n)| == n <==> forall r :: 0 <= r < n ==> raw[r].title != ""
  {
    if n > 0 {
      AllKept(raw, n - 1);
    }
  }

  /** Listed indices count the raw array, but `generate` uses them as positions among the kept
      tasks. For task `d` the two agree exactly when nothing up to it was dropped; otherwise the
      edge names a later task, or is lost. */
  lemma {:induction false} EdgeNamesRawTaskExactly(raw: seq<Draft>, n: nat, d: nat)
    requires n <= |raw| && d < |KeptIndices(raw, n)|
    ensures KeptIndices(raw, n)[d] == d <==> forall r :: 0 <= r < n && r <= d ==> raw[r].title != ""
  {
    var before := KeptIndices(raw, n - 1);
    if d < |before| {
      EdgeNamesRawTaskExactly(raw, n - 1, d);
    } else {
      AllKept(raw, n - 1);
      if d + 1 < n {
        AllKept(raw, d + 1);
        KeptGrows(raw, d + 1, n - 1);
      }
    }
  }

  lemma {:induction false} KeptGrows(raw: seq<Draft>, m: nat, n: nat)
    requires m <= n <= |raw|
    ensures |KeptIndices(raw, m)| <= |KeptIndices(raw, n)|
    decreases n
  {
    if m < n {
      KeptGrows(raw, m, n - 1);
    }
  }

  // ---- adding the todos ----

  function ExploresBelow(drafts: seq<Draft>, i: nat): (r: seq<nat>)
    requires i <= |drafts|
    ensures forall d :: d in r <==> 0 <= d < i && drafts[d].kind.Explore?
  {
    if i == 0 then []
    else ExploresBelow(drafts, i - 1) + (if drafts[i - 1].kind.Explore? then [i - 1] else [])
  }

  /** The positions draft `i` depends on: its own, or every earlier explore for an edit that
      lists none. */
  function DepIndices(drafts: seq<Draft>, i: nat): (r: seq<nat>)
    requires i < |drafts|
    ensures forall d :: d in r ==> d < i
  {
    var listed := Below(drafts[i].dependsOn, i);
    if listed == [] && drafts[i].kind.Edit? then ExploresBelow(drafts, i) else listed
  }

  function IdsOf(ids: seq<string>, positions: seq<nat>): (r: seq<string>)
    requires forall d :: d in positions ==> d < |ids|
    ensures forall s :: s in r <==> exists d :: d in positions && ids[d] == s
  {
    if positions == [] then []
    else
      assert positions[0] in positions && forall d :: d in positions[1..] ==> d in positions;
      [ids[positions[0]]] + IdsOf(ids, positions[1..])
  }

  ghost predicate Distinct(ids: seq<string>) {
    forall i, j :: 0 <= i < j < |ids| ==> ids[i] != ids[j]
  }

  function KindText(kind: Kind): string {
    if kind.Explore? then "explore" else "edit"
  }

  function TodoOf(drafts: seq<Draft>, ids: seq<string>, i: nat): Todo
    requires |ids| == |drafts| && i < |drafts|
  {
    Todo(ids[i], drafts[i].kind, IdsOf(ids, DepIndices(drafts, i)), Queued)
  }

  /** The todos a list of drafts becomes. */
  ghost predicate Generated(drafts: seq<Draft>, ids: seq<string>, ts: seq<Todo>) {
    |ids| == |drafts| == |ts| && forall i: nat :: i < |ts| ==> ts[i] == TodoOf(drafts, ids, i)
  }

  /** The loop of `generate` that adds one todo a draft, dependencies first, behind the todos the
      session has. The ids are fresh. */
  method Generate(drafts: seq<Draft>, ids: seq<string>, engine: TodoEngine) returns (ghost ts: seq<Todo>)
    requires |ids| == |drafts| && Distinct(ids) && WellFormed(engine.todos)
    requires forall t :: t in engine.todos ==> t.id !in ids && forall d :: d in t.deps ==> d !in ids
    modifies engine
    ensures engine.todos == old(engine.todos) + ts && Generated(drafts, ids, ts)
  {
    hide IdsOf, DepIndices;
    ghost var before := engine.todos;
    ts := [];
    assert before + [] == before;
    for i := 0 to |drafts|
      invariant WellFormed(engine.todos) && engine.todos == before + ts && |ts| == i
      invariant forall k: nat :: k < i ==> ts[k] == TodoOf(drafts, ids, k)
    {
      KindTextReads(drafts[i].kind);
      forall k: nat | k <= i
        ensures ids[i] !in TodoOf(drafts, ids, k).deps
      {
        IdNotInEarlierDeps(drafts, ids, i, k);
      }
      forall t | t in engine.todos
        ensures t.id != ids[i] && ids[i] !in t.deps
      {
        assert t in before || t in ts;
        assert t in before ==> ids[i] in ids;
      }
      engine.Add(ids[i], KindText(drafts[i].kind), IdsOf(ids, DepIndices(drafts, i)));
      assert before + (ts + [TodoOf(drafts, ids, i)]) == (before + ts) + [TodoOf(drafts, ids, i)];
      ts := ts + [TodoOf(drafts, ids, i)];
    }
  }

  lemma KindTextReads(kind: Kind)
    ensures NormalizeKind(KindText(kind)) == kind
  {
    TrimTrims(KindText(kind));
  }

  lemma IdNotInEarlierDeps(drafts: seq<Draft>, ids: seq<string>, i: nat, k: nat)
    requires |ids| == |drafts| && Distinct(ids) && k <= i < |drafts|
    ensures ids[i] !in TodoOf(drafts, ids, k).deps
  {
  }

  lemma GeneratedEdge(drafts: seq<Draft>, ids: seq<string>, ts: seq<Todo>, i: nat, j: nat)
    requires Distinct(ids) && Generated(drafts, ids, ts) && i < |ts| && j < |ts|
    ensures ts[j].id in ts[i].deps <==> j in DepIndices(drafts, i)
  {
    assert forall d :: 0 <= d < |ids| && ids[d] == ids[j] ==> d == j;
    assert ts[i].deps == IdsOf(ids, DepIndices(drafts, i));
  }

  /** Draft `i` waits for the earlier draft `j`: it lists it, or it is an edit that lists no earlier
      draft and `j` explores. */
  ghost predicate WaitsFor(drafts: seq<Draft>, i: nat, j: nat)
    requires i < |drafts|
  {
    j < i
    && (j in drafts[i].dependsOn
        || (drafts[i].kind.Edit? && drafts[j].kind.Explore? && forall d :: d in drafts[i].dependsOn ==> d >= i))
  }

  /** The todo of draft `i` has its kind, starts queued, and depends on the todos of the drafts it
      waits for and on nothing else. */
  lemma GeneratedEdgesExactly(drafts: seq<Draft>, ids: seq<string>, ts: seq<Todo>, i: nat)
    requires Distinct(ids) && Generated(drafts, ids, ts) && i < |ts|
    ensures ts[i].id == ids[i] && ts[i].kind == drafts[i].kind && ts[i].status == Queued
    ensures forall j: nat :: j < |ts| ==> (ts[j].id in ts[i].deps <==> WaitsFor(drafts, i, j))
    ensures forall d :: d in ts[i].deps ==> exists j: nat :: j < |ts| && ts[j].id == d
  {
    hide IdsOf;
    var deps := DepIndices(drafts, i);
    assert ts[i] == TodoOf(drafts, ids, i);
    forall j: nat | j < |ts|
      ensures ts[j].id in ts[i].deps <==> WaitsFor(drafts, i, j)
    {
      GeneratedEdge(drafts, ids, ts, i, j);
      PositionsAre(drafts, i, j);
    }
    forall d | d in ts[i].deps
      ensures exists j: nat :: j < |ts| && ts[j].id == d
    {
      var j :| j in deps && ids[j] == d;
      assert ts[j] == TodoOf(drafts, ids, j);
    }
  }

  lemma PositionsAre(drafts: seq<Draft>, i: nat, j: nat)
    requires i < |drafts|
    ensures j in DepIndices(drafts, i) <==> WaitsFor(drafts, i, j)
  {
    var listed := Below(drafts[i].dependsOn, i);
    assert listed != [] ==> listed[0] in listed;
    assert listed == [] <==> forall d :: d in drafts[i].dependsOn ==> d >= i;
  }

  lemma GeneratedIsFresh(drafts: seq<Draft>, ids: seq<string>, ts: seq<Todo>)
    requires Distinct(ids) && Generated(drafts, ids, ts)
    ensures Fresh(ts)
  {
    forall i: nat, j: nat | i < |ts| && j < |ts| && ts[j].id in ts[i].deps
      ensures j < i
    {
      GeneratedEdge(drafts, ids, ts, i, j);
    }
    forall i, d | 0 <= i < |ts| && d in ts[i].deps
      ensures exists j :: 0 <= j < |ts| && ts[j].id == d
    {
      assert ts[i] == TodoOf(drafts, ids, i);
      var j :| j in DepIndices(drafts, i) && ids[j] == d;
      assert ts[j].id == d;
    }
  }

  /** Draft `x` explores, and lists the earlier draft `e`, which edits. */
  predicate ListsEdit(drafts: seq<Draft>, x: nat, e: nat) {
    e < x < |drafts| && drafts[x].kind.Explore? && drafts[e].kind.Edit? && e in drafts[x].dependsOn
  }

  lemma ListsEditIsEdge(drafts: seq<Draft>, ids: seq<string>, ts: seq<Todo>, x: nat, e: nat)
    requires Distinct(ids) && Generated(drafts, ids, ts)
    ensures ExploreNeedsEdit(ts, x, e) <==> ListsEdit(drafts, x, e)
  {
    if x < |ts| && e < |ts| {
      GeneratedEdge(drafts, ids, ts, x, e);
    }
  }

  /** The plan's todos stand behind those of the session, and no id is shared. */
  ghost predicate Behind(before: seq<Todo>, ids: seq<string>) {
    forall t :: t in before ==> t.id !in ids
  }

  /** What the session had runs as it would have without the plan. */
  lemma {:induction false} RunsBefore(before: seq<Todo>, ts: seq<Todo>, ok: Oracle, i: nat, gate: bool)
    requires i < |before|
    ensures Runs(before + ts, ok, i, gate) <==> Runs(before, ok, i, gate)
  {
    forall j: nat | j < i
      ensures Completes(before + ts, ok, j, gate) <==> Completes(before, ok, j, gate)
    {
      RunsBefore(before, ts, ok, j, gate);
    }
  }

  /** The plan runs as it would alone, once edits are let through or not. */
  lemma {:induction false} RunsBehind(before: seq<Todo>, drafts: seq<Draft>, ids: seq<string>, ts: seq<Todo>,
                                      ok: Oracle, i: nat, gate: bool)
    requires Generated(drafts, ids, ts) && Behind(before, ids) && i < |ts|
    ensures Runs(before + ts, ok, |before| + i, gate) <==> Runs(ts, ok, i, gate)
  {
    hide TodoOf;
    var all, n := before + ts, |before|;
    forall j: nat | j < i
      ensures Completes(all, ok, n + j, gate) <==> Completes(ts, ok, j, gate)
    {
      RunsBehind(before, drafts, ids, ts, ok, j, gate);
    }
    forall d | d in ts[i].deps
      ensures (exists j: nat :: j < n + i && all[j].id == d && Completes(all, ok, j, gate))
              <==> exists j: nat :: j < i && ts[j].id == d && Completes(ts, ok, j, gate)
    {
      DepIsOfPlan(before, drafts, ids, ts, i, d);
      if j: nat :| j < n + i && all[j].id == d && Completes(all, ok, j, gate) {
        assert j >= n && ts[j - n].id == d;
      }
      if j: nat :| j < i && ts[j].id == d && Completes(ts, ok, j, gate) {
        assert all[n + j].id == d;
      }
    }
  }

  lemma DepIsOfPlan(before: seq<Todo>, drafts: seq<Draft>, ids: seq<string>, ts: seq<Todo>, i: nat, d: string)
    requires Generated(drafts, ids, ts) && Behind(before, ids) && i < |ts| && d in ts[i].deps
    ensures forall j :: 0 <= j < |before| ==> before[j].id != d
  {
    assert ts[i] == TodoOf(drafts, ids, i);
    assert d in ids;
    assert forall j :: 0 <= j < |before| ==> before[j] in before;
  }

  lemma SettleTogether(before: seq<Todo>, drafts: seq<Draft>, ids: seq<string>, ts: seq<Todo>, ok: Oracle)
    requires Generated(drafts, ids, ts) && Behind(before, ids)
    ensures ExploresSettle(before + ts, ok) <==> ExploresSettle(before, ok) && ExploresSettle(ts, ok)
  {
    hide Runs, Generated, Behind;
    var all, n := before + ts, |before|;
    forall i: nat | i < |all|
      ensures i < n ==> all[i] == before[i] && (Runs(all, ok, i, false) <==> Runs(before, ok, i, false))
      ensures i >= n ==> all[i] == ts[i - n] && (Runs(all, ok, i, false) <==> Runs(ts, ok, i - n, false))
    {
      if i < n {
        RunsBefore(before, ts, ok, i, false);
      } else {
        RunsBehind(before, drafts, ids, ts, ok, i - n, false);
      }
    }
    if ExploresSettle(all, ok) {
      forall i: nat | i < |before| && before[i].kind.Explore?
        ensures Terminal(before[i].status) || Runs(before, ok, i, false)
      {
        assert all[i] == before[i];
      }
      forall i: nat | i < |ts| && ts[i].kind.Explore?
        ensures Terminal(ts[i].status) || Runs(ts, ok, i, false)
      {
        assert all[n + i] == ts[i];
      }
    }
  }

  /** Alone, with every task succeeding, the explore tasks of a plan settle exactly if none lists
      an earlier edit. */
  lemma PlanSettlesExactly(drafts: seq<Draft>, ids: seq<string>, ts: seq<Todo>, ok: Oracle)
    requires Distinct(ids) && Generated(drafts, ids, ts) && forall s :: ok(s)
    ensures ExploresSettle(ts, ok) <==> forall x: nat, e: nat :: !ListsEdit(drafts, x, e)
  {
    GeneratedIsFresh(drafts, ids, ts);
    if forall x: nat, e: nat :: !ListsEdit(drafts, x, e) {
      forall i: nat | i < |ts| && ts[i].kind.Explore?
        ensures Runs(ts, ok, i, false)
      {
        NoEdgeToEdit(drafts, ids, ts);
        ExploresRun(ts, ok, i);
      }
    } else {
      var x: nat, e: nat :| ListsEdit(drafts, x, e);
      ListsEditIsEdge(drafts, ids, ts, x, e);
      EditBelowNeverRuns(ts, ok, x, e);
    }
  }

  lemma NoEdgeToEdit(drafts: seq<Draft>, ids: seq<string>, ts: seq<Todo>)
    requires Distinct(ids) && Generated(drafts, ids, ts) && forall x: nat, e: nat :: !ListsEdit(drafts, x, e)
    ensures forall x, e :: !ExploreNeedsEdit(ts, x, e)
  {
    forall x: nat, e: nat
      ensures !ExploreNeedsEdit(ts, x, e)
    {
      ListsEditIsEdge(drafts, ids, ts, x, e);
    }
  }

  lemma EditBelowNeverRuns(ts: seq<Todo>, ok: Oracle, x: nat, e: nat)
    requires Fresh(ts) && ExploreNeedsEdit(ts, x, e)
    ensures !ExploresSettle(ts, ok)
  {
    assert ts[x] in ts && ts[e] in ts;
    assert !Runs(ts, ok, e, false) && !Completes(ts, ok, e, false);
    assert forall j: nat :: j < |ts| && ts[j].id == ts[e].id ==> j == e;
    assert !Runs(ts, ok, x, false);
  }

  /** One todo of the plan completes exactly if edits are let through or it explores and runs
      without them. */
  lemma PlanTodoCompletes(before: seq<Todo>, drafts: seq<Draft>, ids: seq<string>, ts: seq<Todo>, ok: Oracle, i: nat)
    requires Distinct(ids) && Generated(drafts, ids, ts) && Behind(before, ids) && i < |ts| && forall s :: ok(s)
    ensures FinalStatus(before + ts, ok, |before| + i) == Completed
            <==> (ExploresSettle(before, ok) && ExploresSettle(ts, ok)) || (ts[i].kind.Explore? && Runs(ts, ok, i, false))
  {
    hide ExploresSettle, DirectlyDead;
    var gate := ExploresSettle(before + ts, ok);
    SettleTogether(before, drafts, ids, ts, ok);
    GeneratedIsFresh(drafts, ids, ts);
    RunsBehind(before, drafts, ids, ts, ok, i, gate);
    assert ts[i] == TodoOf(drafts, ids, i);
    EverythingRuns(ts, ok, i);
  }

  lemma FreshSettlesExactly(ts: seq<Todo>, ok: Oracle)
    requires Fresh(ts)
    ensures ExploresSettle(ts, ok) <==> forall i: nat :: i < |ts| && ts[i].kind.Explore? ==> Runs(ts, ok, i, false)
  {
    assert forall i: nat :: i < |ts| ==> ts[i] in ts;
  }

  /** A generated plan in its session, every task succeeding: all of the plan's todos complete
      exactly when no explore draft lists an earlier edit draft, which `generate` does not rule
      out, and, if the plan edits at all, every explore todo the session already had settles. */
  lemma GeneratedPlanCompletesExactly(before: seq<Todo>, drafts: seq<Draft>, ids: seq<string>, ts: seq<Todo>,
                                      ok: Oracle)
    requires Distinct(ids) && Generated(drafts, ids, ts) && Behind(before, ids) && forall s :: ok(s)
    ensures (forall i: nat :: |before| <= i < |before + ts| ==> FinalStatus(before + ts, ok, i) == Completed)
            <==> (forall x: nat, e: nat :: !ListsEdit(drafts, x, e))
                 && ((exists d :: d in drafts && d.kind.Edit?) ==> ExploresSettle(before, ok))
  {
    hide Runs, ExploresSettle, FinalStatus, Generated, ListsEdit;
    PlanSettlesExactly(drafts, ids, ts, ok);
    GeneratedIsFresh(drafts, ids, ts);
    FreshSettlesExactly(ts, ok);
    KindsKept(drafts, ids, ts);
    forall i: nat | |before| <= i < |before + ts|
      ensures FinalStatus(before + ts, ok, i) == Completed
              <==> (ExploresSettle(before, ok) && ExploresSettle(ts, ok))
                   || (ts[i - |before|].kind.Explore? && Runs(ts, ok, i - |before|, false))
    {
      PlanTodoCompletes(before, drafts, ids, ts, ok, i - |before|);
    }
    if forall i: nat :: |before| <= i < |before + ts| ==> FinalStatus(before + ts, ok, i) == Completed {
      forall i: nat | i < |ts|
        ensures (ExploresSettle(before, ok) && ExploresSettle(ts, ok)) || (ts[i].kind.Explore?
                && Runs(ts, ok, i, false))
      {
        assert FinalStatus(before + ts, ok, |before| + i) == Completed;
      }
    }
  }

  lemma KindsKept(drafts: seq<Draft>, ids: seq<string>, ts: seq<Todo>)
    requires Generated(drafts, ids, ts)
    ensures (exists d :: d in drafts && d.kind.Edit?) <==> exists i: nat :: i < |ts| && ts[i].kind.Edit?
  {
    forall i: nat | i < |ts|
      ensures ts[i].kind == drafts[i].kind && drafts[i] in drafts
    {
      assert ts[i] == TodoOf(drafts, ids, i);
    }
    if d :| d in drafts && d.kind.Edit? {
      var i: nat :| i < |drafts| && drafts[i] == d;
      assert ts[i].kind.Edit?;
    }
  }

  /** For one: an untitled first task shifts every later index, and the edit that lists task 1
      waits for task 2 instead. */
  lemma UntitledTaskShiftsEdges(drafts: seq<Draft>)
    requires var raw := [Draft("", Explore, []), Draft("a", Explore, []), Draft("b", Explore, []), Draft("c", Edit, [1])];
             drafts == [raw[1], raw[2], raw[3]]
    ensures var raw := [Draft("", Explore, []), Draft("a", Explore, []), Draft("b", Explore, []), Draft("c", Edit, [1])];
            KeptIndices(raw, 4) == [1, 2, 3] && DepIndices(drafts, 2) == [1] && drafts[1] == raw[2]
  {
    var raw := [Draft("", Explore, []), Draft("a", Explore, []), Draft("b", Explore, []), Draft("c", Edit, [1])];
    assert KeptIndices(raw, 1) == [] && KeptIndices(raw, 2) == [1] && KeptIndices(raw, 3) == [1, 2];
    assert Below([1], 2) == [1] by {
      assert [1][1..] == [];
    }
  }
}
