/**
 What plan runs achieve: when a fresh plan completes, when a run leaves nothing queued, the
 progress property of the ready and blocked queries.
 */
module PlanOutcomes {
  import opened TodoSchedule

  // ---- fresh plans ----

  /** Nothing has started, and every dependency is a todo of the session. */
  ghost predicate Fresh(ts: seq<Todo>) {
    WellFormed(ts) && Closed(ts) && forall t :: t in ts ==> Startable(t.status)
  }

  ghost predicate Closed(ts: seq<Todo>) {
    forall i, d :: 0 <= i < |ts| && d in ts[i].deps ==> exists j :: 0 <= j < |ts| && ts[j].id == d
  }

  /** Explore todo `x` directly depends on edit todo `e`. */
  ghost predicate ExploreNeedsEdit(ts: seq<Todo>, x: nat, e: nat) {
    x < |ts| && e < |ts| && ts[x].kind.Explore? && ts[e].kind.Edit? && ts[e].id in ts[x].deps
  }

  lemma {:induction false} ExploresRun(ts: seq<Todo>, ok: Oracle, i: nat)
    requires Fresh(ts) && (forall s :: ok(s)) && i < |ts| && ts[i].kind.Explore?
    requires forall x, e :: !ExploreNeedsEdit(ts, x, e)
    ensures Runs(ts, ok, i, false)
  {
    assert ts[i] in ts;
    forall d | d in ts[i].deps
      ensures exists j: nat :: j < i && ts[j].id == d && Completes(ts, ok, j, false)
    {
      var j: nat :| j < |ts| && ts[j].id == d;
      assert !ExploreNeedsEdit(ts, i, j);
      ExploresRun(ts, ok, j);
      assert Completes(ts, ok, j, false);
    }
  }

  lemma {:induction false} EverythingRuns(ts: seq<Todo>, ok: Oracle, i: nat)
    requires Fresh(ts) && (forall s :: ok(s)) && i < |ts|
    ensures Runs(ts, ok, i, true)
  {
    assert ts[i] in ts;
    forall d | d in ts[i].deps
      ensures exists j: nat :: j < i && ts[j].id == d && Completes(ts, ok, j, true)
    {
      var j: nat :| j < |ts| && ts[j].id == d;
      EverythingRuns(ts, ok, j);
      assert Completes(ts, ok, j, true);
    }
  }

  /** A fresh plan whose every task would succeed completes exactly when no explore todo depends
      directly on an edit todo. One such edge leaves both of its ends queued. */
  lemma FreshPlanCompletesExactly(ts: seq<Todo>, ok: Oracle)
    requires Fresh(ts) && forall s :: ok(s)
    ensures (forall i: nat :: i < |ts| ==> FinalStatus(ts, ok, i) == Completed)
            <==> forall x: nat, e: nat :: !ExploreNeedsEdit(ts, x, e)
    ensures forall x: nat, e: nat :: ExploreNeedsEdit(ts, x, e) ==>
            FinalStatus(ts, ok, x) == ts[x].status && FinalStatus(ts, ok, e) == ts[e].status
  {
    if forall x: nat, e: nat :: !ExploreNeedsEdit(ts, x, e) {
      forall i: nat | i < |ts| && ts[i].kind.Explore?
        ensures Runs(ts, ok, i, false)
      {
        ExploresRun(ts, ok, i);
      }
      assert ExploresSettle(ts, ok);
      forall i: nat | i < |ts|
        ensures FinalStatus(ts, ok, i) == Completed
      {
        EverythingRuns(ts, ok, i);
      }
    }
    forall x: nat, e: nat | ExploreNeedsEdit(ts, x, e)
      ensures FinalStatus(ts, ok, x) == ts[x].status && FinalStatus(ts, ok, e) == ts[e].status
      ensures !Terminal(ts[e].status)
    {
      DeadlockedPair(ts, ok, x, e);
    }
  }

  lemma DeadlockedPair(ts: seq<Todo>, ok: Oracle, x: nat, e: nat)
    requires Fresh(ts) && (forall s :: ok(s)) && ExploreNeedsEdit(ts, x, e)
    ensures !Terminal(ts[x].status) && !Terminal(ts[e].status)
    ensures FinalStatus(ts, ok, x) == ts[x].status && FinalStatus(ts, ok, e) == ts[e].status
  {
    assert ts[x] in ts && ts[e] in ts;
    assert !Runs(ts, ok, e, false);
    assert forall j: nat :: j < |ts| && ts[j].id == ts[e].id ==> j == e;
    assert !Runs(ts, ok, x, false);
    assert !ExploresSettle(ts, ok);
    forall i: nat | i < |ts|
      ensures !EndsDead(ts, ok, i)
    {
      assert ts[i] in ts;
    }
  }

  function DeadlockedTodos(): seq<Todo> {
    [Todo("e", Edit, [], Queued), Todo("x", Explore, ["e"], Queued)]
  }

  lemma DeadlockShape()
    ensures var ts := DeadlockedTodos();
            Fresh(ts) && ExploreNeedsEdit(ts, 1, 0) && ExplorePending(ts) && CompletedIds(ts) == {} && DeadIds(ts) == {}
  {
    var ts := DeadlockedTodos();
    assert ts[0].id == "e";
    assert ts[1].kind.Explore? && !Terminal(ts[1].status);
  }

  /** The two-todo deadlock: the run reports completion although nothing has run. */
  lemma DeadlockIsReportedComplete()
    ensures var ts := DeadlockedTodos();
            var ok := (_: string) => true;
            Fresh(ts) && ReadyTodos(ts) == [] && BlockedTodos(ts) == []
            && FinalStatus(ts, ok, 0) == Queued && FinalStatus(ts, ok, 1) == Queued
            && !exists i: nat :: i < |ts| && WillRun(ts, ok, i) && !ok(ts[i].id)
  {
    var ts := DeadlockedTodos();
    var ok := (_: string) => true;
    DeadlockShape();
    DeadlockedPair(ts, ok, 1, 0);
    NothingMoves(ts);
  }

  lemma NothingMoves(ts: seq<Todo>)
    requires ts == DeadlockedTodos() && ExplorePending(ts) && CompletedIds(ts) == {} && DeadIds(ts) == {}
    ensures ReadyTodos(ts) == [] && BlockedTodos(ts) == []
  {
    assert !IsReady(ts, 0);
    assert !IsReady(ts, 1) by {
      assert "e" in ts[1].deps;
    }
    ReadyListIsHomogeneous(ts);
    BlockedLists(ts, 0);
  }

  // ---- what a run leaves queued ----

  ghost predicate Edge(ts: seq<Todo>, i: nat, j: nat) {
    i < |ts| && j < |ts| && ts[j].id in ts[i].deps
  }

  /** Todo `i` depends on todo `j`, directly or through others. */
  ghost predicate Reaches(ts: seq<Todo>, i: nat, j: nat)
    decreases i
  {
    j < i < |ts| && exists k: nat :: k < i && Edge(ts, i, k) && (k == j || Reaches(ts, k, j))
  }

  /** Everything todo `i` depends on succeeds, and an explore todo depends on explore todos only. */
  ghost predicate Clean(ts: seq<Todo>, ok: Oracle, i: nat) {
    i < |ts| && forall j: nat :: Reaches(ts, i, j) ==> ok(ts[j].id) && (ts[i].kind.Explore? ==> ts[j].kind.Explore?)
  }

  ghost predicate ExploresClean(ts: seq<Todo>, ok: Oracle) {
    forall x: nat :: x < |ts| && ts[x].kind.Explore? ==> Clean(ts, ok, x)
  }

  /** The first todo to fail on every way into it. */
  ghost predicate FirstFailure(ts: seq<Todo>, ok: Oracle, j: nat) {
    Clean(ts, ok, j) && !ok(ts[j].id)
  }

  /** Everything todo `i` depends on succeeds, and edits among it only if they are let through. */
  ghost predicate SucceedsBelow(ts: seq<Todo>, ok: Oracle, i: nat, gate: bool) {
    i < |ts| && forall j: nat :: Reaches(ts, i, j) ==> ok(ts[j].id) && (ts[j].kind.Edit? ==> gate)
  }

  lemma BelowStep(ts: seq<Todo>, ok: Oracle, i: nat, gate: bool)
    requires WellFormed(ts) && i < |ts|
    ensures SucceedsBelow(ts, ok, i, gate)
            <==> forall k: nat :: Edge(ts, i, k) ==> ok(ts[k].id) && (ts[k].kind.Edit? ==> gate) && SucceedsBelow(ts, ok, k, gate)
  {
    forall k: nat | Edge(ts, i, k)
      ensures Reaches(ts, i, k) && forall j: nat :: Reaches(ts, k, j) ==> Reaches(ts, i, j)
    {
      assert k < i;
    }
  }

  lemma RunsDown(ts: seq<Todo>, ok: Oracle, i: nat, k: nat, gate: bool)
    requires Fresh(ts) && Edge(ts, i, k) && Runs(ts, ok, i, gate)
    ensures Runs(ts, ok, k, gate) && ok(ts[k].id)
  {
    assert ts[k] in ts;
    var j: nat :| j < i && ts[j].id == ts[k].id && Completes(ts, ok, j, gate);
    assert j == k;
  }

  lemma RunsUp(ts: seq<Todo>, ok: Oracle, i: nat, gate: bool)
    requires Fresh(ts) && i < |ts| && (ts[i].kind.Edit? ==> gate)
    requires forall k: nat :: Edge(ts, i, k) ==> Runs(ts, ok, k, gate) && ok(ts[k].id)
    ensures Runs(ts, ok, i, gate)
  {
    assert ts[i] in ts;
    forall d | d in ts[i].deps
      ensures exists k: nat :: k < i && ts[k].id == d && Completes(ts, ok, k, gate)
    {
      var k: nat :| k < |ts| && ts[k].id == d;
      assert Edge(ts, i, k);
    }
  }

  lemma RunsStep(ts: seq<Todo>, ok: Oracle, i: nat, gate: bool)
    requires Fresh(ts) && i < |ts|
    ensures Runs(ts, ok, i, gate)
            <==> (ts[i].kind.Edit? ==> gate) && forall k: nat :: Edge(ts, i, k) ==> Runs(ts, ok, k, gate) && ok(ts[k].id)
  {
    if Runs(ts, ok, i, gate) {
      forall k: nat | Edge(ts, i, k)
        ensures Runs(ts, ok, k, gate) && ok(ts[k].id)
      {
        RunsDown(ts, ok, i, k, gate);
      }
    } else if (ts[i].kind.Edit? ==> gate) && forall k: nat :: Edge(ts, i, k) ==> Runs(ts, ok, k, gate) && ok(ts[k].id) {
      RunsUp(ts, ok, i, gate);
    }
  }

  lemma {:induction false} RunsByEdges(ts: seq<Todo>, ok: Oracle, i: nat, gate: bool)
    requires Fresh(ts) && i < |ts|
    ensures Runs(ts, ok, i, gate) <==> (ts[i].kind.Edit? ==> gate) && SucceedsBelow(ts, ok, i, gate)
  {
    hide Runs, SucceedsBelow, Reaches;
    RunsStep(ts, ok, i, gate);
    BelowStep(ts, ok, i, gate);
    forall k: nat | Edge(ts, i, k)
      ensures Runs(ts, ok, k, gate) <==> (ts[k].kind.Edit? ==> gate) && SucceedsBelow(ts, ok, k, gate)
    {
      RunsByEdges(ts, ok, k, gate);
    }
  }

  /** Edits are let through exactly if every explore todo is clean; then a todo gets to run
      exactly if it is clean. */
  lemma WillRunByEdges(ts: seq<Todo>, ok: Oracle, i: nat)
    requires Fresh(ts) && i < |ts|
    ensures ExploresSettle(ts, ok) <==> ExploresClean(ts, ok)
    ensures WillRun(ts, ok, i) <==> Clean(ts, ok, i) && (ts[i].kind.Explore? || ExploresClean(ts, ok))
  {
    hide Runs;
    forall x: nat | x < |ts|
      ensures ts[x].kind.Explore? ==> (Runs(ts, ok, x, false) <==> Clean(ts, ok, x)) && !Terminal(ts[x].status)
    {
      assert ts[x] in ts;
      RunsByEdges(ts, ok, x, false);
    }
    RunsByEdges(ts, ok, i, true);
    RunsByEdges(ts, ok, i, false);
  }

  /** Todo `i` depends directly on a first failure, which is an explore todo or edits get through. */
  ghost predicate NextToFailure(ts: seq<Todo>, ok: Oracle, i: nat) {
    exists j: nat :: Edge(ts, i, j) && FirstFailure(ts, ok, j) && (ts[j].kind.Explore? || ExploresClean(ts, ok))
  }

  /** The status each todo of a fresh plan ends with, read off the edges and the outcomes of the
      single tasks. */
  lemma StatusByEdges(ts: seq<Todo>, ok: Oracle, i: nat)
    requires Fresh(ts) && i < |ts|
    ensures FinalStatus(ts, ok, i)
            == if Clean(ts, ok, i) && (ts[i].kind.Explore? || ExploresClean(ts, ok)) then Settled(ok, ts[i].id)
               else if NextToFailure(ts, ok, i) then Blocked
               else ts[i].status
  {
    hide Clean, ExploresClean, WillRun;
    WillRunByEdges(ts, ok, i);
    assert ts[i] in ts;
    forall j: nat | j < |ts|
      ensures EndsDead(ts, ok, j) <==> FirstFailure(ts, ok, j) && (ts[j].kind.Explore? || ExploresClean(ts, ok))
    {
      WillRunByEdges(ts, ok, j);
      assert ts[j] in ts;
    }
    if NextToFailure(ts, ok, i) {
      var j: nat :| Edge(ts, i, j) && FirstFailure(ts, ok, j) && (ts[j].kind.Explore? || ExploresClean(ts, ok));
      assert EndsDead(ts, ok, j);
    }
    if DirectlyDead(ts, ok, i) {
      var j: nat :| j < |ts| && ts[j].id in ts[i].deps && EndsDead(ts, ok, j);
      assert Edge(ts, i, j);
    }
  }

  /** The marking pass is meant to leave nothing queued. It does so exactly in these cases. If
      every explore todo is clean: when every edit that is not depends directly on a first
      failure. Otherwise no edit runs: when every edit, and every explore todo that is not clean,
      depends directly on an explore todo that is a first failure. Being further down the chain is
      not enough, since the pass is made once. */
  lemma NothingLeftQueuedExactly(ts: seq<Todo>, ok: Oracle)
    requires Fresh(ts)
    ensures (forall i: nat :: i < |ts| ==> Terminal(FinalStatus(ts, ok, i)))
            <==> if ExploresClean(ts, ok) then
                   forall i: nat :: i < |ts| && ts[i].kind.Edit? && !Clean(ts, ok, i) ==>
                     exists j: nat :: Edge(ts, i, j) && FirstFailure(ts, ok, j)
                 else
                   forall i: nat :: i < |ts| && (ts[i].kind.Edit? || !Clean(ts, ok, i)) ==>
                     exists j: nat :: Edge(ts, i, j) && FirstFailure(ts, ok, j) && ts[j].kind.Explore?
  {
    hide Clean, ExploresClean, FinalStatus, FirstFailure;
    forall i: nat | i < |ts|
      ensures Terminal(FinalStatus(ts, ok, i))
              <==> (Clean(ts, ok, i) && (ts[i].kind.Explore? || ExploresClean(ts, ok))) || NextToFailure(ts, ok, i)
    {
      StatusByEdges(ts, ok, i);
      assert ts[i] in ts;
    }
    if ExploresClean(ts, ok) {
      ExploresAreClean(ts, ok);
    }
  }

  lemma ExploresAreClean(ts: seq<Todo>, ok: Oracle)
    requires ExploresClean(ts, ok)
    ensures forall x: nat :: x < |ts| && ts[x].kind.Explore? ==> Clean(ts, ok, x)
  {
  }

  /** Once an explore todo is not clean, no edit runs, and exactly those edits are marked that
      depend directly on an explore todo that is a first failure; the others stay as they were. */
  lemma FailedExploreHoldsEdits(ts: seq<Todo>, ok: Oracle, x: nat, e: nat)
    requires Fresh(ts) && x < |ts| && ts[x].kind.Explore? && !Clean(ts, ok, x) && e < |ts| && ts[e].kind.Edit?
    ensures FinalStatus(ts, ok, e)
            == if exists j: nat :: Edge(ts, e, j) && FirstFailure(ts, ok, j) && ts[j].kind.Explore? then Blocked else ts[e].status
  {
    hide Clean, FinalStatus, FirstFailure;
    StatusByEdges(ts, ok, e);
  }

  /** So an explore todo behind a failed one holds back even an edit that depends on nothing, and no
      mark reaches that edit. */
  lemma FailedExploreHoldsUnrelatedEdits(ts: seq<Todo>, ok: Oracle, x: nat, y: nat, e: nat)
    requires Fresh(ts) && Edge(ts, y, x) && ts[y].kind.Explore? && !ok(ts[x].id)
    requires e < |ts| && ts[e].kind.Edit? && ts[e].deps == []
    ensures FinalStatus(ts, ok, e) == ts[e].status
  {
    assert Reaches(ts, y, x);
    FailedExploreHoldsEdits(ts, ok, y, e);
  }

  function HeldTodos(): seq<Todo> {
    [Todo("x", Explore, [], Queued), Todo("y", Explore, ["x"], Queued), Todo("e", Edit, [], Queued)]
  }

  lemma HeldShape()
    ensures var ts := HeldTodos();
            Fresh(ts) && ts[0].id == "x" && ts[1].id == "y" && ts[2].id == "e" && Edge(ts, 1, 0) && forall j :: !Edge(ts, 0, j)
  {
    var ts := HeldTodos();
    assert ts[0].id == "x" && ts[1].id == "y" && ts[2].id == "e";
    assert "x" in ts[1].deps;
  }

  /** For one: the first explore todo fails, the second is marked, the edit stays queued. */
  lemma HeldEditStaysQueued()
    ensures var ts := HeldTodos();
            var ok := (s: string) => s != "x";
            Fresh(ts) && FinalStatus(ts, ok, 0) == Failed && FinalStatus(ts, ok, 1) == Blocked && FinalStatus(ts, ok, 2) == Queued
  {
    HeldShape();
    HeldStatuses(HeldTodos(), (s: string) => s != "x");
  }

  lemma HeldStatuses(ts: seq<Todo>, ok: Oracle)
    requires ts == HeldTodos() && Fresh(ts) && Edge(ts, 1, 0) && (forall j :: !Edge(ts, 0, j)) && !ok(ts[0].id)
    ensures FinalStatus(ts, ok, 0) == Failed && FinalStatus(ts, ok, 1) == Blocked && FinalStatus(ts, ok, 2) == Queued
  {
    hide FinalStatus;
    FailedExploreHoldsUnrelatedEdits(ts, ok, 0, 1, 2);
    assert Reaches(ts, 1, 0) && FirstFailure(ts, ok, 0);
    StatusByEdges(ts, ok, 0);
    StatusByEdges(ts, ok, 1);
  }

  function ChainTodos(): seq<Todo> {
    [Todo("a", Edit, [], Queued), Todo("b", Edit, ["a"], Queued), Todo("c", Edit, ["b"], Queued)]
  }

  lemma ChainShape()
    ensures var ts := ChainTodos();
            Fresh(ts) && ts[0].id == "a" && ts[1].id == "b" && ts[2].id == "c"
            && Edge(ts, 1, 0) && Edge(ts, 2, 1) && !Edge(ts, 2, 0) && (forall j :: !Edge(ts, 0, j)) && forall j :: Edge(ts, 2, j) ==> j == 1
  {
    var ts := ChainTodos();
    assert ts[0].id == "a" && ts[1].id == "b" && ts[2].id == "c";
    assert "a" in ts[1].deps && "b" in ts[2].deps;
  }

  /** A chain of three whose first todo fails: the second is marked, the third stays queued. */
  lemma ChainStaysQueued()
    ensures var ts := ChainTodos();
            var ok := (s: string) => s != "a";
            Fresh(ts) && FinalStatus(ts, ok, 0) == Failed && FinalStatus(ts, ok, 1) == Blocked && FinalStatus(ts, ok, 2) == Queued
  {
    ChainShape();
    ChainStatuses(ChainTodos(), (s: string) => s != "a");
  }

  lemma ChainStatuses(ts: seq<Todo>, ok: Oracle)
    requires Fresh(ts) && |ts| == 3 && (forall t :: t in ts ==> t.kind.Edit? && t.status.Queued?) && !ok(ts[0].id)
    requires Edge(ts, 1, 0) && Edge(ts, 2, 1) && (forall j :: !Edge(ts, 0, j)) && forall j :: Edge(ts, 2, j) ==> j == 1
    ensures FinalStatus(ts, ok, 0) == Failed && FinalStatus(ts, ok, 1) == Blocked && FinalStatus(ts, ok, 2) == Queued
  {
    hide FinalStatus;
    assert ts[0] in ts && ts[1] in ts && ts[2] in ts;
    assert ExploresClean(ts, ok) && FirstFailure(ts, ok, 0);
    assert Reaches(ts, 1, 0);
    assert Reaches(ts, 2, 0);
    StatusByEdges(ts, ok, 0);
    StatusByEdges(ts, ok, 1);
    StatusByEdges(ts, ok, 2);
  }

  // ---- progress of the queries, for any executor ----

  ghost predicate Unfinished(ts: seq<Todo>, i: nat) {
    i < |ts| && !Terminal(ts[i].status)
  }

  /** Without an unfinished edit below an unfinished explore. */
  ghost predicate Unlocked(ts: seq<Todo>) {
    forall x: nat, e: nat :: Unfinished(ts, x) && Unfinished(ts, e) ==> !ExploreNeedsEdit(ts, x, e)
  }

  ghost predicate Schedulable(ts: seq<Todo>) {
    WellFormed(ts) && Closed(ts) && Unlocked(ts) && forall i: nat :: Unfinished(ts, i) ==> Startable(ts[i].status)
  }

  lemma {:induction false} LeastUnfinished(ts: seq<Todo>, i: nat, exploreOnly: bool) returns (least: nat)
    requires Unfinished(ts, i) && (exploreOnly ==> ts[i].kind.Explore?)
    ensures Unfinished(ts, least) && (exploreOnly ==> ts[least].kind.Explore?)
    ensures forall k: nat :: k < least && (exploreOnly ==> ts[k].kind.Explore?) ==> !Unfinished(ts, k)
  {
    if k: nat :| k < i && (exploreOnly ==> ts[k].kind.Explore?) && Unfinished(ts, k) {
      least := LeastUnfinished(ts, k, exploreOnly);
    } else {
      least := i;
    }
  }

  lemma FinishedDepsDecide(ts: seq<Todo>, i: nat)
    requires WellFormed(ts) && Closed(ts) && i < |ts| && Startable(ts[i].status)
    requires ts[i].kind.Edit? ==> !ExplorePending(ts)
    requires forall j: nat :: j < |ts| && ts[j].id in ts[i].deps ==> Terminal(ts[j].status)
    ensures IsReady(ts, i) || IsBlocked(ts, i)
  {
    if !IsBlocked(ts, i) {
      forall d | d in ts[i].deps
        ensures d in CompletedIds(ts)
      {
        var j: nat :| j < |ts| && ts[j].id == d;
        assert Terminal(ts[j].status);
        assert d !in DeadIds(ts);
      }
    }
  }

  /** Progress: with an unfinished todo and none running, something is ready or blocked. */
  lemma Progress(ts: seq<Todo>, i: nat)
    requires Schedulable(ts) && Unfinished(ts, i)
    ensures exists k: nat :: k < |ts| && (IsReady(ts, k) || IsBlocked(ts, k))
  {
    var k: nat;
    if x: nat :| x < |ts| && ts[x].kind.Explore? && !Terminal(ts[x].status) {
      k := LeastUnfinished(ts, x, true);
    } else {
      k := LeastUnfinished(ts, i, false);
    }
    assert forall j: nat :: Unfinished(ts, j) ==> !ExploreNeedsEdit(ts, k, j);
    assert forall j: nat :: j < k && Unfinished(ts, j) ==> ts[k].kind.Explore? && ts[j].kind.Edit?;
    assert forall j: nat :: j < |ts| && !Terminal(ts[j].status) ==> Unfinished(ts, j);
    FinishedDepsDecide(ts, k);
  }

  /** One move of any executor: it settles a ready todo in any way, or marks a blocked one. */
  ghost predicate Move(ts: seq<Todo>, k: nat, s: Status, next: seq<Todo>) {
    k < |ts| && (IsReady(ts, k) || (IsBlocked(ts, k) && s.Blocked?)) && Terminal(s) && next == ts[k := ts[k].(status := s)]
  }

  ghost predicate Stuck(ts: seq<Todo>) {
    forall k: nat :: k < |ts| ==> !IsReady(ts, k) && !IsBlocked(ts, k)
  }

  ghost function UnfinishedSet(ts: seq<Todo>): set<nat> {
    set i: nat | i < |ts| && Unfinished(ts, i)
  }

  lemma MoveKeepsGraph(ts: seq<Todo>, k: nat, s: Status)
    requires WellFormed(ts) && Closed(ts) && k < |ts|
    ensures WellFormed(ts[k := ts[k].(status := s)]) && Closed(ts[k := ts[k].(status := s)])
  {
    var next := ts[k := ts[k].(status := s)];
    forall i, d | 0 <= i < |next| && d in next[i].deps
      ensures exists j :: 0 <= j < |next| && next[j].id == d
    {
      assert d in ts[i].deps;
      var j :| 0 <= j < |ts| && ts[j].id == d;
      assert next[j].id == d;
    }
  }

  lemma MoveShrinks(ts: seq<Todo>, k: nat, s: Status, next: seq<Todo>)
    requires Schedulable(ts) && Move(ts, k, s, next)
    ensures Schedulable(next) && |UnfinishedSet(next)| == |UnfinishedSet(ts)| - 1
  {
    MoveKeepsGraph(ts, k, s);
    assert forall i: nat :: Unfinished(next, i) <==> Unfinished(ts, i) && i != k;
    forall x: nat, e: nat | Unfinished(next, x) && Unfinished(next, e)
      ensures !ExploreNeedsEdit(next, x, e)
    {
      assert !ExploreNeedsEdit(ts, x, e);
    }
    assert UnfinishedSet(next) == UnfinishedSet(ts) - {k};
  }

  /** States, and the moves between them. */
  ghost predicate IsRun(states: seq<seq<Todo>>, moves: seq<(nat, Status)>) {
    |states| == |moves| + 1
    && forall n :: 0 <= n < |moves| ==> Move(states[n], moves[n].0, moves[n].1, states[n + 1])
  }

  /** Every run of moves finishes one todo a move; one that cannot be continued has finished
      them all. */
  lemma {:induction false} EveryExecutorFinishes(states: seq<seq<Todo>>, moves: seq<(nat, Status)>)
    requires IsRun(states, moves) && Schedulable(states[0])
    ensures |moves| == |UnfinishedSet(states[0])| - |UnfinishedSet(states[|moves|])|
    ensures Stuck(states[|moves|]) ==> UnfinishedSet(states[|moves|]) == {}
    decreases |moves|
  {
    if moves == [] {
      var ts := states[0];
      if i: nat :| Unfinished(ts, i) {
        Progress(ts, i);
      }
    } else {
      MoveShrinks(states[0], moves[0].0, moves[0].1, states[1]);
      var rest, later := states[1..], moves[1..];
      forall n | 0 <= n < |later|
        ensures Move(rest[n], later[n].0, later[n].1, rest[n + 1])
      {
        assert rest[n] == states[n + 1] && rest[n + 1] == states[n + 2] && later[n] == moves[n + 1];
      }
      EveryExecutorFinishes(rest, later);
    }
  }
}
