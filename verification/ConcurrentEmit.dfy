/**
 Concurrent emits on one session. Hydration check, log read, hydration commit, number taking,
 ring push and log send are separate atomic steps of any number of threads, as the locks leave
 them; the writer is one more thread. Events are represented by their numbers.
 */
module ConcurrentEmit {
  import opened Wrappers

  /** Where a thread stands in `emit_inner`. */
  datatype Pc =
    | Idle
    | Checked                      // the session was not hydrated when looked at
    | HasRead(events: seq<int>)    // the log as read, outside the lock
    | Past                         // hydration is done with
    | Holding(n: int)              // a number was taken
    | Pushed(n: int)               // the event is in the ring, not yet sent to the writer

  /** `issued` records every number taken in this process, in order, and `sent` every one sent to
      the writer. */
  datatype World = World(hydrated: bool, counter: int, ring: seq<int>, queue: seq<int>, log: seq<int>,
                         pcs: map<nat, Pc>, issued: seq<int>, sent: seq<int>) {
    function At(t: nat): Pc {
      if t in pcs then pcs[t] else Idle
    }

    function Go(t: nat, pc: Pc): World {
      this.(pcs := pcs[t := pc])
    }
  }

  datatype Action =
    | Check(t: nat)
    | Read(t: nat)
    | Commit(t: nat)
    | Take(t: nat)
    | Push(t: nat)
    | Send(t: nat)
    | Skip(t: nat)   // an ephemeral event is not sent
    | Write          // the writer performs one append

  function Last(s: seq<int>, cap: Option<nat>): seq<int> {
    if cap.Some? && |s| > cap.value then s[|s| - cap.value..] else s
  }

  function Largest(s: seq<int>): int
    requires s != []
  {
    if |s| == 1 then s[0] else if s[0] > Largest(s[1..]) then s[0] else Largest(s[1..])
  }

  function Top(log: seq<int>): int {
    if log == [] then 0 else Largest(log)
  }

  /** One atomic step; a step that is not enabled changes nothing. */
  function Do(w: World, cap: Option<nat>, a: Action): World {
    match a
    case Check(t) => if w.At(t) != Idle then w else w.Go(t, if w.hydrated then Past else Checked)
    case Read(t) => if w.At(t) != Checked then w else w.Go(t, HasRead(w.log))
    case Commit(t) =>
      if !w.At(t).HasRead? then w
      else
        var events := w.At(t).events;
        var past := w.Go(t, Past);
        if w.hydrated then past
        else if events == [] || w.ring != [] || w.counter != 0 then past.(hydrated := true)
        else past.(hydrated := true, ring := Last(events, cap), counter := Largest(events))
    case Take(t) =>
      if w.At(t) != Past then w
      else w.Go(t, Holding(w.counter + 1)).(counter := w.counter + 1, issued := w.issued + [w.counter + 1])
    case Push(t) =>
      if !w.At(t).Holding? then w
      else
        var n := w.At(t).n;
        w.Go(t, Pushed(n)).(hydrated := true, ring := Last(w.ring + [n], cap), counter := if n > w.counter then n else w.counter)
    case Send(t) => if !w.At(t).Pushed? then w else w.Go(t, Idle).(queue := w.queue + [w.At(t).n], sent := w.sent + [w.At(t).n])
    case Skip(t) => if !w.At(t).Pushed? then w else w.Go(t, Idle)
    case Write => if w.queue == [] then w else w.(log := w.log + [w.queue[0]], queue := w.queue[1..])
  }

  function Start(log: seq<int>): World {
    World(false, 0, [], [], log, map[], [], [])
  }

  /** Any interleaving is a list of actions. */
  function RunAll(log: seq<int>, cap: Option<nat>, actions: seq<Action>): World {
    if actions == [] then Start(log)
    else Do(RunAll(log, cap, actions[..|actions| - 1]), cap, actions[|actions| - 1])
  }

  // ---- the invariant ----

  ghost predicate Increasing(s: seq<int>) {
    forall i, j :: 0 <= i < j < |s| ==> s[i] < s[j]
  }

  ghost predicate NoRepeats(s: seq<int>) {
    forall i, j :: 0 <= i < j < |s| ==> s[i] != s[j]
  }

  /** The number a thread has taken and not yet finished with. */
  predicate Has(w: World, t: nat, n: int) {
    (w.At(t).Holding? || w.At(t).Pushed?) && w.At(t).n == n
  }

  /** Numbers were issued in increasing order, above everything logged before, up to the counter. */
  ghost predicate Issuing(w: World, log0: seq<int>) {
    Increasing(w.issued) && forall n :: n in w.issued ==> Top(log0) < n <= w.counter
  }

  /** Before hydration nothing has happened to the session. */
  ghost predicate Untouched(w: World, log0: seq<int>) {
    w.counter == 0 && w.ring == [] && w.queue == [] && w.log == log0 && w.issued == [] && w.sent == []
    && forall t :: w.At(t).Idle? || w.At(t).Checked? || w.At(t) == HasRead(log0)
  }

  /** Every issued number is in one place: with one thread, sent, or dropped. */
  ghost predicate OnePlace(w: World) {
    NoRepeats(w.sent)
    && (forall n :: n in w.sent ==> n in w.issued)
    && (forall t, n :: Has(w, t, n) ==> n in w.issued && n !in w.sent)
    && (forall t, u, n :: Has(w, t, n) && Has(w, u, n) ==> t == u)
  }

  /** The ring holds no number twice, and none still on its way there. */
  ghost predicate RingOk(w: World, log0: seq<int>) {
    NoRepeats(w.ring)
    && (forall n :: n in w.ring ==> n in log0 || n in w.issued)
    && (forall t, n :: w.At(t) == Holding(n) ==> n !in w.ring)
  }

  ghost predicate Inv(w: World, log0: seq<int>) {
    (if w.hydrated then 0 <= Top(log0) <= w.counter && Issuing(w, log0) else Untouched(w, log0))
    && OnePlace(w) && RingOk(w, log0) && w.log + w.queue == log0 + w.sent
  }

  /** What the log a process starts on is like. */
  ghost predicate GoodLog(log: seq<int>) {
    NoRepeats(log) && 0 <= Top(log) && forall n :: n in log ==> 0 < n <= Top(log)
  }

  lemma GoodLogs(log: seq<int>)
    requires NoRepeats(log) && forall n :: n in log ==> n > 0
    ensures GoodLog(log)
  {
    if log != [] {
      LargestIsTop(log);
      assert Top(log) == Largest(log) && Largest(log) > 0;
    }
  }

  lemma {:induction false} LargestIsTop(s: seq<int>)
    requires s != []
    ensures Largest(s) in s && forall n :: n in s ==> n <= Largest(s)
  {
    if |s| > 1 {
      LargestIsTop(s[1..]);
      assert s == [s[0]] + s[1..];
    }
  }

  lemma LastKeeps(s: seq<int>, cap: Option<nat>)
    requires NoRepeats(s)
    ensures NoRepeats(Last(s, cap)) && forall n :: n in Last(s, cap) ==> n in s
  {
  }

  lemma SnocNoRepeats(s: seq<int>, n: int)
    requires NoRepeats(s) && n !in s
    ensures NoRepeats(s + [n]) && forall m :: m in s + [n] <==> m in s || m == n
  {
    JoinNoRepeats(s, [n]);
  }

  lemma SnocIncreasing(s: seq<int>, n: int)
    requires Increasing(s) && forall m :: m in s ==> m < n
    ensures Increasing(s + [n])
  {
    assert forall i :: 0 <= i < |s| ==> s[i] in s;
  }

  lemma JoinNoRepeats(a: seq<int>, b: seq<int>)
    requires NoRepeats(a) && NoRepeats(b) && forall n :: n in b ==> n !in a
    ensures NoRepeats(a + b)
  {
    assert forall i :: 0 <= i < |a| ==> a[i] in a;
    assert forall i :: 0 <= i < |b| ==> b[i] in b;
  }

  /** What a step does to the other threads: nothing. */
  lemma GoMoves(w: World, t: nat, pc: Pc)
    ensures forall u :: w.Go(t, pc).At(u) == if u == t then pc else w.At(u)
  {
  }

  lemma CommitKeeps(w: World, cap: Option<nat>, t: nat, log0: seq<int>)
    requires Inv(w, log0) && GoodLog(log0)
    ensures Inv(Do(w, cap, Commit(t)), log0)
  {
    GoMoves(w, t, Past);
    var next := Do(w, cap, Commit(t));
    assert forall u, n :: Has(next, u, n) ==> Has(w, u, n);
    assert forall u, n :: next.At(u) == Holding(n) ==> w.At(u) == Holding(n);
    if w.At(t).HasRead? && !w.hydrated {
      assert w.At(t) == HasRead(log0);
      LastKeeps(log0, cap);
      assert forall u, n :: !Has(w, u, n);
      assert forall u, n :: next.At(u) != Holding(n);
      assert next.counter == Top(log0);
    }
  }

  lemma TakeKeeps(w: World, cap: Option<nat>, t: nat, log0: seq<int>)
    requires Inv(w, log0) && GoodLog(log0)
    ensures Inv(Do(w, cap, Take(t)), log0)
  {
    if w.At(t) == Past {
      var n := w.counter + 1;
      var next := Do(w, cap, Take(t));
      GoMoves(w, t, Holding(n));
      assert w.hydrated && n !in w.issued && n !in log0;
      SnocIncreasing(w.issued, n);
      assert forall m :: m in next.issued <==> m in w.issued || m == n;
      assert forall u, m :: Has(next, u, m) <==> (if u == t then m == n else Has(w, u, m));
      assert forall u, m :: next.At(u) == Holding(m) ==> (if u == t then m == n else w.At(u) == Holding(m));
    }
  }

  lemma PushedRing(ring: seq<int>, n: int, cap: Option<nat>)
    requires NoRepeats(ring) && n !in ring
    ensures NoRepeats(Last(ring + [n], cap)) && forall m :: m in Last(ring + [n], cap) ==> m in ring || m == n
  {
    SnocNoRepeats(ring, n);
    LastKeeps(ring + [n], cap);
  }

  lemma PushKeepsRing(w: World, cap: Option<nat>, t: nat, log0: seq<int>)
    requires w.At(t).Holding? && OnePlace(w) && RingOk(w, log0)
    ensures RingOk(Do(w, cap, Push(t)), log0)
  {
    var n := w.At(t).n;
    var next := Do(w, cap, Push(t));
    GoMoves(w, t, Pushed(n));
    assert Has(w, t, n);
    PushedRing(w.ring, n, cap);
    assert forall u, m :: next.At(u) == Holding(m) ==> u != t && w.At(u) == Holding(m) && Has(w, u, m);
  }

  lemma PushKeeps(w: World, cap: Option<nat>, t: nat, log0: seq<int>)
    requires Inv(w, log0)
    ensures Inv(Do(w, cap, Push(t)), log0)
  {
    if w.At(t).Holding? {
      PushKeepsRing(w, cap, t, log0);
      var n := w.At(t).n;
      var next := Do(w, cap, Push(t));
      GoMoves(w, t, Pushed(n));
      assert Has(w, t, n);
      assert w.hydrated;
      assert forall u, m :: Has(next, u, m) <==> Has(w, u, m);
    }
  }

  lemma SendKeeps(w: World, cap: Option<nat>, t: nat, log0: seq<int>)
    requires Inv(w, log0)
    ensures Inv(Do(w, cap, Send(t)), log0)
  {
    if w.At(t).Pushed? {
      var n := w.At(t).n;
      var next := Do(w, cap, Send(t));
      GoMoves(w, t, Idle);
      assert Has(w, t, n);
      assert w.hydrated;
      SnocNoRepeats(w.sent, n);
      assert forall u, m :: Has(next, u, m) ==> u != t && Has(w, u, m);
      assert forall u, m :: next.At(u) == Holding(m) ==> w.At(u) == Holding(m);
      assert next.log + next.queue == (w.log + w.queue) + [n];
      assert log0 + next.sent == (log0 + w.sent) + [n];
    }
  }

  lemma WriteKeeps(w: World, cap: Option<nat>, log0: seq<int>)
    requires Inv(w, log0)
    ensures Inv(Do(w, cap, Write), log0)
  {
    var next := Do(w, cap, Write);
    if w.queue != [] {
      assert w.hydrated;
      assert forall u :: next.At(u) == w.At(u);
      assert forall u, m :: Has(next, u, m) <==> Has(w, u, m);
      assert next.log + next.queue == w.log + w.queue;
    }
  }

  /** The remaining steps take nothing and finish nothing. */
  lemma QuietStepKeeps(w: World, cap: Option<nat>, a: Action, log0: seq<int>)
    requires Inv(w, log0) && (a.Check? || a.Read? || a.Skip?)
    ensures Inv(Do(w, cap, a), log0)
  {
    var next := Do(w, cap, a);
    if next != w {
      GoMoves(w, a.t, next.At(a.t));
      assert forall u, m :: Has(next, u, m) ==> Has(w, u, m);
      assert forall u, m :: next.At(u) == Holding(m) ==> w.At(u) == Holding(m);
    }
  }

  lemma StepKeeps(w: World, cap: Option<nat>, a: Action, log0: seq<int>)
    requires Inv(w, log0) && GoodLog(log0)
    ensures Inv(Do(w, cap, a), log0)
  {
    match a
    case Commit(t) => CommitKeeps(w, cap, t, log0);
    case Take(t) => TakeKeeps(w, cap, t, log0);
    case Push(t) => PushKeeps(w, cap, t, log0);
    case Send(t) => SendKeeps(w, cap, t, log0);
    case Write => WriteKeeps(w, cap, log0);
    case _ => QuietStepKeeps(w, cap, a, log0);
  }

  lemma {:induction false} EveryInterleavingKeeps(log: seq<int>, cap: Option<nat>, actions: seq<Action>)
    requires GoodLog(log)
    ensures Inv(RunAll(log, cap, actions), log)
    decreases |actions|
  {
    if actions == [] {
      assert Untouched(Start(log), log);
      assert log + [] == log;
    } else {
      EveryInterleavingKeeps(log, cap, actions[..|actions| - 1]);
      StepKeeps(RunAll(log, cap, actions[..|actions| - 1]), cap, actions[|actions| - 1], log);
    }
  }

  /** Over every interleaving: log and queue never hold a number twice, every number issued is
      above the log the process started on, and no two unfinished emits share one, nor has the
      writer got it. */
  lemma NumbersNeverClash(log: seq<int>, cap: Option<nat>, actions: seq<Action>)
    requires NoRepeats(log) && forall n :: n in log ==> n > 0
    ensures var w := RunAll(log, cap, actions);
            NoRepeats(w.log + w.queue) && NoRepeats(w.ring) && Increasing(w.issued)
            && (forall n :: n in w.issued ==> n <= w.counter && forall m :: m in log ==> m < n)
            && (forall t, u, n :: Has(w, t, n) && Has(w, u, n) ==> t == u)
            && (forall t, n :: Has(w, t, n) ==> n !in w.log + w.queue)
  {
    GoodLogs(log);
    EveryInterleavingKeeps(log, cap, actions);
    var w := RunAll(log, cap, actions);
    JoinNoRepeats(log, w.sent);
  }

  // ---- nothing is lost on the way ----

  /** The number is with a thread or was sent. */
  ghost predicate Kept(w: World, n: int) {
    n in w.sent || exists t :: Has(w, t, n)
  }

  /** The thread that has the number gives it up as that of an ephemeral event. */
  ghost predicate Skips(w: World, a: Action, n: int) {
    a.Skip? && w.At(a.t) == Pushed(n)
  }

  lemma StepLosesNothing(w: World, cap: Option<nat>, a: Action, n: int)
    requires (n in w.issued ==> Kept(w, n)) && n in Do(w, cap, a).issued && !Skips(w, a, n)
    ensures Kept(Do(w, cap, a), n)
  {
    var next := Do(w, cap, a);
    if n in w.issued && n !in w.sent {
      var t :| Has(w, t, n);
      if !a.Write? && a.t != t {
        GoMoves(w, a.t, next.At(a.t));
      }
      assert Has(next, t, n) || n in next.sent;
    } else if n !in w.issued {
      assert Has(next, a.t, n);
    }
  }

  /** Some action up to the k-th gave the number up. */
  ghost predicate Skipped(log: seq<int>, cap: Option<nat>, actions: seq<Action>, n: int) {
    exists k :: 0 <= k < |actions| && Skips(RunAll(log, cap, actions[..k]), actions[k], n)
  }

  lemma {:induction false} IssuedIsKept(log: seq<int>, cap: Option<nat>, actions: seq<Action>, n: int)
    requires n in RunAll(log, cap, actions).issued && !Skipped(log, cap, actions, n)
    ensures Kept(RunAll(log, cap, actions), n)
    decreases |actions|
  {
    var k := |actions| - 1;
    var before := actions[..k];
    var w := RunAll(log, cap, before);
    forall i | 0 <= i < k
      ensures !Skips(RunAll(log, cap, before[..i]), before[i], n)
    {
      assert before[..i] == actions[..i];
    }
    if n in w.issued {
      IssuedIsKept(log, cap, before, n);
    }
    StepLosesNothing(w, cap, actions[k], n);
  }

  /** Over every interleaving: each number issued is with a thread that has still to send it, in
      the queue, in the log, or was given up as that of an ephemeral event. */
  lemma NothingIsLost(log: seq<int>, cap: Option<nat>, actions: seq<Action>, n: int)
    requires NoRepeats(log) && forall n :: n in log ==> n > 0
    requires n in RunAll(log, cap, actions).issued
    ensures var w := RunAll(log, cap, actions);
            (exists t :: Has(w, t, n)) || n in w.queue || n in w.log || Skipped(log, cap, actions, n)
  {
    GoodLogs(log);
    EveryInterleavingKeeps(log, cap, actions);
    var w := RunAll(log, cap, actions);
    if !Skipped(log, cap, actions, n) {
      IssuedIsKept(log, cap, actions, n);
      assert n in w.sent ==> n in log + w.sent;
      assert n in w.log + w.queue ==> n in w.log || n in w.queue;
    }
  }

  ghost predicate Consecutive(w: World, top: int) {
    (if w.hydrated then w.counter == top + |w.issued| else w.issued == [])
    && forall i :: 0 <= i < |w.issued| ==> w.issued[i] == top + 1 + i
  }

  /** The numbers issued are the ones after the log's last, without a hole. */
  lemma {:induction false} NumbersAreConsecutive(log: seq<int>, cap: Option<nat>, actions: seq<Action>)
    requires NoRepeats(log) && forall n :: n in log ==> n > 0
    ensures Consecutive(RunAll(log, cap, actions), Top(log))
    ensures if log == [] then Top(log) == 0 else Top(log) in log && forall n :: n in log ==> n <= Top(log)
    decreases |actions|
  {
    GoodLogs(log);
    if log != [] {
      LargestIsTop(log);
    }
    if actions != [] {
      var before := actions[..|actions| - 1];
      NumbersAreConsecutive(log, cap, before);
      EveryInterleavingKeeps(log, cap, before);
      StepCounts(RunAll(log, cap, before), cap, actions[|actions| - 1], log);
    }
  }

  lemma StepCounts(w: World, cap: Option<nat>, a: Action, log0: seq<int>)
    requires Inv(w, log0) && GoodLog(log0) && Consecutive(w, Top(log0))
    ensures Consecutive(Do(w, cap, a), Top(log0))
  {
    match a
    case Push(t) =>
      if w.At(t).Holding? {
        assert Has(w, t, w.At(t).n);
      }
    case Commit(t) =>
      if w.At(t).HasRead? && !w.hydrated {
        assert w.At(t) == HasRead(log0);
      }
    case _ =>
  }

  // ---- what the ring keeps ----

  lemma {:induction false} RingFits(log: seq<int>, cap: Option<nat>, actions: seq<Action>)
    ensures cap.Some? ==> |RunAll(log, cap, actions).ring| <= cap.value
    decreases |actions|
  {
    hide Do;
    if actions != [] {
      RingFits(log, cap, actions[..|actions| - 1]);
      StepFits(RunAll(log, cap, actions[..|actions| - 1]), cap, actions[|actions| - 1]);
    }
  }

  lemma StepFits(w: World, cap: Option<nat>, a: Action)
    requires cap.Some? ==> |w.ring| <= cap.value
    ensures cap.Some? ==> |Do(w, cap, a).ring| <= cap.value
  {
  }

  /** In every interleaving a push evicts nothing while there is room, and otherwise the oldest
      event alone; the one hydration that counts buffers the last events of the log, as many as
      there are up to the capacity. */
  lemma PushEvictsOldest(log: seq<int>, cap: Option<nat>, actions: seq<Action>, t: nat)
    requires NoRepeats(log) && forall n :: n in log ==> n > 0
    ensures var w := RunAll(log, cap, actions);
            (w.At(t).Holding? ==>
               var all, ring := w.ring + [w.At(t).n], Do(w, cap, Push(t)).ring;
               ring == if cap.None? || |w.ring| < cap.value then all else all[1..])
            && (w.At(t).HasRead? && !w.hydrated ==>
                  var next := Do(w, cap, Commit(t));
                  |next.ring| == (if cap.Some? && cap.value < |log| then cap.value else |log|)
                  && next.ring == log[|log| - |next.ring|..] && next.counter == Top(log))
  {
    RingFits(log, cap, actions);
    GoodLogs(log);
    EveryInterleavingKeeps(log, cap, actions);
  }

  /** What a session with an empty log and an unbounded ring can come to. */
  ghost predicate Reachable(w: World) {
    exists actions: seq<Action> :: RunAll([], None, actions) == w
  }

  lemma OneMore(w: World, a: Action)
    requires Reachable(w)
    ensures Reachable(Do(w, None, a))
  {
    var actions :| RunAll([], None, actions) == w;
    assert (actions + [a])[..|actions|] == actions;
    assert RunAll([], None, actions + [a]) == Do(w, None, a);
  }

  /** A first thread hydrates, a second looks, and both take a number. */
  lemma BothHold() returns (w: World)
    ensures Reachable(w) && w.At(0) == Holding(1) && w.At(1) == Holding(2) && w.ring == [] && w.queue == [] && w.log == []
  {
    w := Start([]);
    assert RunAll([], None, []) == w;
    OneMore(w, Check(0));
    w := w.Go(0, Checked);
    OneMore(w, Read(0));
    w := w.Go(0, HasRead([]));
    OneMore(w, Commit(0));
    w := w.Go(0, Past).(hydrated := true);
    OneMore(w, Check(1));
    w := w.Go(1, Past);
    OneMore(w, Take(0));
    w := w.Go(0, Holding(1)).(counter := 1, issued := [1]);
    OneMore(w, Take(1));
    w := Do(w, None, Take(1));
  }

  /** A thread's number goes to the end of ring and queue. */
  lemma Finish(w: World, t: nat) returns (next: World)
    requires Reachable(w) && w.At(t).Holding?
    ensures Reachable(next) && next.ring == w.ring + [w.At(t).n] && next.queue == w.queue + [w.At(t).n] && next.log == w.log
    ensures forall u :: u != t ==> next.At(u) == w.At(u)
  {
    OneMore(w, Push(t));
    OneMore(Do(w, None, Push(t)), Send(t));
    next := Do(Do(w, None, Push(t)), None, Send(t));
  }

  /** Order is not promised: two emits may reach ring and log in reverse. */
  lemma OrderCanFlip()
    ensures exists w :: Reachable(w) && w.ring == [2, 1] && w.log == [2, 1]
  {
    var w := BothHold();
    w := Finish(w, 1);
    w := Finish(w, 0);
    assert w.queue == [2, 1];
    OneMore(w, Write);
    w := Do(w, None, Write);
    OneMore(w, Write);
    w := Do(w, None, Write);
    assert w.log == [2, 1];
  }
}
