/**
 Cloning a session's todos for a fork: the live todos and the dependency edges among them are
 copied onto fresh ids.
 */
module TodoClone {
  import opened Wrappers
  import opened AgentTodos

  /** The session's todos in table order that are not archived. */
  function Live(t: Table, order: seq<string>, session: string): seq<string>
    requires forall id :: id in order ==> id in t.rows
  {
    if order == [] then []
    else
      var before, id := Live(t, order[..|order| - 1], session), order[|order| - 1];
      if t.rows[id].session == session && t.rows[id].archivedAt.None? then before + [id] else before
  }

  function Sources(t: Table, session: string): seq<string>
    requires TableOk(t)
  {
    Live(t, t.order, session)
  }

  /** The new id of each of the first n live todos. */
  function IdMap(live: seq<string>, newId: nat -> string, n: nat): map<string, string>
    requires n <= |live|
  {
    if n == 0 then map[] else IdMap(live, newId, n - 1)[live[n - 1] := newId(n - 1)]
  }

  /** Dependencies outside the map are dropped. */
  function Mapped(ids: seq<string>, m: map<string, string>): seq<string> {
    if ids == [] then [] else (if ids[0] in m then [m[ids[0]]] else []) + Mapped(ids[1..], m)
  }

  /** Plan nodes outside the map are kept. */
  function Renamed(ids: seq<string>, m: map<string, string>): seq<string> {
    if ids == [] then [] else [if ids[0] in m then m[ids[0]] else ids[0]] + Renamed(ids[1..], m)
  }

  function CloneOf(t: Todo, m: map<string, string>, target: string, nodes: map<string, string>, now: nat): Todo
    requires t.id in m
  {
    t.(id := m[t.id], session := target, dependencies := Mapped(t.dependencies, m), planNodes := Renamed(t.planNodes, nodes),
       run := None, archivedAt := None, createdAt := now, updatedAt := now)
  }

  ghost predicate Distinct(ids: seq<string>) {
    forall i, j :: 0 <= i < j < |ids| ==> ids[i] != ids[j]
  }

  ghost predicate OneToOne(m: map<string, string>) {
    forall a, b :: a in m && b in m && m[a] == m[b] ==> a == b
  }

  /** The map takes the live todos one to one to unused ids. */
  ghost predicate Ready(t: Table, live: seq<string>, m: map<string, string>) {
    Distinct(live) && OneToOne(m)
    && (forall id :: id in live <==> id in m)
    && (forall id :: id in m ==> id in t.rows && t.rows[id].id == id && m[id] !in t.rows)
  }

  /** The table with the clones of the first n live todos. */
  function Cloned(t: Table, live: seq<string>, m: map<string, string>, target: string, nodes: map<string, string>, now: nat, n: nat): Table
    requires Ready(t, live, m) && n <= |live|
  {
    if n == 0 then t
    else Cloned(t, live, m, target, nodes, now, n - 1).Save(CloneOf(t.rows[live[n - 1]], m, target, nodes, now))
  }

  lemma {:induction false} LiveIs(t: Table, order: seq<string>, session: string)
    requires forall id :: id in order ==> id in t.rows
    requires forall i, j :: 0 <= i < j < |order| ==> order[i] != order[j]
    ensures var live := Live(t, order, session);
            (forall id :: id in live <==> id in order && t.rows[id].session == session && t.rows[id].archivedAt.None?)
            && forall i, j :: 0 <= i < j < |live| ==> live[i] != live[j]
  {
    if order != [] {
      var before := order[..|order| - 1];
      LiveIs(t, before, session);
      assert order == before + [order[|order| - 1]];
      assert order[|order| - 1] !in before;
    }
  }

  lemma {:induction false} IdMapHas(live: seq<string>, newId: nat -> string, n: nat, k: nat)
    requires k < n <= |live| && Distinct(live)
    ensures live[k] in IdMap(live, newId, n) && IdMap(live, newId, n)[live[k]] == newId(k)
  {
    if k < n - 1 {
      IdMapHas(live, newId, n - 1, k);
    }
  }

  lemma {:induction false} IdMapFrom(live: seq<string>, newId: nat -> string, n: nat, id: string) returns (k: nat)
    requires n <= |live| && id in IdMap(live, newId, n)
    ensures k < n && live[k] == id
  {
    if live[n - 1] == id {
      k := n - 1;
    } else {
      k := IdMapFrom(live, newId, n - 1, id);
    }
  }

  /** The id map is one to one from the live todos onto the fresh ids. */
  lemma IdMapIsOneToOne(live: seq<string>, newId: nat -> string)
    requires Distinct(live) && forall i: nat, j: nat :: i < j ==> newId(i) != newId(j)
    ensures var m := IdMap(live, newId, |live|); OneToOne(m) && forall id :: id in m <==> id in live
  {
    var m := IdMap(live, newId, |live|);
    forall k | 0 <= k < |live| ensures live[k] in m {
      IdMapHas(live, newId, |live|, k);
    }
    forall id | id in m ensures id in live {
      var k := IdMapFrom(live, newId, |live|, id);
    }
    forall a, b | a in m && b in m && m[a] == m[b] ensures a == b {
      SameImage(live, newId, a, b);
    }
  }

  lemma SameNumber(newId: nat -> string, i: nat, j: nat)
    requires (forall i: nat, j: nat :: i < j ==> newId(i) != newId(j)) && newId(i) == newId(j)
    ensures i == j
  {
  }

  lemma SameImage(live: seq<string>, newId: nat -> string, a: string, b: string)
    requires Distinct(live) && forall i: nat, j: nat :: i < j ==> newId(i) != newId(j)
    requires var m := IdMap(live, newId, |live|); a in m && b in m && m[a] == m[b]
    ensures a == b
  {
    var i := PositionOf(live, newId, a);
    var j := PositionOf(live, newId, b);
    SameNumber(newId, i, j);
  }

  lemma PositionOf(live: seq<string>, newId: nat -> string, a: string) returns (k: nat)
    requires Distinct(live) && a in IdMap(live, newId, |live|)
    ensures k < |live| && live[k] == a && IdMap(live, newId, |live|)[a] == newId(k)
  {
    k := IdMapFrom(live, newId, |live|, a);
    IdMapHas(live, newId, |live|, k);
  }

  lemma {:induction false} MappedIs(ids: seq<string>, m: map<string, string>)
    ensures forall x :: x in Mapped(ids, m) <==> exists d :: d in ids && d in m && m[d] == x
  {
    if ids != [] {
      MappedIs(ids[1..], m);
      assert ids == [ids[0]] + ids[1..];
    }
  }

  /** The clones are there and everything else is untouched. */
  ghost predicate Copied(before: map<string, Todo>, after: map<string, Todo>, m: map<string, string>,
                         target: string, nodes: map<string, string>, now: nat) {
    (forall id :: id in m ==> id in before && before[id].id == id && m[id] in after && m[id] !in before
                              && after[m[id]] == CloneOf(before[id], m, target, nodes, now))
    && (forall id :: id in before ==> id in after && after[id] == before[id])
    && (forall id :: id in after ==> id in before || id in m.Values)
  }

  lemma {:induction false} ClonedIsTable(t: Table, live: seq<string>, m: map<string, string>, target: string, nodes: map<string, string>,
                                         now: nat, n: nat)
    requires Ready(t, live, m) && TableOk(t) && n <= |live|
    ensures TableOk(Cloned(t, live, m, target, nodes, now, n))
  {
    if n > 0 {
      ClonedIsTable(t, live, m, target, nodes, now, n - 1);
      SaveKeeps(Cloned(t, live, m, target, nodes, now, n - 1), CloneOf(t.rows[live[n - 1]], m, target, nodes, now));
    }
  }

  lemma {:induction false} ClonedKeeps(t: Table, live: seq<string>, m: map<string, string>, target: string, nodes: map<string, string>,
                                       now: nat, n: nat, id: string)
    requires Ready(t, live, m) && n <= |live| && id in t.rows
    ensures var after := Cloned(t, live, m, target, nodes, now, n).rows; id in after && after[id] == t.rows[id]
  {
    if n > 0 {
      ClonedKeeps(t, live, m, target, nodes, now, n - 1, id);
    }
  }

  /** The next clone is made from the table as it stands. */
  lemma NextClone(t: Table, live: seq<string>, m: map<string, string>, target: string, nodes: map<string, string>, now: nat, k: nat)
    requires Ready(t, live, m) && k < |live|
    ensures var at := Cloned(t, live, m, target, nodes, now, k);
            live[k] in at.rows && at.rows[live[k]].id == live[k] && live[k] in m
            && Cloned(t, live, m, target, nodes, now, k + 1) == at.Save(CloneOf(at.rows[live[k]], m, target, nodes, now))
  {
    ClonedKeeps(t, live, m, target, nodes, now, k, live[k]);
  }

  lemma {:induction false} ClonedHas(t: Table, live: seq<string>, m: map<string, string>, target: string, nodes: map<string, string>,
                                     now: nat, n: nat, k: nat)
    requires Ready(t, live, m) && k < n <= |live|
    ensures var after := Cloned(t, live, m, target, nodes, now, n).rows;
            m[live[k]] in after && after[m[live[k]]] == CloneOf(t.rows[live[k]], m, target, nodes, now)
  {
    if k < n - 1 {
      ClonedHas(t, live, m, target, nodes, now, n - 1, k);
      assert m[live[k]] != m[live[n - 1]];
    }
  }

  lemma {:induction false} ClonedFrom(t: Table, live: seq<string>, m: map<string, string>, target: string, nodes: map<string, string>,
                                      now: nat, n: nat, id: string)
    requires Ready(t, live, m) && n <= |live|
    requires id in Cloned(t, live, m, target, nodes, now, n).rows && id !in t.rows
    ensures id in m.Values
  {
    if id != m[live[n - 1]] {
      ClonedFrom(t, live, m, target, nodes, now, n - 1, id);
    }
  }

  lemma SourcesAreReady(t: Table, source: string, newId: nat -> string)
    requires TableOk(t) && FreshFrom(newId, 0, t.rows)
    ensures var live := Sources(t, source);
            var m := IdMap(live, newId, |live|);
            Ready(t, live, m) && forall id :: id in m <==> id in t.rows && t.rows[id].session == source && t.rows[id].archivedAt.None?
  {
    var live := Sources(t, source);
    LiveIs(t, t.order, source);
    IdMapIsOneToOne(live, newId);
    var m := IdMap(live, newId, |live|);
    forall id | id in m ensures m[id] !in t.rows {
      var k := PositionOf(live, newId, id);
    }
  }

  /** Cloning copies the live subgraph onto fresh ids and changes no todo that was there. */
  lemma CloneCopies(t: Table, source: string, target: string, newId: nat -> string, nodes: map<string, string>, now: nat)
    requires TableOk(t) && FreshFrom(newId, 0, t.rows)
    ensures var live := Sources(t, source);
            var m := IdMap(live, newId, |live|);
            Ready(t, live, m) && (forall id :: id in m <==> id in t.rows && t.rows[id].session == source && t.rows[id].archivedAt.None?)
            && TableOk(Cloned(t, live, m, target, nodes, now, |live|))
            && Copied(t.rows, Cloned(t, live, m, target, nodes, now, |live|).rows, m, target, nodes, now)
  {
    SourcesAreReady(t, source, newId);
    var live := Sources(t, source);
    AllAreCopied(t, live, IdMap(live, newId, |live|), target, nodes, now);
  }

  lemma AllAreCopied(t: Table, live: seq<string>, m: map<string, string>, target: string, nodes: map<string, string>, now: nat)
    requires Ready(t, live, m) && TableOk(t)
    ensures var after := Cloned(t, live, m, target, nodes, now, |live|);
            TableOk(after) && Copied(t.rows, after.rows, m, target, nodes, now)
  {
    var after := Cloned(t, live, m, target, nodes, now, |live|).rows;
    ClonedIsTable(t, live, m, target, nodes, now, |live|);
    forall id | id in t.rows ensures id in after && after[id] == t.rows[id] {
      ClonedKeeps(t, live, m, target, nodes, now, |live|, id);
    }
    forall id | id in m ensures m[id] in after && after[m[id]] == CloneOf(t.rows[id], m, target, nodes, now) {
      var k :| 0 <= k < |live| && live[k] == id;
      ClonedHas(t, live, m, target, nodes, now, |live|, k);
    }
    forall id | id in after && id !in t.rows ensures id in m.Values {
      ClonedFrom(t, live, m, target, nodes, now, |live|, id);
    }
  }

  /** The edges among clones are the edges among their originals. */
  lemma EdgesAreKept(before: map<string, Todo>, after: map<string, Todo>, m: map<string, string>,
                     target: string, nodes: map<string, string>, now: nat, a: string)
    requires Copied(before, after, m, target, nodes, now) && OneToOne(m) && a in m
    ensures forall b :: b in m ==> (m[b] in after[m[a]].dependencies <==> b in before[a].dependencies)
    ensures forall d :: d in after[m[a]].dependencies ==> exists b :: b in m && m[b] == d
    ensures after[m[a]].status == before[a].status && after[m[a]].title == before[a].title && after[m[a]].session == target
  {
    MappedIs(before[a].dependencies, m);
  }

  /** Some ranking goes down along every edge between the given todos. */
  lemma {:induction false} RenamedIs(ids: seq<string>, m: map<string, string>)
    ensures |Renamed(ids, m)| == |ids|
    ensures forall i :: 0 <= i < |ids| ==> Renamed(ids, m)[i] == if ids[i] in m then m[ids[i]] else ids[i]
  {
    if ids != [] {
      RenamedIs(ids[1..], m);
    }
  }

  /** A clone keeps everything but ids, edges, run and times: plan nodes are renamed where they have
      a new name, no run belongs to it, it is not archived, and it is as old as the call. */
  lemma ClonesKeepContent(before: map<string, Todo>, after: map<string, Todo>, m: map<string, string>,
                          target: string, nodes: map<string, string>, now: nat, a: string)
    requires Copied(before, after, m, target, nodes, now) && a in m
    ensures var t, clone := before[a], after[m[a]];
            clone.id == m[a] && clone.session == target && clone.title == t.title && clone.description == t.description
            && clone.source == t.source && clone.status == t.status && clone.priority == t.priority
            && clone.group == t.group && clone.retries == t.retries
            && clone.run.None? && clone.archivedAt.None? && clone.createdAt == now && clone.updatedAt == now
            && |clone.planNodes| == |t.planNodes|
            && forall i :: 0 <= i < |t.planNodes| ==>
                 clone.planNodes[i] == if t.planNodes[i] in nodes then nodes[t.planNodes[i]] else t.planNodes[i]
  {
    RenamedIs(before[a].planNodes, nodes);
  }

  ghost predicate Acyclic(rows: map<string, Todo>, ids: set<string>) {
    exists rank: map<string, int> :: Ranks(rank, rows, ids)
  }

  ghost predicate Ranks(rank: map<string, int>, rows: map<string, Todo>, ids: set<string>) {
    forall a :: a in ids ==> a in rank && a in rows && forall d :: d in rows[a].dependencies && d in ids ==> d in rank && rank[d] < rank[a]
  }

  /** The clones are acyclic exactly if the originals are. */
  lemma AcyclicExactly(before: map<string, Todo>, after: map<string, Todo>, m: map<string, string>,
                       target: string, nodes: map<string, string>, now: nat)
    requires Copied(before, after, m, target, nodes, now) && OneToOne(m)
    ensures Acyclic(before, m.Keys) <==> Acyclic(after, m.Values)
  {
    if Acyclic(before, m.Keys) {
      var rank :| Ranks(rank, before, m.Keys);
      var moved := map x | x in m.Values :: rank[Inverse(m, x)];
      forall x | x in m.Values
        ensures x in moved && x in after && forall d :: d in after[x].dependencies && d in m.Values ==> d in moved && moved[d] < moved[x]
      {
        EdgesAreKept(before, after, m, target, nodes, now, Inverse(m, x));
      }
      assert Ranks(moved, after, m.Values);
    }
    if Acyclic(after, m.Values) {
      var rank :| Ranks(rank, after, m.Values);
      var back := map a | a in m :: rank[m[a]];
      forall a | a in m.Keys
        ensures a in back && a in before && forall d :: d in before[a].dependencies && d in m.Keys ==> d in back && back[d] < back[a]
      {
        EdgesAreKept(before, after, m, target, nodes, now, a);
        assert m[a] in m.Values;
        assert forall d :: d in m ==> m[d] in m.Values;
      }
      assert Ranks(back, before, m.Keys);
    }
  }

  ghost function Inverse(m: map<string, string>, x: string): (a: string)
    requires x in m.Values
    ensures a in m && m[a] == x
  {
    var a :| a in m && m[a] == x;
    a
  }

  // ---- what a clone waits for ----

  predicate Finished(status: string) {
    status == "completed" || status == "rolled_up"
  }

  /** The dependencies that exist and are not finished. */
  function Pending(rows: map<string, Todo>, deps: seq<string>): seq<string> {
    if deps == [] then []
    else (if deps[0] in rows && !Finished(rows[deps[0]].status) then [deps[0]] else []) + Pending(rows, deps[1..])
  }

  /** A todo waits for those of its dependencies in the table that are not completed or rolled up. */
  lemma {:induction false} PendingIs(rows: map<string, Todo>, deps: seq<string>)
    ensures forall d :: d in Pending(rows, deps)
                        <==> d in deps && d in rows && rows[d].status != "completed" && rows[d].status != "rolled_up"
  {
    if deps != [] {
      PendingIs(rows, deps[1..]);
      assert deps == [deps[0]] + deps[1..];
    }
  }

  lemma {:induction false} PendingMaps(before: map<string, Todo>, after: map<string, Todo>, m: map<string, string>,
                                       target: string, nodes: map<string, string>, now: nat, deps: seq<string>)
    requires Copied(before, after, m, target, nodes, now)
    ensures Pending(after, Mapped(deps, m)) == Mapped(Pending(before, deps), m)
  {
    if deps != [] {
      PendingMaps(before, after, m, target, nodes, now, deps[1..]);
      var d, rest := deps[0], Mapped(deps[1..], m);
      if d in m {
        assert ([m[d]] + rest)[1..] == rest;
        if !Finished(before[d].status) {
          assert ([d] + Pending(before, deps[1..]))[1..] == Pending(before, deps[1..]);
        } else {
          assert [] + Pending(before, deps[1..]) == Pending(before, deps[1..]);
          assert [] + Pending(after, rest) == Pending(after, rest);
        }
      } else {
        assert [] + rest == rest;
        if d in before && !Finished(before[d].status) {
          assert ([d] + Pending(before, deps[1..]))[1..] == Pending(before, deps[1..]);
          assert [] + Mapped(Pending(before, deps[1..]), m) == Mapped(Pending(before, deps[1..]), m);
        } else {
          assert [] + Pending(before, deps[1..]) == Pending(before, deps[1..]);
        }
      }
    }
  }

  /** A clone waits for the clones of what its original waits for and for nothing else, so it is
      free exactly if none of that is a live todo of the source session: archived and foreign
      dependencies no longer hold it. */
  lemma CloneIsFreeExactly(before: map<string, Todo>, after: map<string, Todo>, m: map<string, string>,
                           target: string, nodes: map<string, string>, now: nat, a: string)
    requires Copied(before, after, m, target, nodes, now) && a in m
    ensures Pending(after, after[m[a]].dependencies) == Mapped(Pending(before, before[a].dependencies), m)
    ensures Pending(after, after[m[a]].dependencies) == [] <==> forall d :: d in Pending(before, before[a].dependencies) ==> d !in m
  {
    PendingMaps(before, after, m, target, nodes, now, before[a].dependencies);
    var pending := Pending(before, before[a].dependencies);
    MappedIs(pending, m);
    var mapped := Mapped(pending, m);
    if mapped != [] {
      assert mapped[0] in mapped;
    }
    if exists d :: d in pending && d in m {
      var d :| d in pending && d in m;
      assert m[d] in mapped;
    }
  }
}
