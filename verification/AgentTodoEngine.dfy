/**
 The agent side of the todo engine as an object: the todo table and, per session, the index from
 the model's client ids to todo ids. Its methods are loops over the table; what they compute is
 defined in `AgentTodos` and `TodoClone`.
 */
module AgentTodoEngine {
  import opened Wrappers
  import opened AgentTodos
  import C = TodoClone

  class Engine {
    var table: Table
    var clients: map<string, map<string, string>>

    ghost predicate Valid()
      reads this
    {
      TableOk(table) && AllLead(clients, table.rows)
    }

    constructor ()
      ensures Valid() && table == Table(map[], []) && clients == map[]
    {
      table, clients := Table(map[], []), map[];
    }

    function IndexOf(session: string): map<string, string>
      reads this
    {
      if session in clients then clients[session] else map[]
    }

    method FindGroup(session: string) returns (group: Option<string>)
      requires TableOk(table)
      ensures group == CurrentGroup(table.rows, table.order, session).0
    {
      var updated, i := 0, 0;
      group := None;
      while i < |table.order|
        invariant i <= |table.order|
        invariant (group, updated) == CurrentGroup(table.rows, table.order[..i], session)
      {
        var t := table.rows[table.order[i]];
        assert table.order[..i + 1][..i] == table.order[..i];
        if t.session == session && t.source == "agent" && t.archivedAt.None? && t.group.Some? && t.updatedAt >= updated {
          group, updated := t.group, t.updatedAt;
        }
        i := i + 1;
      }
      assert table.order[..i] == table.order;
    }

    method IndexTitles(c: Call) returns (titles: map<string, string>)
      requires TableOk(table)
      ensures titles == TitleIndex(c, table.rows, table.order)
    {
      var doubles: set<string> := {};
      var i := 0;
      titles := map[];
      while i < |table.order|
        invariant i <= |table.order|
        invariant titles == FirstTitles(c, table.rows, table.order[..i])
        invariant doubles == DoubleTitles(c, table.rows, table.order[..i])
      {
        var t := table.rows[table.order[i]];
        assert table.order[..i + 1][..i] == table.order[..i];
        if ActiveHere(c, t) {
          var key := c.normal(t.title);
          if key in titles {
            doubles := doubles + {key};
          } else {
            titles := titles[key := table.order[i]];
          }
        }
        i := i + 1;
      }
      assert table.order[..i] == table.order;
      titles := titles - doubles;
    }

    /** Archives what the payload did not mention, in table order. */
    method DropAbsent(c: Call, present: set<string>) returns (dropped: seq<string>)
      requires TableOk(table)
      modifies this`table
      ensures table == ArchiveAbsent(c, old(table), present)
      ensures forall id :: id in dropped <==> id in old(table).rows && Dropped(c, old(table).rows[id], present)
    {
      ghost var before, done := table, {};
      var i := 0;
      dropped := [];
      assert before.rows == Partly(c, before.rows, present, {});
      while i < |table.order|
        invariant i <= |table.order| && table == Table(Partly(c, before.rows, present, done), before.order)
        invariant forall id :: id in done <==> id in before.order[..i]
        invariant forall id :: id in dropped <==> id in done && id in before.rows && Dropped(c, before.rows[id], present)
      {
        var id := table.order[i];
        assert before.order[..i + 1] == before.order[..i] + [id];
        NextDropped(c, before, present, done, id, i);
        if Dropped(c, table.rows[id], present) {
          table := Table(table.rows[id := Archived(table.rows[id], c.now)], table.order);
          dropped := dropped + [id];
        }
        done := done + {id};
        i := i + 1;
      }
      assert before.order[..i] == before.order;
      assert table.rows == ArchiveAbsent(c, before, present).rows;
    }

    /** The todo an item is matched with: by client id, else by title. */
    method Existing(c: Call, item: Item, titles: map<string, string>,
                    seen: set<string>) returns (existing: Option<string>)
      requires c.session in clients
      ensures existing == FindExisting(c, Pass(table, clients[c.session], titles, seen, {}, []), item)
    {
      existing := None;
      var key, index := c.normal(item.title), clients[c.session];
      if item.client != "" && item.client in index {
        var indexed := index[item.client];
        if indexed in table.rows && Active(table.rows[indexed], c.group) {
          existing := Some(indexed);
        }
      }
      if existing.None? && key in titles && key !in seen {
        var candidate := titles[key];
        if candidate in table.rows && Active(table.rows[candidate], c.group) {
          existing := Some(candidate);
        }
      }
    }

    /** One item of the list: its todo is written into the table, its client id into the index. */
    method SyncOne(c: Call, item: Item, k: nat, titles: map<string, string>, seen: set<string>, present: set<string>,
                   changes: seq<(string, Kind)>)
        returns (titles': map<string, string>, seen': set<string>, present': set<string>, changes': seq<(string, Kind)>)
      requires c.session in clients
      modifies this
      ensures c.session in clients && clients == old(clients)[c.session := clients[c.session]]
      ensures Pass(table, clients[c.session], titles', seen', present', changes')
              == SyncItem(c, Pass(old(table), old(clients[c.session]), titles, seen, present, changes), item, k)
    {
      titles', seen', present', changes' := titles, seen, present, changes;
      if item.title == "" {
        return;
      }
      var existing := Existing(c, item, titles, seen);
      SameMatch(c, Pass(table, clients[c.session], titles, seen, {}, []), present, changes, item);
      var t, kind;
      if existing.Some? {
        var status := table.rows[existing.value].status;
        t := Overwritten(c, table.rows[existing.value], item, k);
        kind := KindOf(Some(status), t.status);
      } else {
        t := NewTodo(c, item, k);
        kind := Created;
      }
      table := table.Save(t);
      if item.client != "" {
        clients := clients[c.session := clients[c.session][item.client := t.id]];
      }
      var key := c.normal(item.title);
      titles' := titles[key := t.id];
      seen' := seen + {key};
      present' := present + {t.id};
      changes' := changes + [(t.id, kind)];
    }

    /** The items of the list, one after the other. */
    method SyncAll(c: Call, items: seq<Item>, known: map<string, string>) returns (present: set<string>,
                   changes: seq<(string, Kind)>)
      requires c.session in clients
      modifies this
      ensures c.session in clients && clients == old(clients)[c.session := clients[c.session]]
      ensures var p := SyncItems(c, Pass(old(table), old(clients[c.session]), known, {}, {}, []), items, |items|);
              p.table == table && p.index == clients[c.session] && p.present == present && p.changes == changes
    {
      hide SyncItem;
      var titles, seen := known, {};
      present, changes := {}, [];
      var k := 0;
      while k < |items|
        invariant k <= |items| && c.session in clients && clients == old(clients)[c.session := clients[c.session]]
        invariant Pass(table, clients[c.session], titles, seen, present, changes)
                  == SyncItems(c, Pass(old(table), old(clients[c.session]), known, {}, {}, []), items, k)
      {
        titles, seen, present, changes := SyncOne(c, items[k], k, titles, seen, present, changes);
        k := k + 1;
      }
    }

    /** Reconciles the full list the model sent; returns what happened to which todo. */
    method SyncAgentTodos(session: string, items: seq<Item>, run: Option<string>, now: nat, normal: string -> string,
                          newId: nat -> string, newGroup: string) returns (changes: seq<(string, Kind)>, dropped: seq<string>)
      requires Valid() && FreshFrom(newId, 0, table.rows)
      modifies this
      ensures Valid()
      ensures var c := CallFor(old(table), session, run, now, normal, newId, newGroup);
              var p := EndPass(c, old(table), old(IndexOf(session)), items);
              table == Synced(c, old(table), old(IndexOf(session)), items) && clients == old(clients)[session := p.index]
              && changes == p.changes
              && forall id :: id in dropped <==> id in p.table.rows && Dropped(c, p.table.rows[id], p.present)
    {
      hide SyncItems, PassOk, FreshFrom, CurrentGroup, TitleIndex, ArchiveAbsent, Dropped, AllLead;
      ghost var before, index, others := table, IndexOf(session), clients;
      var found := FindGroup(session);
      var c := Call(session, if found.Some? then found.value else newGroup, run, now, normal, newId);
      var titles := IndexTitles(c);
      LeadsIn(clients, table.rows, session);
      clients := clients[session := IndexOf(session)];
      var present;
      present, changes := SyncAll(c, items, titles);
      ghost var p := EndPass(c, before, index, items);
      assert clients == others[session := p.index];
      ItemsKeep(c, before, index, items, |items|);
      OthersStillLead(c, before, p, others, session, |items|);
      TableStaysOk(c, p, before.rows, |items|);
      dropped := DropAbsent(c, present);
    }

    /** Copies the live todos of a session into another one. */
    method CloneSessionTodos(source: string, target: string, nodes: map<string, string>, newId: nat -> string, now: nat)
        returns (cloned: seq<string>)
      requires Valid() && FreshFrom(newId, 0, table.rows)
      modifies this`table
      ensures Valid()
      ensures var live := C.Sources(old(table), source);
              var m := C.IdMap(live, newId, |live|);
              C.Ready(old(table), live, m) && table == C.Cloned(old(table), live, m, target, nodes, now, |live|)
              && cloned == NewIds(newId, |live|)
    {
      var live := C.Sources(table, source);
      C.SourcesAreReady(table, source, newId);
      CloneLeads(table, clients, source, target, newId, nodes, now);
      CopyAll(live, C.IdMap(live, newId, |live|), target, nodes, now);
      cloned := NewIds(newId, |live|);
    }

    /** After a todo completed: every todo that waited for it and waits for nothing else any more
        becomes ready. */
    method UnblockDependents(done: string, now: nat) returns (promoted: seq<string>)
      requires TableOk(table)
      modifies this`table
      ensures TableOk(table) && table == Table(Unblocked(old(table).rows, old(table).rows.Keys, done, now), old(table).order)
      ensures forall id :: id in promoted <==> id in old(table).rows && Promotes(old(table).rows, id, done)
    {
      hide Promotes, Unblocked;
      ghost var before, seen := table, {};
      var i := 0;
      promoted := [];
      NothingPromoted(before.rows, done, now);
      while i < |table.order|
        invariant i <= |table.order| && table == Table(Unblocked(before.rows, seen, done, now), before.order)
        invariant forall id :: id in seen <==> id in before.order[..i]
        invariant forall id :: id in promoted <==> id in seen && Promotes(before.rows, id, done)
      {
        var id := table.order[i];
        assert before.order[..i + 1] == before.order[..i] + [id];
        NextPromoted(before.rows, seen, done, now, id);
        if Promotes(table.rows, id, done) {
          table := Table(table.rows[id := Promoted(table.rows[id], now)], table.order);
          promoted := promoted + [id];
        }
        seen := seen + {id};
        i := i + 1;
      }
      assert before.order[..i] == before.order && seen == before.rows.Keys;
      PromotionKeeps(before, done, now);
    }

    method CopyAll(live: seq<string>, m: map<string, string>, target: string, nodes: map<string, string>, now: nat)
      requires C.Ready(table, live, m)
      modifies this`table
      ensures table == C.Cloned(old(table), live, m, target, nodes, now, |live|)
    {
      hide C.Ready;
      ghost var before := table;
      var k := 0;
      while k < |live|
        invariant k <= |live| && table == C.Cloned(before, live, m, target, nodes, now, k)
      {
        C.NextClone(before, live, m, target, nodes, now, k);
        table := table.Save(C.CloneOf(table.rows[live[k]], m, target, nodes, now));
        k := k + 1;
      }
    }
  }

  lemma LeadsIn(clients: map<string, map<string, string>>, rows: map<string, Todo>, session: string)
    requires AllLead(clients, rows)
    ensures Leads(if session in clients then clients[session] else map[], rows, session)
  {
  }

  lemma TableStaysOk(c: Call, p: Pass, before: map<string, Todo>, k: nat)
    requires PassOk(c, p, before, k)
    ensures TableOk(p.table)
  {
  }

  /** The match depends on the table, the index, and the titles, not on what happened so far. */
  lemma SameMatch(c: Call, p: Pass, present: set<string>, changes: seq<(string, Kind)>, item: Item)
    ensures FindExisting(c, p.(present := present, changes := changes), item) == FindExisting(c, p, item)
  {
  }

  /** The todo is queued or blocked, waits for `done`, and everything it waits for is finished. */
  predicate Promotes(rows: map<string, Todo>, id: string, done: string)
    requires id in rows
  {
    done in rows[id].dependencies && (rows[id].status == "queued" || rows[id].status == "blocked")
    && C.Pending(rows, rows[id].dependencies) == []
  }

  function Promoted(t: Todo, now: nat): Todo {
    t.(status := "ready", updatedAt := now)
  }

  /** The rows with those of `seen` promoted that can be. */
  function Unblocked(rows: map<string, Todo>, seen: set<string>, done: string, now: nat): map<string, Todo> {
    map id | id in rows :: if id in seen && Promotes(rows, id, done) then Promoted(rows[id], now) else rows[id]
  }

  lemma NothingPromoted(rows: map<string, Todo>, done: string, now: nat)
    ensures Unblocked(rows, {}, done, now) == rows
  {
  }

  lemma PromotionKeeps(table: Table, done: string, now: nat)
    requires TableOk(table)
    ensures TableOk(Table(Unblocked(table.rows, table.rows.Keys, done, now), table.order))
  {
  }

  /** Promotions finish nothing, so what a todo waits for stays the same while they are made. */
  lemma {:induction false} PendingStays(rows: map<string, Todo>, seen: set<string>, done: string, now: nat,
                                        deps: seq<string>)
    ensures C.Pending(Unblocked(rows, seen, done, now), deps) == C.Pending(rows, deps)
  {
    if deps != [] {
      PendingStays(rows, seen, done, now, deps[1..]);
    }
  }

  lemma NextPromoted(rows: map<string, Todo>, seen: set<string>, done: string, now: nat, id: string)
    requires id in rows && id !in seen
    ensures var at := Unblocked(rows, seen, done, now);
            id in at && at[id] == rows[id] && (Promotes(at, id, done) <==> Promotes(rows, id, done))
            && Unblocked(rows, seen + {id}, done, now) == if Promotes(rows, id, done) then at[id := Promoted(at[id], now)] else at
  {
    PendingStays(rows, seen, done, now, rows[id].dependencies);
  }

  /** The pass makes a todo ready exactly if it was queued or blocked, waits for `done`, and all it
      waits for that is in the table is completed or rolled up; it changes nothing else. */
  lemma PromotionIsExact(rows: map<string, Todo>, done: string, now: nat, id: string)
    requires id in rows
    ensures var after, t := Unblocked(rows, rows.Keys, done, now), rows[id];
            after.Keys == rows.Keys
            && after[id] == if (t.status == "queued" || t.status == "blocked") && done in t.dependencies
                               && forall d :: d in t.dependencies && d in rows ==>
                                    rows[d].status == "completed" || rows[d].status == "rolled_up"
                            then t.(status := "ready", updatedAt := now) else t
  {
    C.PendingIs(rows, rows[id].dependencies);
    var pending := C.Pending(rows, rows[id].dependencies);
    assert pending != [] ==> pending[0] in pending;
  }

  /** After the pass nothing that waited for `done` is held back without an unfinished dependency,
      and nothing became ready that has one. */
  lemma NothingIsHeldBack(rows: map<string, Todo>, done: string, now: nat, id: string)
    requires id in rows
    ensures var after := Unblocked(rows, rows.Keys, done, now);
            (after[id] != rows[id] ==> C.Pending(after, after[id].dependencies) == [])
            && (done in after[id].dependencies && (after[id].status == "queued" || after[id].status == "blocked") ==>
                  C.Pending(after, after[id].dependencies) != [])
  {
    PendingStays(rows, rows.Keys, done, now, rows[id].dependencies);
  }

  /** The first n ids supplied. */
  function NewIds(newId: nat -> string, n: nat): seq<string> {
    if n == 0 then [] else NewIds(newId, n - 1) + [newId(n - 1)]
  }

  /** The rows with those of `done` archived that the payload did not mention. */
  function Partly(c: Call, rows: map<string, Todo>, present: set<string>, done: set<string>): map<string, Todo> {
    map id | id in rows :: if id in done && Dropped(c, rows[id], present) then Archived(rows[id], c.now) else rows[id]
  }

  lemma NextDropped(c: Call, before: Table, present: set<string>, done: set<string>, id: string, i: nat)
    requires TableOk(before) && i < |before.order| && id == before.order[i]
    requires forall x :: x in done <==> x in before.order[..i]
    ensures var now := Partly(c, before.rows, present, done);
            id in before.rows && id in now && now[id] == before.rows[id]
            && Partly(c, before.rows, present, done + {id}) ==
                 if Dropped(c, now[id], present) then now[id := Archived(now[id], c.now)] else now
  {
    hide Dropped, Archived, Partly;
    assert id !in done;
    PartlyMore(c, before.rows, present, done, id);
  }

  lemma PartlyMore(c: Call, rows: map<string, Todo>, present: set<string>, done: set<string>, id: string)
    requires id in rows && id !in done
    ensures var now := Partly(c, rows, present, done);
            id in now && now[id] == rows[id]
            && Partly(c, rows, present, done + {id}) ==
                 if Dropped(c, now[id], present) then now[id := Archived(now[id], c.now)] else now
  {
    hide Dropped, Archived;
  }

  lemma CloneLeads(t: Table, clients: map<string, map<string, string>>, source: string, target: string,
                   newId: nat -> string,
                   nodes: map<string, string>, now: nat)
    requires TableOk(t) && AllLead(clients, t.rows) && FreshFrom(newId, 0, t.rows)
    ensures var live := C.Sources(t, source);
            var m := C.IdMap(live, newId, |live|);
            C.Ready(t, live, m) && TableOk(C.Cloned(t, live, m, target, nodes, now, |live|))
            && AllLead(clients, C.Cloned(t, live, m, target, nodes, now, |live|).rows)
  {
    C.CloneCopies(t, source, target, newId, nodes, now);
  }

  ghost predicate AllLead(clients: map<string, map<string, string>>, rows: map<string, Todo>) {
    forall session :: session in clients ==> Leads(clients[session], rows, session)
  }

  /** Other sessions' indexes still lead to their todos, and this one's to its own. */
  lemma OthersStillLead(c: Call, before: Table, p: Pass, clients: map<string, map<string, string>>, session: string,
                        k: nat)
    requires PassOk(c, p, before.rows, k) && c.session == session
    requires AllLead(clients, before.rows)
    ensures var after := ArchiveAbsent(c, p.table, p.present);
            TableOk(after) && AllLead(clients[session := p.index], after.rows)
  {
    hide ArchiveAbsent, Archived, FreshFrom, Active;
    var after := ArchiveAbsent(c, p.table, p.present);
    ArchiveKeeps(c, p.table, p.present);
    forall id | id in p.table.rows ensures id in after.rows && after.rows[id].session == p.table.rows[id].session {
      ArchivedRow(c, p.table, p.present, id);
    }
    assert forall id :: id in before.rows ==> p.table.rows[id].session == before.rows[id].session;
  }
}
