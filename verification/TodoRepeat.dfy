/**
 What holds of reconciled todos: each carries the values of one payload item; repeating a payload
 with client ids creates nothing and keeps the active set; and where an item can get lost.
 */
module TodoRepeat {
  import opened Wrappers
  import opened AgentTodos

  // ---- each active todo carries one item ----

  ghost predicate Carries(t: Todo, item: Item, k: nat) {
    item.title != "" && t.title == item.title && Means(item.word, t.status) && t.priority == 99 - k
  }

  /** Every todo present carries one of the first n items, different todos different ones. */
  ghost predicate CarryItems(rows: map<string, Todo>, present: set<string>, items: seq<Item>, n: nat)
    requires n <= |items|
  {
    (forall id :: id in present ==> id in rows && exists k: nat :: k < n && Carries(rows[id], items[k], k))
    && (forall a, b :: a in present && b in present && rows[a].priority == rows[b].priority ==> a == b)
  }

  lemma WriteCarries(rows: map<string, Todo>, present: set<string>, items: seq<Item>, n: nat, t: Todo)
    requires n < |items| && CarryItems(rows, present, items, n) && Carries(t, items[n], n)
    ensures CarryItems(rows[t.id := t], present + {t.id}, items, n + 1)
  {
    var next := rows[t.id := t];
    forall id | id in present + {t.id} ensures id in next && exists k: nat :: k < n + 1 && Carries(next[id], items[k], k) {
      if id == t.id {
        assert Carries(next[id], items[n], n);
      } else {
        var k: nat :| k < n && Carries(rows[id], items[k], k);
        assert Carries(next[id], items[k], k);
      }
    }
    forall id | id in present && id != t.id ensures next[id].priority > t.priority {
      var k: nat :| k < n && Carries(rows[id], items[k], k);
    }
  }

  lemma ItemIsCarried(c: Call, p: Pass, items: seq<Item>, n: nat)
    requires n < |items| && CarryItems(p.table.rows, p.present, items, n)
    ensures var next := SyncItem(c, p, items[n], n); CarryItems(next.table.rows, next.present, items, n + 1)
  {
    var item := items[n];
    if item.title != "" {
      var found := FindExisting(c, p, item);
      var t := if found.Some? then Overwritten(c, p.table.rows[found.value], item, n) else NewTodo(c, item, n);
      WriteCarries(p.table.rows, p.present, items, n, t);
    } else {
      forall id | id in p.present ensures exists k: nat :: k < n + 1 && Carries(p.table.rows[id], items[k], k) {
        var k: nat :| k < n && Carries(p.table.rows[id], items[k], k);
      }
    }
  }

  lemma NothingCarried(c: Call, table: Table, index: map<string, string>, items: seq<Item>)
    requires TableOk(table)
    ensures var p := SyncItems(c, StartPass(c, table, index), items, 0); CarryItems(p.table.rows, p.present, items, 0)
  {
  }

  lemma {:induction false} ItemsAreCarried(c: Call, table: Table, index: map<string, string>, items: seq<Item>, n: nat)
    requires TableOk(table) && n <= |items|
    ensures var p := SyncItems(c, StartPass(c, table, index), items, n); CarryItems(p.table.rows, p.present, items, n)
  {
    hide SyncItem, CarryItems, StartPass, TableOk;
    if n == 0 {
      NothingCarried(c, table, index, items);
    } else {
      ItemsAreCarried(c, table, index, items, n - 1);
      ItemIsCarried(c, SyncItems(c, StartPass(c, table, index), items, n - 1), items, n - 1);
    }
  }

  /** After the call every active todo of the group carries title, status and place of one item
      of the payload, and no two carry the same. */
  lemma ActiveTodosCarryItems(c: Call, table: Table, index: map<string, string>, items: seq<Item>)
    requires TableOk(table) && Leads(index, table.rows, c.session) && FreshFrom(c.newId, 0, table.rows)
    ensures var rows := Synced(c, table, index, items).rows;
            (forall id :: id in rows && ActiveHere(c, rows[id]) ==> exists k: nat :: k < |items| && Carries(rows[id], items[k], k))
            && (forall a, b ::
                  (a in rows && b in rows && ActiveHere(c, rows[a]) && ActiveHere(c, rows[b]) && rows[a].priority == rows[b].priority)
                  ==> a == b)
  {
    SyncReconciles(c, table, index, items);
    ItemsKeep(c, table, index, items, |items|);
    ItemsAreCarried(c, table, index, items, |items|);
    var p, rows := EndPass(c, table, index, items), Synced(c, table, index, items).rows;
    forall id | id in p.present ensures rows[id] == p.table.rows[id] {
      ArchivedRow(c, p.table, p.present, id);
    }
  }

  // ---- repeating a payload ----

  ghost predicate HaveClients(items: seq<Item>) {
    forall i :: 0 <= i < |items| && items[i].title != "" ==> items[i].client != ""
  }

  /** The client index leads every titled item up to n to a todo present, and every todo present
      comes from such an item. */
  ghost predicate ByClient(index: map<string, string>, present: set<string>, items: seq<Item>, n: nat)
    requires n <= |items|
  {
    (forall i :: 0 <= i < n && items[i].title != "" ==> items[i].client in index && index[items[i].client] in present)
    && (forall id :: id in present ==> exists i :: 0 <= i < n && Refers(index, items[i], id))
  }

  predicate Refers(index: map<string, string>, item: Item, id: string) {
    item.title != "" && item.client in index && index[item.client] == id
  }

  lemma NoteByClient(index: map<string, string>, present: set<string>, items: seq<Item>, n: nat, id: string)
    requires n < |items| && ByClient(index, present, items, n) && items[n].title != ""
    requires items[n].client in index && index[items[n].client] in present ==> index[items[n].client] == id
    ensures ByClient(index[items[n].client := id], present + {id}, items, n + 1)
  {
    var next := index[items[n].client := id];
    forall x | x in present + {id} ensures exists i :: 0 <= i < n + 1 && Refers(next, items[i], x) {
      if x == id {
        assert Refers(next, items[n], x);
      } else {
        var i :| 0 <= i < n && Refers(index, items[i], x);
        assert Refers(next, items[i], x);
      }
    }
  }

  /** An item whose client id leads to a todo present is matched with that todo. */
  lemma PresentIsFound(c: Call, p: Pass, before: map<string, Todo>, item: Item, k: nat)
    requires PassOk(c, p, before, k) && item.client != "" && item.client in p.index && p.index[item.client] in p.present
    ensures FindExisting(c, p, item) == Some(p.index[item.client])
  {
  }

  lemma ItemLeads(c: Call, p: Pass, before: map<string, Todo>, items: seq<Item>, k: nat)
    requires PassOk(c, p, before, k) && k < |items| && ByClient(p.index, p.present, items, k) && HaveClients(items)
    ensures var next := SyncItem(c, p, items[k], k); ByClient(next.index, next.present, items, k + 1)
  {
    var item := items[k];
    if item.title != "" {
      var found := FindExisting(c, p, item);
      FindLeads(c, p, before, item, k);
      if item.client in p.index && p.index[item.client] in p.present {
        PresentIsFound(c, p, before, item, k);
      }
      var id := if found.Some? then found.value else c.newId(k);
      NoteByClient(p.index, p.present, items, k, id);
      var next := SyncItem(c, p, item, k);
      assert next.index == p.index[item.client := id] && next.present == p.present + {id};
    } else {
      forall id | id in p.present ensures exists i :: 0 <= i < k + 1 && Refers(p.index, items[i], id) {
        var i :| 0 <= i < k && Refers(p.index, items[i], id);
      }
    }
  }

  lemma {:induction false} ClientsLead(c: Call, table: Table, index: map<string, string>, items: seq<Item>, n: nat)
    requires TableOk(table) && Leads(index, table.rows, c.session) && FreshFrom(c.newId, 0, table.rows) && n <= |items|
    requires HaveClients(items)
    ensures var p := SyncItems(c, StartPass(c, table, index), items, n); ByClient(p.index, p.present, items, n)
  {
    if n > 0 {
      hide SyncItem, PassOk, ByClient, HaveClients;
      ClientsLead(c, table, index, items, n - 1);
      ItemsKeep(c, table, index, items, n - 1);
      ItemLeads(c, SyncItems(c, StartPass(c, table, index), items, n - 1), table.rows, items, n - 1);
    }
  }

  /** So far nothing was created and the index is as it was. */
  ghost predicate OnlyUpdates(c: Call, p: Pass, before: map<string, Todo>, index: map<string, string>) {
    p.index == index && p.table.rows.Keys == before.Keys
    && (forall i :: 0 <= i < |p.changes| ==> p.changes[i].1 != Created)
    && (forall id :: id in before && ActiveHere(c, before[id]) ==> ActiveHere(c, p.table.rows[id]))
  }

  lemma ItemUpdates(c: Call, p: Pass, before: map<string, Todo>, index: map<string, string>, item: Item, k: nat)
    requires TableOk(p.table) && OnlyUpdates(c, p, before, index)
    requires item.title != "" ==> item.client != "" && item.client in index && index[item.client] in before
                                  && ActiveHere(c, before[index[item.client]])
    ensures OnlyUpdates(c, SyncItem(c, p, item, k), before, index)
  {
    if item.title != "" {
      var id := index[item.client];
      assert p.table.rows[id].id == id && FindExisting(c, p, item) == Some(id);
      var t := Overwritten(c, p.table.rows[id], item, k);
      assert p.index[item.client := id] == index;
      assert p.table.rows[id := t].Keys == p.table.rows.Keys;
    }
  }

  lemma PassHasTable(c: Call, p: Pass, before: map<string, Todo>, k: nat)
    requires PassOk(c, p, before, k)
    ensures TableOk(p.table)
  {
  }

  lemma NothingCreatedYet(c: Call, table: Table, index: map<string, string>, items: seq<Item>)
    requires TableOk(table)
    ensures OnlyUpdates(c, SyncItems(c, StartPass(c, table, index), items, 0), table.rows, index)
  {
  }

  /** Nothing is created when the index leads every titled item to an active todo, and the index
      stays. */
  lemma {:induction false} NothingIsCreated(c: Call, table: Table, index: map<string, string>, items: seq<Item>, n: nat)
    requires TableOk(table) && Leads(index, table.rows, c.session) && FreshFrom(c.newId, 0, table.rows) && n <= |items|
    requires HaveClients(items)
    requires forall i :: 0 <= i < |items| && items[i].title != "" ==>
               items[i].client in index && ActiveHere(c, table.rows[index[items[i].client]])
    ensures OnlyUpdates(c, SyncItems(c, StartPass(c, table, index), items, n), table.rows, index)
  {
    hide SyncItem, OnlyUpdates, PassOk, StartPass, FreshFrom;
    if n == 0 {
      NothingCreatedYet(c, table, index, items);
    } else {
      assert PassOk(c, SyncItems(c, StartPass(c, table, index), items, n - 1), table.rows, n - 1) by {
        ItemsKeep(c, table, index, items, n - 1);
      }
      NothingIsCreated(c, table, index, items, n - 1);
      PassHasTable(c, SyncItems(c, StartPass(c, table, index), items, n - 1), table.rows, n - 1);
      ItemUpdates(c, SyncItems(c, StartPass(c, table, index), items, n - 1), table.rows, index, items[n - 1], n - 1);
    }
  }

  /** The group updated last is found again, whatever the table order. */
  lemma {:induction false} NewestGroupIs(rows: map<string, Todo>, order: seq<string>, session: string, group: string, now: nat, id: string)
    requires forall x :: x in order ==> x in rows
    requires id in order && rows[id].session == session && Active(rows[id], group) && rows[id].updatedAt == now
    requires forall x :: x in rows && rows[x].session == session && rows[x].source == "agent" && rows[x].archivedAt.None? ==>
               rows[x].group == Some(group) || rows[x].updatedAt < now
    requires forall x :: x in rows && rows[x].session == session && Active(rows[x], group) ==> rows[x].updatedAt == now
    ensures CurrentGroup(rows, order, session) == (Some(group), now)
  {
    var last, before := order[|order| - 1], order[..|order| - 1];
    if id in before {
      NewestGroupIs(rows, before, session, group, now, id);
    } else {
      assert id == last;
      GroupIsOlder(rows, before, session, group, now);
    }
  }

  lemma {:induction false} GroupIsOlder(rows: map<string, Todo>, order: seq<string>, session: string, group: string, now: nat)
    requires forall x :: x in order ==> x in rows
    requires forall x :: x in rows && rows[x].session == session && rows[x].source == "agent" && rows[x].archivedAt.None? ==>
               rows[x].group == Some(group) || rows[x].updatedAt < now
    requires forall x :: x in rows && rows[x].session == session && Active(rows[x], group) ==> rows[x].updatedAt == now
    ensures CurrentGroup(rows, order, session).1 <= now
  {
    if order != [] {
      GroupIsOlder(rows, order[..|order| - 1], session, group, now);
    }
  }

  /** The same payload again, later: if it has a titled item, every titled item has a client id and
      the clock went on, the same group is found, nothing is created and the same todos are active. */
  lemma RepeatChangesNoSet(table: Table, index: map<string, string>, items: seq<Item>, session: string, run: Option<string>,
                           now: nat, normal: string -> string, newId: nat -> string, newGroup: string,
                           later: nat, laterId: nat -> string, laterGroup: string)
    requires TableOk(table) && Leads(index, table.rows, session) && FreshFrom(newId, 0, table.rows)
    requires HaveClients(items) && (exists i :: 0 <= i < |items| && items[i].title != "")
    requires forall id :: id in table.rows && table.rows[id].session == session ==> table.rows[id].updatedAt < now
    requires var c := CallFor(table, session, run, now, normal, newId, newGroup);
             FreshFrom(laterId, 0, Synced(c, table, index, items).rows)
    ensures var c := CallFor(table, session, run, now, normal, newId, newGroup);
            var first, after := EndPass(c, table, index, items), Synced(c, table, index, items);
            TableOk(after)
            && (var c' := CallFor(after, session, run, later, normal, laterId, laterGroup);
                var second := EndPass(c', after, first.index, items);
                c'.group == c.group && second.present == first.present && second.index == first.index
                && forall i :: 0 <= i < |second.changes| ==> second.changes[i].1 != Created)
  {
    var c := CallFor(table, session, run, now, normal, newId, newGroup);
    var first, after := EndPass(c, table, index, items), Synced(c, table, index, items);
    FirstRound(c, table, index, items);
    var c' := CallFor(after, session, run, later, normal, laterId, laterGroup);
    assert c'.group == c.group;
    var second := EndPass(c', after, first.index, items);
    assert forall t :: ActiveHere(c', t) <==> ActiveHere(c, t);
    NothingIsCreated(c', after, first.index, items, |items|);
    ClientsLead(c', after, first.index, items, |items|);
    SameSet(first.index, first.present, second.present, items);
  }

  lemma SameSet(index: map<string, string>, a: set<string>, b: set<string>, items: seq<Item>)
    requires ByClient(index, a, items, |items|) && ByClient(index, b, items, |items|)
    ensures a == b
  {
    forall id | id in a ensures id in b {
      var i :| 0 <= i < |items| && Refers(index, items[i], id);
    }
    forall id | id in b ensures id in a {
      var i :| 0 <= i < |items| && Refers(index, items[i], id);
    }
  }

  /** What a first call leaves: its group is the newest, and the index leads to active todos. */
  lemma FirstRound(c: Call, table: Table, index: map<string, string>, items: seq<Item>)
    requires TableOk(table) && Leads(index, table.rows, c.session) && FreshFrom(c.newId, 0, table.rows)
    requires HaveClients(items) && (exists i :: 0 <= i < |items| && items[i].title != "")
    requires forall id :: id in table.rows && table.rows[id].session == c.session ==> table.rows[id].updatedAt < c.now
    ensures var p, after := EndPass(c, table, index, items), Synced(c, table, index, items);
            TableOk(after) && Leads(p.index, after.rows, c.session) && ByClient(p.index, p.present, items, |items|)
            && (forall id :: id in p.present ==> id in after.rows && ActiveHere(c, after.rows[id]))
            && CurrentGroup(after.rows, after.order, c.session).0 == Some(c.group)
  {
    var p := EndPass(c, table, index, items);
    ItemsKeep(c, table, index, items, |items|);
    ClientsLead(c, table, index, items, |items|);
    var i :| 0 <= i < |items| && items[i].title != "";
    ArchivingLeavesNewest(c, p, table.rows, p.index[items[i].client], |items|);
  }

  lemma ArchivingLeavesNewest(c: Call, p: Pass, before: map<string, Todo>, id: string, k: nat)
    requires PassOk(c, p, before, k) && id in p.present
    requires forall x :: x in before && before[x].session == c.session ==> before[x].updatedAt < c.now
    ensures var after := ArchiveAbsent(c, p.table, p.present);
            TableOk(after) && Leads(p.index, after.rows, c.session)
            && (forall x :: x in p.present ==> x in after.rows && ActiveHere(c, after.rows[x]))
            && CurrentGroup(after.rows, after.order, c.session).0 == Some(c.group)
  {
    var after := ArchiveAbsent(c, p.table, p.present);
    ArchiveKeeps(c, p.table, p.present);
    forall x | x in after.rows
      ensures x in p.table.rows && after.rows[x].session == p.table.rows[x].session
      ensures x in p.present ==> after.rows[x] == p.table.rows[x]
      ensures x !in p.present && after.rows[x].session == c.session && after.rows[x].source == "agent" && after.rows[x].archivedAt.None? ==>
                after.rows[x].group != Some(c.group) && after.rows[x].updatedAt < c.now
    {
      ArchivedRow(c, p.table, p.present, x);
    }
    NewestGroupIs(after.rows, after.order, c.session, c.group, c.now, id);
  }

  // ---- when an item gets lost ----

  /** When every titled item's client id leads to an active todo, those todos are the active ones
      afterwards: items are merged exactly if their client ids lead to one todo. */
  lemma KnownItemsGoByClient(c: Call, table: Table, index: map<string, string>, items: seq<Item>)
    requires TableOk(table) && Leads(index, table.rows, c.session) && FreshFrom(c.newId, 0, table.rows)
    requires HaveClients(items)
    requires forall i :: 0 <= i < |items| && items[i].title != "" ==>
               items[i].client in index && ActiveHere(c, table.rows[index[items[i].client]])
    ensures EndPass(c, table, index, items).present ==
              set i | 0 <= i < |items| && items[i].title != "" && items[i].client in index :: index[items[i].client]
  {
    NothingIsCreated(c, table, index, items, |items|);
    ClientsLead(c, table, index, items, |items|);
    var present := EndPass(c, table, index, items).present;
    forall id | id in present
      ensures id in set i | 0 <= i < |items| && items[i].title != "" && items[i].client in index :: index[items[i].client]
    {
      var i :| 0 <= i < |items| && Refers(index, items[i], id);
    }
  }

  lemma {:induction false} OneTitle(c: Call, rows: map<string, Todo>, order: seq<string>, x: string)
    requires forall id :: id in order ==> id in rows
    requires forall i, j :: 0 <= i < j < |order| ==> order[i] != order[j]
    requires x in rows && forall id :: id in rows && ActiveHere(c, rows[id]) <==> id == x
    ensures FirstTitles(c, rows, order) == if x in order then map[c.normal(rows[x].title) := x] else map[]
    ensures DoubleTitles(c, rows, order) == {}
  {
    if order != [] {
      var before, last := order[..|order| - 1], order[|order| - 1];
      OneTitle(c, rows, before, x);
      assert forall i :: 0 <= i < |before| ==> before[i] == order[i];
      assert order == before + [last];
    }
  }

  /** The first item goes to x by its client id; the title index still leads x's old title to x. */
  lemma FirstGoesToX(c: Call, p: Pass, x: string, renamed: Item)
    requires TableOk(p.table) && x in p.table.rows && ActiveHere(c, p.table.rows[x]) && p.seen == {} && p.present == {}
    requires renamed.client != "" && renamed.title != "" && p.index == map[renamed.client := x]
    ensures var one := SyncItem(c, p, renamed, 0);
            one.present == {x} && one.index == p.index && one.seen == {c.normal(renamed.title)} && TableOk(one.table)
            && one.titles == p.titles[c.normal(renamed.title) := x] && x in one.table.rows && ActiveHere(c, one.table.rows[x])
  {
    assert FindExisting(c, p, renamed) == Some(x);
    SaveKeeps(p.table, Overwritten(c, p.table.rows[x], renamed, 0));
  }

  lemma SecondGoesThereToo(c: Call, p: Pass, x: string, reused: Item)
    requires TableOk(p.table) && x in p.table.rows && ActiveHere(c, p.table.rows[x]) && p.present == {x}
    requires reused.client !in p.index && reused.title != "" && c.normal(reused.title) !in p.seen
    requires c.normal(reused.title) in p.titles && p.titles[c.normal(reused.title)] == x
    ensures var two := SyncItem(c, p, reused, 1);
            two.present == {x} && TableOk(two.table) && x in two.table.rows && two.table.rows[x].title == reused.title
            && ActiveHere(c, two.table.rows[x])
  {
    assert FindExisting(c, p, reused) == Some(x);
    SaveKeeps(p.table, Overwritten(c, p.table.rows[x], reused, 1));
  }

  /** A todo retitled by its client id can still be found under its old title. Then the item with
      the new title is overwritten at once: two items, one todo. */
  lemma RetitlingSwallowsAnItem(c: Call, table: Table, x: string, renamed: Item, reused: Item)
    requires TableOk(table) && x in table.rows && forall id :: id in table.rows && ActiveHere(c, table.rows[id]) <==> id == x
    requires renamed.client != "" && renamed.title != "" && reused.client != renamed.client && reused.title != ""
    requires c.normal(reused.title) == c.normal(table.rows[x].title) != c.normal(renamed.title)
    ensures var items, index := [renamed, reused], map[renamed.client := x];
            EndPass(c, table, index, items).present == {x}
            && x in Synced(c, table, index, items).rows && Synced(c, table, index, items).rows[x].title == reused.title
  {
    var items, index := [renamed, reused], map[renamed.client := x];
    var start := StartPass(c, table, index);
    OneTitle(c, table.rows, table.order, x);
    FirstGoesToX(c, start, x, renamed);
    var one := SyncItem(c, start, renamed, 0);
    SecondGoesThereToo(c, one, x, reused);
    var two := SyncItem(c, one, reused, 1);
    assert SyncItems(c, start, items, 0) == start;
    assert SyncItems(c, start, items, 1) == one;
    assert SyncItems(c, start, items, 2) == two;
    ArchivedRow(c, two.table, two.present, x);
  }
}
