/**
 Reconciliation of an agent-authored todo list with the todo table, on values. The payload is the
 complete list; its items are matched by client id or title, the others created, and active todos
 the payload does not mention are archived. `normal` normalizes titles; times come from a clock
 and ids are supplied fresh.
 */
module AgentTodos {
  import opened Wrappers

  datatype Todo = Todo(id: string, session: string, title: string, description: string, source: string, status: string,
                       priority: int, dependencies: seq<string>, planNodes: seq<string>, run: Option<string>,
                       group: Option<string>, retries: nat, archivedAt: Option<nat>, createdAt: nat, updatedAt: nat)

  /** The in-memory table: rows by id, listed in insertion order. */
  datatype Table = Table(rows: map<string, Todo>, order: seq<string>) {
    function Save(t: Todo): Table {
      Table(rows[t.id := t], if t.id in rows then order else order + [t.id])
    }
  }

  ghost predicate TableOk(t: Table) {
    (forall id :: id in t.rows <==> id in t.order)
    && (forall i, j :: 0 <= i < j < |t.order| ==> t.order[i] != t.order[j])
    && (forall id :: id in t.rows ==> t.rows[id].id == id)
  }

  lemma SaveKeeps(t: Table, todo: Todo)
    requires TableOk(t)
    ensures TableOk(t.Save(todo))
  {
  }

  /** One payload item: its stripped title, the status word, the chosen description and the client
      id, each possibly empty. */
  datatype Item = Item(title: string, word: string, description: string, client: string)

  datatype Kind = Created | Updated | Running | Completed

  function StatusOf(word: string): string {
    if word == "in_progress" then "running" else if word == "completed" then "completed" else "ready"
  }

  predicate Terminal(status: string) {
    status in {"completed", "rolled_up", "failed", "cancelled", "skipped"}
  }

  predicate Active(t: Todo, group: string) {
    t.source == "agent" && t.archivedAt.None? && t.group == Some(group)
  }

  /** What one call is about. */
  datatype Call = Call(session: string, group: string, run: Option<string>, now: nat, normal: string -> string, newId: nat -> string)

  predicate ActiveHere(c: Call, t: Todo) {
    t.session == c.session && Active(t, c.group)
  }

  /** The loop's state: table, client index, title index, titles seen, todos present, changes. */
  datatype Pass = Pass(table: Table, index: map<string, string>, titles: map<string, string>, seen: set<string>,
                       present: set<string>, changes: seq<(string, Kind)>)

  // ---- the call ----

  /** The group of the active agent todo updated last, the later one in table order on a tie. */
  function CurrentGroup(rows: map<string, Todo>, order: seq<string>, session: string): (r: (Option<string>, nat))
    requires forall id :: id in order ==> id in rows
  {
    if order == [] then (None, 0)
    else
      var before := CurrentGroup(rows, order[..|order| - 1], session);
      var t := rows[order[|order| - 1]];
      if t.session == session && t.source == "agent" && t.archivedAt.None? && t.group.Some? && t.updatedAt >= before.1
      then (t.group, t.updatedAt) else before
  }

  /** The first active todo of each title, and the titles that occur twice. */
  function FirstTitles(c: Call, rows: map<string, Todo>, order: seq<string>): map<string, string>
    requires forall id :: id in order ==> id in rows
  {
    if order == [] then map[]
    else
      var before, id := FirstTitles(c, rows, order[..|order| - 1]), order[|order| - 1];
      var key := c.normal(rows[id].title);
      if ActiveHere(c, rows[id]) && key !in before then before[key := id] else before
  }

  function DoubleTitles(c: Call, rows: map<string, Todo>, order: seq<string>): set<string>
    requires forall id :: id in order ==> id in rows
  {
    if order == [] then {}
    else
      var before, id := order[..|order| - 1], order[|order| - 1];
      var key := c.normal(rows[id].title);
      DoubleTitles(c, rows, before) + if ActiveHere(c, rows[id]) && key in FirstTitles(c, rows, before) then {key} else {}
  }

  function TitleIndex(c: Call, rows: map<string, Todo>, order: seq<string>): map<string, string>
    requires forall id :: id in order ==> id in rows
  {
    FirstTitles(c, rows, order) - DoubleTitles(c, rows, order)
  }

  predicate Matches(c: Call, p: Pass, id: string) {
    id in p.table.rows && Active(p.table.rows[id], c.group)
  }

  /** By client id if that leads to an active todo, else by a title the payload has not used yet. */
  function FindExisting(c: Call, p: Pass, item: Item): Option<string> {
    var key := c.normal(item.title);
    if item.client != "" && item.client in p.index && Matches(c, p, p.index[item.client]) then Some(p.index[item.client])
    else if key in p.titles && key !in p.seen && Matches(c, p, p.titles[key]) then Some(p.titles[key])
    else None
  }

  function NewTodo(c: Call, item: Item, k: nat): Todo {
    Todo(c.newId(k), c.session, item.title, item.description, "agent", StatusOf(item.word), 99 - k, [], [], c.run, Some(c.group), 0,
         None, c.now, c.now)
  }

  function Overwritten(c: Call, t: Todo, item: Item, k: nat): Todo {
    t.(title := item.title, description := if item.description != "" then item.description else t.description,
       priority := 99 - k, status := StatusOf(item.word), run := if c.run.Some? then c.run else t.run,
       group := Some(c.group), updatedAt := c.now)
  }

  function KindOf(before: Option<string>, status: string): Kind {
    if before.None? then Created
    else if status != before.value && status == "running" then Running
    else if status != before.value && status == "completed" then Completed
    else Updated
  }

  /** Item k of the payload; an item without a title is skipped. */
  function SyncItem(c: Call, p: Pass, item: Item, k: nat): Pass {
    if item.title == "" then p
    else
      var found := FindExisting(c, p, item);
      var t := if found.Some? then Overwritten(c, p.table.rows[found.value], item, k) else NewTodo(c, item, k);
      Noted(c, p, item, t, KindOf(if found.Some? then Some(p.table.rows[found.value].status) else None, StatusOf(item.word)))
  }

  function Noted(c: Call, p: Pass, item: Item, t: Todo, kind: Kind): Pass {
    var key := c.normal(item.title);
    Pass(p.table.Save(t), if item.client != "" then p.index[item.client := t.id] else p.index,
         p.titles[key := t.id], p.seen + {key}, p.present + {t.id}, p.changes + [(t.id, kind)])
  }

  /** The first n items. */
  function SyncItems(c: Call, p: Pass, items: seq<Item>, n: nat): Pass
    requires n <= |items|
  {
    if n == 0 then p else SyncItem(c, SyncItems(c, p, items, n - 1), items[n - 1], n - 1)
  }

  function Archived(t: Todo, now: nat): Todo {
    t.(status := if Terminal(t.status) then t.status else "cancelled",
       archivedAt := if t.archivedAt.Some? then t.archivedAt else Some(now), updatedAt := now)
  }

  predicate Dropped(c: Call, t: Todo, present: set<string>) {
    ActiveHere(c, t) && t.id !in present
  }

  /** Active todos the payload did not mention are archived. */
  function ArchiveAbsent(c: Call, table: Table, present: set<string>): Table {
    table.(rows := map id | id in table.rows ::
             if Dropped(c, table.rows[id], present) then Archived(table.rows[id], c.now) else table.rows[id])
  }

  function CallFor(table: Table, session: string, run: Option<string>, now: nat, normal: string -> string, newId: nat -> string,
                   newGroup: string): Call
    requires TableOk(table)
  {
    var group := CurrentGroup(table.rows, table.order, session).0;
    Call(session, if group.Some? then group.value else newGroup, run, now, normal, newId)
  }

  function StartPass(c: Call, table: Table, index: map<string, string>): Pass
    requires TableOk(table)
  {
    Pass(table, index, TitleIndex(c, table.rows, table.order), {}, {}, [])
  }

  function EndPass(c: Call, table: Table, index: map<string, string>, items: seq<Item>): Pass
    requires TableOk(table)
  {
    SyncItems(c, StartPass(c, table, index), items, |items|)
  }

  /** The table after the call. */
  function Synced(c: Call, table: Table, index: map<string, string>, items: seq<Item>): Table
    requires TableOk(table)
  {
    var p := EndPass(c, table, index, items);
    ArchiveAbsent(c, p.table, p.present)
  }

  // ---- what the call keeps ----

  /** A map of names to todos leads to todos of the session. */
  ghost predicate Leads(m: map<string, string>, rows: map<string, Todo>, session: string) {
    forall key :: key in m ==> m[key] in rows && rows[m[key]].session == session
  }

  ghost predicate FreshFrom(newId: nat -> string, k: nat, rows: map<string, Todo>) {
    (forall j: nat :: k <= j ==> newId(j) !in rows) && (forall i: nat, j: nat :: i < j ==> newId(i) != newId(j))
  }

  /** Table and maps belong together, and the ids from k on are unused. */
  ghost predicate Rooted(c: Call, p: Pass, k: nat) {
    TableOk(p.table) && Leads(p.index, p.table.rows, c.session) && Leads(p.titles, p.table.rows, c.session)
    && FreshFrom(c.newId, k, p.table.rows)
  }

  /** The todos present are active and stamped with the time of the call, and the rows are the old
      ones but for those. */
  ghost predicate Stamped(c: Call, rows: map<string, Todo>, present: set<string>, before: map<string, Todo>) {
    (forall id :: id in present ==>
       id in rows && ActiveHere(c, rows[id]) && rows[id].updatedAt == c.now && (id in before ==> ActiveHere(c, before[id])))
    && (forall id :: id in before ==> id in rows && (id !in present ==> rows[id] == before[id]))
    && (forall id :: id in rows && id !in before ==> id in present)
  }

  ghost predicate PassOk(c: Call, p: Pass, before: map<string, Todo>, k: nat) {
    Rooted(c, p, k) && Stamped(c, p.table.rows, p.present, before)
  }

  lemma FindLeads(c: Call, p: Pass, before: map<string, Todo>, item: Item, k: nat)
    requires PassOk(c, p, before, k)
    ensures var found := FindExisting(c, p, item);
            found.Some? ==> found.value in p.table.rows && ActiveHere(c, p.table.rows[found.value])
                            && (found.value in before ==> ActiveHere(c, before[found.value]))
  {
  }

  lemma SaveStaysFresh(newId: nat -> string, k: nat, rows: map<string, Todo>, t: Todo)
    requires FreshFrom(newId, k, rows) && (t.id in rows || t.id == newId(k))
    ensures FreshFrom(newId, k + 1, rows[t.id := t])
  {
  }

  lemma SaveStillLeads(m: map<string, string>, rows: map<string, Todo>, session: string, t: Todo, key: string)
    requires Leads(m, rows, session) && t.session == session
    ensures Leads(m, rows[t.id := t], session) && Leads(m[key := t.id], rows[t.id := t], session)
  {
  }

  lemma SaveStamps(c: Call, rows: map<string, Todo>, present: set<string>, before: map<string, Todo>, t: Todo)
    requires Stamped(c, rows, present, before) && ActiveHere(c, t) && t.updatedAt == c.now
    requires t.id in before ==> ActiveHere(c, before[t.id])
    ensures Stamped(c, rows[t.id := t], present + {t.id}, before)
  {
  }

  /** Saving a todo of the call, a known one or a new one, and noting it. */
  lemma NotedKeeps(c: Call, p: Pass, before: map<string, Todo>, item: Item, t: Todo, kind: Kind, k: nat)
    requires PassOk(c, p, before, k) && ActiveHere(c, t) && t.updatedAt == c.now
    requires t.id == c.newId(k) || t.id in p.table.rows
    requires t.id in before ==> ActiveHere(c, before[t.id])
    ensures PassOk(c, Noted(c, p, item, t, kind), before, k + 1)
  {
    SaveKeeps(p.table, t);
    SaveStaysFresh(c.newId, k, p.table.rows, t);
    SaveStillLeads(p.index, p.table.rows, c.session, t, item.client);
    SaveStillLeads(p.titles, p.table.rows, c.session, t, c.normal(item.title));
    SaveStamps(c, p.table.rows, p.present, before, t);
  }

  lemma ItemKeeps(c: Call, p: Pass, before: map<string, Todo>, item: Item, k: nat)
    requires PassOk(c, p, before, k)
    ensures PassOk(c, SyncItem(c, p, item, k), before, k + 1)
  {
    if item.title != "" {
      FindLeads(c, p, before, item, k);
      var found := FindExisting(c, p, item);
      var t := if found.Some? then Overwritten(c, p.table.rows[found.value], item, k) else NewTodo(c, item, k);
      NotedKeeps(c, p, before, item, t, KindOf(if found.Some? then Some(p.table.rows[found.value].status) else None, StatusOf(item.word)), k);
    }
  }

  lemma {:induction false} FirstTitlesLead(c: Call, rows: map<string, Todo>, order: seq<string>)
    requires forall id :: id in order ==> id in rows
    ensures Leads(FirstTitles(c, rows, order), rows, c.session)
  {
    if order != [] {
      FirstTitlesLead(c, rows, order[..|order| - 1]);
    }
  }

  lemma StartIsOk(c: Call, table: Table, index: map<string, string>)
    requires TableOk(table) && Leads(index, table.rows, c.session) && FreshFrom(c.newId, 0, table.rows)
    ensures PassOk(c, StartPass(c, table, index), table.rows, 0)
  {
    FirstTitlesLead(c, table.rows, table.order);
  }

  lemma {:induction false} ItemsKeep(c: Call, table: Table, index: map<string, string>, items: seq<Item>, n: nat)
    requires TableOk(table) && Leads(index, table.rows, c.session) && FreshFrom(c.newId, 0, table.rows) && n <= |items|
    ensures PassOk(c, SyncItems(c, StartPass(c, table, index), items, n), table.rows, n)
  {
    hide SyncItem, PassOk, StartPass, FreshFrom, Leads, TableOk;
    if n == 0 {
      StartIsOk(c, table, index);
    } else {
      ItemsKeep(c, table, index, items, n - 1);
      ItemKeeps(c, SyncItems(c, StartPass(c, table, index), items, n - 1), table.rows, items[n - 1], n - 1);
    }
  }

  /** Archiving keeps the status of a todo that is through and cancels any other, sets the archive
      time unless it is set, stamps the todo and changes nothing else. */
  ghost predicate IsArchived(was: Todo, t: Todo, now: nat) {
    var through := was.status == "completed" || was.status == "rolled_up" || was.status == "failed" || was.status == "cancelled"
                   || was.status == "skipped";
    t.status == (if through then was.status else "cancelled") && t.updatedAt == now
    && t.archivedAt == Some(if was.archivedAt.Some? then was.archivedAt.value else now)
    && t == was.(status := t.status, archivedAt := t.archivedAt, updatedAt := t.updatedAt)
  }

  lemma ArchivedRow(c: Call, table: Table, present: set<string>, id: string)
    requires TableOk(table) && id in table.rows
    ensures var after := ArchiveAbsent(c, table, present).rows;
            id in after && after[id].id == id && after[id].session == table.rows[id].session
            && (if ActiveHere(c, table.rows[id]) && id !in present
                then IsArchived(table.rows[id], after[id], c.now) && !ActiveHere(c, after[id]) else after[id] == table.rows[id])
  {
  }

  lemma ArchiveKeeps(c: Call, table: Table, present: set<string>)
    requires TableOk(table)
    ensures TableOk(ArchiveAbsent(c, table, present)) && ArchiveAbsent(c, table, present).rows.Keys == table.rows.Keys
  {
    forall id | id in table.rows ensures ArchiveAbsent(c, table, present).rows[id].id == id {
      ArchivedRow(c, table, present, id);
    }
  }

  /** After the call the session's active todos of the group are exactly those the payload matched
      or created; all other todos that were there are as before; what dropped out is archived. */
  lemma SyncReconciles(c: Call, table: Table, index: map<string, string>, items: seq<Item>)
    requires TableOk(table) && Leads(index, table.rows, c.session) && FreshFrom(c.newId, 0, table.rows)
    ensures var present, after := EndPass(c, table, index, items).present, Synced(c, table, index, items);
            TableOk(after)
            && (forall id :: id in present <==> id in after.rows && ActiveHere(c, after.rows[id]))
            && (forall id :: id in table.rows ==> id in after.rows)
            && (forall id :: id in after.rows ==> id in table.rows || id in present)
            && (forall id :: id in table.rows && id !in present ==>
                  if ActiveHere(c, table.rows[id]) then IsArchived(table.rows[id], after.rows[id], c.now)
                  else after.rows[id] == table.rows[id])
            && (forall id :: id in present && id in table.rows ==> ActiveHere(c, table.rows[id]))
  {
    ItemsKeep(c, table, index, items, |items|);
    var p := EndPass(c, table, index, items);
    ArchiveKeeps(c, p.table, p.present);
    forall id | id in p.table.rows
      ensures id in p.present <==> ActiveHere(c, Synced(c, table, index, items).rows[id])
      ensures id in table.rows && id !in p.present ==>
                if ActiveHere(c, table.rows[id]) then IsArchived(table.rows[id], Synced(c, table, index, items).rows[id], c.now)
                else Synced(c, table, index, items).rows[id] == table.rows[id]
    {
      ArchivedRow(c, p.table, p.present, id);
    }
  }

  // ---- what one item writes ----

  /** The status a payload word stands for. */
  ghost predicate Means(word: string, status: string) {
    (word == "in_progress" ==> status == "running") && (word == "completed" ==> status == "completed")
    && (word != "in_progress" && word != "completed" ==> status == "ready")
  }

  /** A row as item k wants it, made from the row there was, if there was one. */
  ghost predicate Written(c: Call, was: Option<Todo>, item: Item, k: nat, t: Todo) {
    t.title == item.title && Means(item.word, t.status) && t.priority == 99 - k
    && t.session == c.session && t.source == "agent" && t.group == Some(c.group) && t.archivedAt.None? && t.updatedAt == c.now
    && match was
       case Some(w) =>
         t.description == (if item.description == "" then w.description else item.description)
         && t.run == (if c.run.None? then w.run else c.run) && t.dependencies == w.dependencies && t.planNodes == w.planNodes
         && t.retries == w.retries && t.createdAt == w.createdAt
       case None =>
         t.description == item.description && t.run == c.run && t.dependencies == [] && t.planNodes == [] && t.retries == 0
         && t.createdAt == c.now
  }

  lemma OverwrittenIs(c: Call, was: Todo, item: Item, k: nat)
    requires ActiveHere(c, was)
    ensures Overwritten(c, was, item, k).id == was.id && Written(c, Some(was), item, k, Overwritten(c, was, item, k))
  {
  }

  lemma NewIs(c: Call, item: Item, k: nat)
    ensures NewTodo(c, item, k).id == c.newId(k) && Written(c, None, item, k, NewTodo(c, item, k))
  {
  }

  lemma SaveWrites(table: Table, t: Todo)
    ensures var next := table.Save(t);
            next.rows.Keys == table.rows.Keys + {t.id} && next.rows[t.id] == t
            && (forall x :: x in table.rows && x != t.id ==> next.rows[x] == table.rows[x])
            && next.order == (if t.id in table.rows then table.order else table.order + [t.id])
  {
  }

  lemma Unused(c: Call, p: Pass, before: map<string, Todo>, k: nat)
    requires PassOk(c, p, before, k)
    ensures c.newId(k) !in p.table.rows && forall id :: id in p.table.rows ==> p.table.rows[id].id == id
  {
  }

  /** A titled item writes one row, the matched todo's or a new one behind the others. */
  lemma ItemWrites(c: Call, p: Pass, before: map<string, Todo>, item: Item, k: nat)
    requires PassOk(c, p, before, k) && item.title != ""
    ensures var found, rows, next := FindExisting(c, p, item), p.table.rows, SyncItem(c, p, item, k).table;
            var id := if found.Some? then found.value else c.newId(k);
            (found.Some? <==> id in rows)
            && next.rows.Keys == rows.Keys + {id} && (forall x :: x in rows && x != id ==> next.rows[x] == rows[x])
            && next.order == (if id in rows then p.table.order else p.table.order + [id])
            && next.rows[id].id == id && Written(c, if id in rows then Some(rows[id]) else None, item, k, next.rows[id])
  {
    hide PassOk, FindExisting, Written, Overwritten, NewTodo, ActiveHere;
    FindLeads(c, p, before, item, k);
    Unused(c, p, before, k);
    var found := FindExisting(c, p, item);
    if found.Some? {
      OverwrittenIs(c, p.table.rows[found.value], item, k);
      SaveWrites(p.table, Overwritten(c, p.table.rows[found.value], item, k));
    } else {
      NewIs(c, item, k);
      SaveWrites(p.table, NewTodo(c, item, k));
    }
  }

  /** It reports one change: Created exactly if nothing matched, Running or Completed exactly if the
      matched todo got that status now, and Updated else. */
  lemma ItemReports(c: Call, p: Pass, item: Item, k: nat)
    requires item.title != "" && TableOk(p.table)
    ensures var found, next := FindExisting(c, p, item), SyncItem(c, p, item, k).changes;
            |next| == |p.changes| + 1 && next[..|p.changes|] == p.changes
            && (var (id, kind) := next[|p.changes|];
                id == (if found.Some? then found.value else c.newId(k))
                && (kind == Created <==> found.None?)
                && (kind == Running <==> found.Some? && p.table.rows[found.value].status != "running" && item.word == "in_progress")
                && (kind == Completed <==> found.Some? && p.table.rows[found.value].status != "completed" && item.word == "completed"))
  {
    assert var found := FindExisting(c, p, item); found.Some? ==> found.value in p.table.rows;
    hide FindExisting;
  }

  // ---- what the indexes hold ----

  /** The todo at place i of the listing is active under the title `key`. */
  ghost predicate Bears(c: Call, rows: map<string, Todo>, id: string, key: string) {
    id in rows && ActiveHere(c, rows[id]) && c.normal(rows[id].title) == key
  }

  ghost predicate FirstBearer(c: Call, rows: map<string, Todo>, order: seq<string>, key: string, i: nat) {
    i < |order| && Bears(c, rows, order[i], key) && forall j :: 0 <= j < i ==> !Bears(c, rows, order[j], key)
  }

  lemma {:induction false} FirstTitlesAre(c: Call, rows: map<string, Todo>, order: seq<string>, key: string)
    requires forall id :: id in order ==> id in rows
    ensures key in FirstTitles(c, rows, order) ==>
              exists i: nat :: FirstBearer(c, rows, order, key, i) && FirstTitles(c, rows, order)[key] == order[i]
    ensures key !in FirstTitles(c, rows, order) ==> forall id :: id in order ==> !Bears(c, rows, id, key)
  {
    if order != [] {
      var before, n := order[..|order| - 1], |order| - 1;
      assert order == before + [order[n]];
      FirstTitlesAre(c, rows, before, key);
      if key in FirstTitles(c, rows, before) {
        var i: nat :| FirstBearer(c, rows, before, key, i) && FirstTitles(c, rows, before)[key] == before[i];
        assert FirstBearer(c, rows, order, key, i);
      } else if Bears(c, rows, order[n], key) {
        assert FirstBearer(c, rows, order, key, n);
      }
    }
  }

  lemma {:induction false} DoubleTitlesAre(c: Call, rows: map<string, Todo>, order: seq<string>, key: string)
    requires forall id :: id in order ==> id in rows
    ensures key in DoubleTitles(c, rows, order)
            <==> exists i, j :: 0 <= i < j < |order| && Bears(c, rows, order[i], key) && Bears(c, rows, order[j], key)
  {
    if order != [] {
      var before, n := order[..|order| - 1], |order| - 1;
      assert order == before + [order[n]];
      DoubleTitlesAre(c, rows, before, key);
      FirstTitlesAre(c, rows, before, key);
      if key in DoubleTitles(c, rows, before) {
        var i, j :| 0 <= i < j < |before| && Bears(c, rows, before[i], key) && Bears(c, rows, before[j], key);
        assert Bears(c, rows, order[i], key) && Bears(c, rows, order[j], key);
      } else if key in DoubleTitles(c, rows, order) {
        var i: nat :| FirstBearer(c, rows, before, key, i);
        assert Bears(c, rows, order[i], key) && Bears(c, rows, order[n], key);
      }
      if i, j :| 0 <= i < j < |order| && Bears(c, rows, order[i], key) && Bears(c, rows, order[j], key) {
        assert Bears(c, rows, before[i], key);
        if j < n {
          assert Bears(c, rows, before[j], key);
        }
      }
    }
  }

  /** The title index leads a title to a todo exactly if that is the only active one of the title. */
  lemma TitleIndexExactly(c: Call, table: Table, key: string, id: string)
    requires TableOk(table)
    ensures var titles := TitleIndex(c, table.rows, table.order);
            key in titles && titles[key] == id
            <==> Bears(c, table.rows, id, key) && forall x :: Bears(c, table.rows, x, key) ==> x == id
  {
    var rows, order := table.rows, table.order;
    FirstTitlesAre(c, rows, order, key);
    DoubleTitlesAre(c, rows, order, key);
    if key in TitleIndex(c, rows, order) {
      var i: nat :| FirstBearer(c, rows, order, key, i) && FirstTitles(c, rows, order)[key] == order[i];
      forall x | Bears(c, rows, x, key) ensures x == order[i] {
        var j :| 0 <= j < |order| && order[j] == x;
        assert !(i < j) && !(j < i);
      }
    }
    if Bears(c, rows, id, key) && forall x :: Bears(c, rows, x, key) ==> x == id {
      assert key in FirstTitles(c, rows, order);
    }
  }

  /** A todo that stands for its group when the current one is looked for. */
  ghost predicate Speaks(t: Todo, session: string) {
    t.session == session && t.source == "agent" && t.archivedAt.None? && t.group.Some?
  }

  ghost predicate Newest(rows: map<string, Todo>, order: seq<string>, session: string, i: nat) {
    i < |order| && order[i] in rows && Speaks(rows[order[i]], session)
    && forall j :: 0 <= j < |order| && order[j] in rows && Speaks(rows[order[j]], session) ==>
         rows[order[j]].updatedAt <= rows[order[i]].updatedAt && (j > i ==> rows[order[j]].updatedAt < rows[order[i]].updatedAt)
  }

  /** The current group is that of the last of the todos updated last; there is none exactly if no
      todo stands for a group. */
  lemma {:induction false} CurrentGroupIsNewest(rows: map<string, Todo>, order: seq<string>, session: string)
    requires forall id :: id in order ==> id in rows
    ensures var (group, at) := CurrentGroup(rows, order, session);
            if group.Some? then exists i: nat :: Newest(rows, order, session, i) && rows[order[i]].group == group && rows[order[i]].updatedAt == at
            else at == 0 && forall id :: id in order ==> !Speaks(rows[id], session)
  {
    if order != [] {
      var before, n := order[..|order| - 1], |order| - 1;
      assert order == before + [order[n]];
      CurrentGroupIsNewest(rows, before, session);
      var (group, at) := CurrentGroup(rows, before, session);
      var t := rows[order[n]];
      if group.Some? {
        var i: nat :| Newest(rows, before, session, i) && rows[before[i]].group == group && rows[before[i]].updatedAt == at;
        if Speaks(t, session) && t.updatedAt >= at {
          assert Newest(rows, order, session, n);
        } else {
          assert Newest(rows, order, session, i);
        }
      } else if Speaks(t, session) {
        assert Newest(rows, order, session, n);
      }
    }
  }
}
