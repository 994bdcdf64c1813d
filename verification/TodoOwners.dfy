/**
 Which todo each item of a payload goes to, read off the call's inputs alone: the payload, the
 client index and the titles of the active todos; and so when items end up in one todo.
 */
module TodoOwners {
  import opened Wrappers
  import opened AgentTodos
  import opened TodoRepeat

  // ---- the todo of an item ----

  predicate Titled(items: seq<Item>, i: nat) {
    i < |items| && items[i].title != ""
  }

  predicate SameClient(items: seq<Item>, i: nat, j: nat) {
    Titled(items, i) && j < |items| && items[j].client != "" && items[i].client == items[j].client
  }

  /** The first titled item up to j, from i on, with the client id of item j, or j itself. */
  function FirstFrom(items: seq<Item>, i: nat, j: nat): (f: nat)
    requires i <= j
    ensures i <= f <= j && (f == j || SameClient(items, f, j))
            && forall h: nat :: i <= h < f ==> !SameClient(items, h, j)
    decreases j - i
  {
    if i == j || SameClient(items, i, j) then i else FirstFrom(items, i + 1, j)
  }

  predicate TitleUsedBefore(c: Call, items: seq<Item>, j: nat)
    requires j < |items|
  {
    exists i: nat :: i < j && Titled(items, i) && c.normal(items[i].title) == c.normal(items[j].title)
  }

  /** The client id is one of an active todo. */
  predicate ClientKnown(c: Call, rows: map<string, Todo>, index: map<string, string>, item: Item) {
    item.client != "" && item.client in index && index[item.client] in rows && Active(rows[index[item.client]], c.group)
  }

  /** The todo of an item whose client id no earlier item has: the one its client id leads to, or
      the one of its title, if the title is new in the payload, or a new one. */
  function OwnTodo(c: Call, rows: map<string, Todo>, index: map<string, string>, titles: map<string, string>,
                   items: seq<Item>, j: nat): string
    requires j < |items|
  {
    var key := c.normal(items[j].title);
    if ClientKnown(c, rows, index, items[j]) then index[items[j].client]
    else if key in titles && !TitleUsedBefore(c, items, j) then titles[key]
    else c.newId(j)
  }

  /** The todo item j goes to: that of the first item with its client id. */
  function Owner(c: Call, rows: map<string, Todo>, index: map<string, string>, titles: map<string, string>,
                 items: seq<Item>, j: nat): string
    requires j < |items|
  {
    OwnTodo(c, rows, index, titles, items, FirstFrom(items, 0, j))
  }

  lemma SameClientSameOwner(c: Call, rows: map<string, Todo>, index: map<string, string>,
                            titles: map<string, string>, items: seq<Item>, i: nat, j: nat)
    requires i < j < |items| && SameClient(items, i, j)
    ensures Owner(c, rows, index, titles, items, i) == Owner(c, rows, index, titles, items, j)
  {
    var f, g := FirstFrom(items, 0, i), FirstFrom(items, 0, j);
    assert SameClient(items, f, j);
    assert g <= f && SameClient(items, g, i);
  }

  lemma FirstOwns(c: Call, rows: map<string, Todo>, index: map<string, string>, titles: map<string, string>,
                  items: seq<Item>, j: nat)
    requires j < |items| && forall i: nat :: i < j ==> !SameClient(items, i, j)
    ensures Owner(c, rows, index, titles, items, j) == OwnTodo(c, rows, index, titles, items, j)
  {
  }

  // ---- the loop finds it ----

  /** The client index after k items: the owners of the items so far, and else as before. */
  ghost predicate IndexKnown(c: Call, rows: map<string, Todo>, index: map<string, string>,
                             titles: map<string, string>, items: seq<Item>, p: Pass, k: nat)
    requires k <= |items|
  {
    (forall i: nat :: i < k && Titled(items, i) && items[i].client != "" ==>
       items[i].client in p.index && p.index[items[i].client] == Owner(c, rows, index, titles, items, i))
    && forall key :: (forall i: nat :: i < k && Titled(items, i) ==> items[i].client != key) ==>
         (key in p.index <==> key in index) && (key in index ==> p.index[key] == index[key])
  }

  /** The titles seen are those of the items so far, and the others lead where they did. */
  ghost predicate TitlesKnown(c: Call, titles: map<string, string>, items: seq<Item>, p: Pass, k: nat)
    requires k <= |items|
  {
    (forall key :: key in p.seen <==> exists i: nat :: i < k && Titled(items, i) && c.normal(items[i].title) == key)
    && forall key :: key !in p.seen ==> (key in p.titles <==> key in titles) && (key in titles ==> p.titles[key] == titles[key])
  }

  ghost predicate PresentKnown(c: Call, rows: map<string, Todo>, index: map<string, string>,
                               titles: map<string, string>, items: seq<Item>, p: Pass, k: nat)
    requires k <= |items|
  {
    forall id :: id in p.present <==> exists i: nat :: i < k && Titled(items, i) && Owner(c, rows, index, titles, items, i) == id
  }

  ghost predicate Known(c: Call, rows: map<string, Todo>, index: map<string, string>, titles: map<string, string>,
                        items: seq<Item>, p: Pass, k: nat)
    requires k <= |items|
  {
    IndexKnown(c, rows, index, titles, items, p, k) && TitlesKnown(c, titles, items, p, k)
    && PresentKnown(c, rows, index, titles, items, p, k)
  }

  /** A title of the index is the one its todo has, and the todo is active. */
  ghost predicate TitlesOfActive(c: Call, rows: map<string, Todo>, titles: map<string, string>) {
    forall key :: key in titles ==> titles[key] in rows && ActiveHere(c, rows[titles[key]]) && c.normal(rows[titles[key]].title) == key
  }

  lemma {:induction false} FirstTitlesOfActive(c: Call, rows: map<string, Todo>, order: seq<string>)
    requires forall id :: id in order ==> id in rows
    ensures TitlesOfActive(c, rows, FirstTitles(c, rows, order))
  {
    if order != [] {
      FirstTitlesOfActive(c, rows, order[..|order| - 1]);
    }
  }

  /** The rows of before the call are active in the loop exactly if they were before. */
  lemma StaysActive(c: Call, p: Pass, before: map<string, Todo>, k: nat, id: string)
    requires PassOk(c, p, before, k) && id in before
    ensures Matches(c, p, id) <==> Active(before[id], c.group)
  {
  }

  /** The todo the loop picks for a titled item. */
  function Picked(c: Call, p: Pass, item: Item, k: nat): string {
    var found := FindExisting(c, p, item);
    if found.Some? then found.value else c.newId(k)
  }

  lemma PickedIsOwner(c: Call, rows: map<string, Todo>, index: map<string, string>, titles: map<string, string>,
                      items: seq<Item>, p: Pass, k: nat)
    requires PassOk(c, p, rows, k) && Leads(index, rows, c.session) && TitlesOfActive(c, rows, titles)
    requires k < |items| && Known(c, rows, index, titles, items, p, k) && Titled(items, k)
    ensures Picked(c, p, items[k], k) == Owner(c, rows, index, titles, items, k)
  {
    hide Owner, OwnTodo, PassOk, Known;
    if i: nat :| i < k && SameClient(items, i, k) {
      PickedByEarlier(c, rows, index, titles, items, p, k, i);
    } else {
      FirstOwns(c, rows, index, titles, items, k);
      PickedFresh(c, rows, index, titles, items, p, k);
    }
  }

  lemma PickedByEarlier(c: Call, rows: map<string, Todo>, index: map<string, string>, titles: map<string, string>,
                        items: seq<Item>, p: Pass, k: nat, i: nat)
    requires PassOk(c, p, rows, k) && i < k < |items| && Known(c, rows, index, titles, items, p, k)
             && Titled(items, k) && SameClient(items, i, k)
    ensures Picked(c, p, items[k], k) == Owner(c, rows, index, titles, items, k)
  {
    hide Owner;
    SameClientSameOwner(c, rows, index, titles, items, i, k);
    assert p.index[items[k].client] in p.present;
  }

  lemma PickedFresh(c: Call, rows: map<string, Todo>, index: map<string, string>, titles: map<string, string>,
                    items: seq<Item>, p: Pass, k: nat)
    requires PassOk(c, p, rows, k) && Leads(index, rows, c.session) && TitlesOfActive(c, rows, titles)
    requires k < |items| && Known(c, rows, index, titles, items, p, k) && Titled(items, k)
             && forall i: nat :: i < k ==> !SameClient(items, i, k)
    ensures Picked(c, p, items[k], k) == OwnTodo(c, rows, index, titles, items, k)
  {
    hide PassOk, Owner;
    var item := items[k];
    var key := c.normal(item.title);
    forall i: nat | i < k && Titled(items, i) && item.client != ""
      ensures items[i].client != item.client
    {
      assert !SameClient(items, i, k);
    }
    if item.client != "" && item.client in index {
      StaysActive(c, p, rows, k, index[item.client]);
    }
    if key in titles {
      StaysActive(c, p, rows, k, titles[key]);
    }
    assert key in p.seen <==> TitleUsedBefore(c, items, k);
  }

  /** What one item does to the loop's state, but for the table. */
  lemma ItemNotes(c: Call, p: Pass, before: map<string, Todo>, item: Item, k: nat)
    requires PassOk(c, p, before, k)
    ensures var next := SyncItem(c, p, item, k);
            var id := Picked(c, p, item, k);
            var key := c.normal(item.title);
            if item.title == "" then next == p
            else next.index == (if item.client != "" then p.index[item.client := id] else p.index)
                 && next.titles == p.titles[key := id] && next.seen == p.seen + {key} && next.present == p.present + {id}
  {
    FindLeads(c, p, before, item, k);
  }

  lemma ItemIsKnown(c: Call, rows: map<string, Todo>, index: map<string, string>, titles: map<string, string>,
                    items: seq<Item>, p: Pass, k: nat)
    requires PassOk(c, p, rows, k) && Leads(index, rows, c.session) && TitlesOfActive(c, rows, titles)
    requires k < |items| && Known(c, rows, index, titles, items, p, k)
    ensures Known(c, rows, index, titles, items, SyncItem(c, p, items[k], k), k + 1)
  {
    hide Owner, PassOk, Leads, TitlesOfActive, SyncItem, IndexKnown, TitlesKnown, PresentKnown;
    ItemNotes(c, p, rows, items[k], k);
    if items[k].title != "" {
      PickedIsOwner(c, rows, index, titles, items, p, k);
    }
    var next := SyncItem(c, p, items[k], k);
    IndexStep(c, rows, index, titles, items, p, next, k);
    TitlesStep(c, titles, items, p, next, k, Picked(c, p, items[k], k));
    PresentStep(c, rows, index, titles, items, p, next, k);
  }

  lemma IndexStep(c: Call, rows: map<string, Todo>, index: map<string, string>, titles: map<string, string>,
                  items: seq<Item>, p: Pass, next: Pass, k: nat)
    requires k < |items| && IndexKnown(c, rows, index, titles, items, p, k)
    requires next.index == if items[k].title != "" && items[k].client != ""
                           then p.index[items[k].client := Owner(c, rows, index, titles, items, k)] else p.index
    ensures IndexKnown(c, rows, index, titles, items, next, k + 1)
  {
    hide Owner;
    forall i: nat | i < k + 1 && Titled(items, i) && items[i].client != ""
      ensures items[i].client in next.index && next.index[items[i].client] == Owner(c, rows, index, titles, items, i)
    {
      if i < k && items[i].client == items[k].client {
        SameClientSameOwner(c, rows, index, titles, items, i, k);
      }
    }
    forall key | forall i: nat :: i < k + 1 && Titled(items, i) ==> items[i].client != key
      ensures (key in next.index <==> key in index) && (key in index ==> next.index[key] == index[key])
    {
      assert Titled(items, k) ==> items[k].client != key;
    }
  }

  lemma TitlesStep(c: Call, titles: map<string, string>, items: seq<Item>, p: Pass, next: Pass, k: nat, id: string)
    requires k < |items| && TitlesKnown(c, titles, items, p, k)
    requires if items[k].title == "" then next == p
             else next.seen == p.seen + {c.normal(items[k].title)} && next.titles == p.titles[c.normal(items[k].title) := id]
    ensures TitlesKnown(c, titles, items, next, k + 1)
  {
    forall key
      ensures key in next.seen <==> exists i: nat :: i < k + 1 && Titled(items, i) && c.normal(items[i].title) == key
    {
      if Titled(items, k) && key == c.normal(items[k].title) {
      } else if key in p.seen {
        var i: nat :| i < k && Titled(items, i) && c.normal(items[i].title) == key;
      }
    }
  }

  lemma PresentStep(c: Call, rows: map<string, Todo>, index: map<string, string>, titles: map<string, string>,
                    items: seq<Item>, p: Pass, next: Pass, k: nat)
    requires k < |items| && PresentKnown(c, rows, index, titles, items, p, k)
    requires next.present == if items[k].title == "" then p.present else p.present + {Owner(c, rows, index, titles, items, k)}
    ensures PresentKnown(c, rows, index, titles, items, next, k + 1)
  {
    hide Owner;
    forall id
      ensures id in next.present <==> exists i: nat :: i < k + 1 && Titled(items, i) && Owner(c, rows, index, titles, items, i) == id
    {
      if id in p.present {
        var i: nat :| i < k && Titled(items, i) && Owner(c, rows, index, titles, items, i) == id;
      } else if Titled(items, k) && Owner(c, rows, index, titles, items, k) == id {
      }
    }
  }

  lemma NothingKnown(c: Call, table: Table, index: map<string, string>, items: seq<Item>)
    requires TableOk(table)
    ensures Known(c, table.rows, index, TitleIndex(c, table.rows, table.order), items, SyncItems(c, StartPass(c, table, index), items, 0), 0)
  {
  }

  lemma {:induction false} ItemsAreKnown(c: Call, table: Table, index: map<string, string>, items: seq<Item>, n: nat)
    requires TableOk(table) && Leads(index, table.rows, c.session) && FreshFrom(c.newId, 0, table.rows) && n <= |items|
    ensures Known(c, table.rows, index, TitleIndex(c, table.rows, table.order), items,
                  SyncItems(c, StartPass(c, table, index), items, n), n)
  {
    hide Known, SyncItem, PassOk, StartPass, TitlesOfActive, FreshFrom, Leads, TitleIndex;
    if n == 0 {
      NothingKnown(c, table, index, items);
    } else {
      ItemsAreKnown(c, table, index, items, n - 1);
      ItemsKeep(c, table, index, items, n - 1);
      TitleIndexOfActive(c, table);
      ItemIsKnown(c, table.rows, index, TitleIndex(c, table.rows, table.order), items,
                  SyncItems(c, StartPass(c, table, index), items, n - 1), n - 1);
    }
  }

  lemma TitleIndexOfActive(c: Call, table: Table)
    requires TableOk(table)
    ensures TitlesOfActive(c, table.rows, TitleIndex(c, table.rows, table.order))
  {
    FirstTitlesOfActive(c, table.rows, table.order);
  }

  // ---- what follows ----

  /** The todo item j of a call goes to. */
  function OwnerIn(c: Call, table: Table, index: map<string, string>, items: seq<Item>, j: nat): string
    requires TableOk(table) && j < |items|
  {
    Owner(c, table.rows, index, TitleIndex(c, table.rows, table.order), items, j)
  }

  /** The active todos after the call are the owners of the titled items. */
  lemma ActiveAreOwners(c: Call, table: Table, index: map<string, string>, items: seq<Item>, id: string)
    requires TableOk(table) && Leads(index, table.rows, c.session) && FreshFrom(c.newId, 0, table.rows)
    ensures var rows := Synced(c, table, index, items).rows;
            id in rows && ActiveHere(c, rows[id]) <==> exists j: nat :: Titled(items, j) && OwnerIn(c, table, index, items, j) == id
  {
    hide Owner, Synced;
    ItemsAreKnown(c, table, index, items, |items|);
    SyncReconciles(c, table, index, items);
    assert id in EndPass(c, table, index, items).present
           <==> exists j: nat :: j < |items| && Titled(items, j) && OwnerIn(c, table, index, items, j) == id;
  }

  /** No titled item behind item j, up to the n-th, goes to its todo. */
  ghost predicate LastOfOwner(c: Call, table: Table, index: map<string, string>, items: seq<Item>, j: nat, n: nat)
    requires TableOk(table) && n <= |items|
  {
    j < n && Titled(items, j)
    && forall i: nat :: j < i < n && Titled(items, i) ==> OwnerIn(c, table, index, items, i) != OwnerIn(c, table, index, items, j)
  }

  lemma ItemGoesToOwner(c: Call, table: Table, index: map<string, string>, items: seq<Item>, k: nat)
    requires TableOk(table) && Leads(index, table.rows, c.session) && FreshFrom(c.newId, 0, table.rows) && k < |items|
    ensures var p := SyncItems(c, StartPass(c, table, index), items, k);
            PassOk(c, p, table.rows, k)
            && (Titled(items, k) ==>
                  (if FindExisting(c, p, items[k]).Some? then FindExisting(c, p, items[k]).value else c.newId(k))
                  == OwnerIn(c, table, index, items, k))
  {
    hide PassOk, SyncItem, Owner, Leads, FreshFrom, TitleIndex;
    ItemsKeep(c, table, index, items, k);
    ItemsAreKnown(c, table, index, items, k);
    if Titled(items, k) {
      TitleIndexOfActive(c, table);
      PickedIsOwner(c, table.rows, index, TitleIndex(c, table.rows, table.order), items,
                    SyncItems(c, StartPass(c, table, index), items, k), k);
    }
  }

  /** A todo carries the last item that goes to it. */
  lemma {:induction false} LastIsCarried(c: Call, table: Table, index: map<string, string>, items: seq<Item>, j: nat, n: nat)
    requires TableOk(table) && Leads(index, table.rows, c.session) && FreshFrom(c.newId, 0, table.rows) && n <= |items|
    requires LastOfOwner(c, table, index, items, j, n)
    ensures var rows, id := SyncItems(c, StartPass(c, table, index), items, n).table.rows, OwnerIn(c, table, index, items, j);
            id in rows && Carries(rows[id], items[j], j)
  {
    hide PassOk, SyncItem, OwnerIn, Leads, FreshFrom, StartPass, TableOk, FindExisting;
    var p := SyncItems(c, StartPass(c, table, index), items, n - 1);
    ItemGoesToOwner(c, table, index, items, n - 1);
    if Titled(items, n - 1) {
      ItemWrites(c, p, table.rows, items[n - 1], n - 1);
    } else {
      UntitledIsSkipped(c, p, items[n - 1], n - 1);
    }
    if j < n - 1 {
      LastIsCarried(c, table, index, items, j, n - 1);
    }
  }

  lemma UntitledIsSkipped(c: Call, p: Pass, item: Item, k: nat)
    requires item.title == ""
    ensures SyncItem(c, p, item, k) == p
  {
  }

  /** After the call the todo of an item carries title, status and place of the last item that goes
      to it. */
  lemma OwnersCarryTheirLast(c: Call, table: Table, index: map<string, string>, items: seq<Item>, j: nat)
    requires TableOk(table) && Leads(index, table.rows, c.session) && FreshFrom(c.newId, 0, table.rows)
    requires LastOfOwner(c, table, index, items, j, |items|)
    ensures var rows, id := Synced(c, table, index, items).rows, OwnerIn(c, table, index, items, j);
            id in rows && Carries(rows[id], items[j], j)
  {
    hide OwnerIn, Carries, FreshFrom, Leads, StartPass, SyncItems, TableOk, ArchiveAbsent, Owner;
    LastIsCarried(c, table, index, items, j, |items|);
    ActiveAreOwners(c, table, index, items, OwnerIn(c, table, index, items, j));
    SyncReconciles(c, table, index, items);
    ItemsKeep(c, table, index, items, |items|);
    var p := EndPass(c, table, index, items);
    ArchivedRow(c, p.table, p.present, OwnerIn(c, table, index, items, j));
  }

  function Count(items: seq<Item>, n: nat): nat
    requires n <= |items|
  {
    if n == 0 then 0 else Count(items, n - 1) + if Titled(items, n - 1) then 1 else 0
  }

  /** Two titled items have one owner. */
  ghost predicate Merged(c: Call, table: Table, index: map<string, string>, items: seq<Item>, i: nat, j: nat)
    requires TableOk(table)
  {
    i < j && Titled(items, i) && Titled(items, j) && OwnerIn(c, table, index, items, i) == OwnerIn(c, table, index, items, j)
  }

  lemma OneMore(present: set<string>, id: string)
    ensures |present + {id}| == |present| + if id in present then 0 else 1
  {
    assert id in present ==> present + {id} == present;
  }

  /** Every titled item has a todo of its own after the call exactly if no two have one owner. */
  lemma {:induction false} OwnTodosExactly(c: Call, table: Table, index: map<string, string>, items: seq<Item>, n: nat)
    requires TableOk(table) && Leads(index, table.rows, c.session) && FreshFrom(c.newId, 0, table.rows) && n <= |items|
    ensures |SyncItems(c, StartPass(c, table, index), items, n).present| <= Count(items, n)
    ensures |SyncItems(c, StartPass(c, table, index), items, n).present| == Count(items, n)
            <==> forall i: nat, j: nat :: j < n ==> !Merged(c, table, index, items, i, j)
  {
    hide PassOk, SyncItem, StartPass, TableOk, Leads, FreshFrom, OwnerIn;
    if n > 0 {
      OwnTodosExactly(c, table, index, items, n - 1);
      ItemCounts(c, table, index, items, n - 1);
    } else {
      NothingPresent(c, table, index, items);
    }
  }

  lemma NothingPresent(c: Call, table: Table, index: map<string, string>, items: seq<Item>)
    requires TableOk(table)
    ensures SyncItems(c, StartPass(c, table, index), items, 0).present == {}
  {
  }

  lemma ItemCounts(c: Call, table: Table, index: map<string, string>, items: seq<Item>, k: nat)
    requires TableOk(table) && Leads(index, table.rows, c.session) && FreshFrom(c.newId, 0, table.rows) && k < |items|
    ensures var start := StartPass(c, table, index);
            |SyncItems(c, start, items, k + 1).present|
            == |SyncItems(c, start, items, k).present|
               + if Titled(items, k) && forall i: nat :: !Merged(c, table, index, items, i, k) then 1 else 0
  {
    hide PassOk, SyncItem, Owner, Leads, FreshFrom, TitleIndex;
    var p := SyncItems(c, StartPass(c, table, index), items, k);
    ItemsKeep(c, table, index, items, k);
    ItemsAreKnown(c, table, index, items, k);
    ItemNotes(c, p, table.rows, items[k], k);
    if Titled(items, k) {
      TitleIndexOfActive(c, table);
      PickedIsOwner(c, table.rows, index, TitleIndex(c, table.rows, table.order), items, p, k);
      var id := OwnerIn(c, table, index, items, k);
      OneMore(p.present, id);
      if id in p.present {
        var i: nat :| i < k && Titled(items, i) && OwnerIn(c, table, index, items, i) == id;
        assert Merged(c, table, index, items, i, k);
      }
    }
  }

  /** Item j shares its todo with an earlier one exactly if an earlier item has its client id; or
      its client id leads to a todo an earlier item goes to; or its client id leads nowhere, its
      title is new in the payload, and an earlier item goes by its own client id to the todo of
      that title. */
  lemma MergesExactly(c: Call, table: Table, index: map<string, string>, items: seq<Item>, j: nat)
    requires TableOk(table) && Leads(index, table.rows, c.session) && FreshFrom(c.newId, 0, table.rows)
             && Titled(items, j)
    ensures var rows, titles := table.rows, TitleIndex(c, table.rows, table.order);
            var key := c.normal(items[j].title);
            (exists i: nat :: Merged(c, table, index, items, i, j))
            <==> if exists i: nat :: i < j && SameClient(items, i, j) then true
                 else if ClientKnown(c, rows, index, items[j]) then
                   exists i: nat :: i < j && Titled(items, i) && OwnerIn(c, table, index, items, i) == index[items[j].client]
                 else
                   key in titles && !TitleUsedBefore(c, items, j)
                   && exists i: nat :: i < j && Titled(items, i) && ClientKnown(c, rows, index, items[i]) && index[items[i].client] == titles[key]
  {
    hide Owner, OwnTodo, TitleIndex, Active;
    var rows, titles := table.rows, TitleIndex(c, table.rows, table.order);
    if i: nat :| i < j && SameClient(items, i, j) {
      SameClientSameOwner(c, rows, index, titles, items, i, j);
      assert Merged(c, table, index, items, i, j);
    } else {
      FirstOwns(c, rows, index, titles, items, j);
      if ClientKnown(c, rows, index, items[j]) {
        OwnByClient(c, rows, index, titles, items, j);
        forall i: nat | i < j && Titled(items, i) && OwnerIn(c, table, index, items, i) == index[items[j].client]
          ensures Merged(c, table, index, items, i, j)
        {
        }
      } else {
        MergesByTitle(c, table, index, items, j);
      }
    }
  }

  lemma OwnByClient(c: Call, rows: map<string, Todo>, index: map<string, string>, titles: map<string, string>,
                    items: seq<Item>, j: nat)
    requires j < |items| && ClientKnown(c, rows, index, items[j])
    ensures OwnTodo(c, rows, index, titles, items, j) == index[items[j].client]
  {
  }

  /** An item without a known client id, whose client id no earlier item has. */
  lemma MergesByTitle(c: Call, table: Table, index: map<string, string>, items: seq<Item>, j: nat)
    requires TableOk(table) && FreshFrom(c.newId, 0, table.rows) && Titled(items, j)
    requires !ClientKnown(c, table.rows, index, items[j]) && forall i: nat :: i < j ==> !SameClient(items, i, j)
    ensures var rows, titles := table.rows, TitleIndex(c, table.rows, table.order);
            var key := c.normal(items[j].title);
            (exists i: nat :: Merged(c, table, index, items, i, j))
            <==> key in titles && !TitleUsedBefore(c, items, j)
                 && exists i: nat :: i < j && Titled(items, i) && ClientKnown(c, rows, index, items[i]) && index[items[i].client] == titles[key]
  {
    hide Owner, TitleIndex, Active, TitlesOfActive;
    var rows, titles := table.rows, TitleIndex(c, table.rows, table.order);
    TitleIndexOfActive(c, table);
    FirstOwns(c, rows, index, titles, items, j);
    forall i: nat | i < j && Titled(items, i)
      ensures Merged(c, table, index, items, i, j)
              <==> c.normal(items[j].title) in titles && !TitleUsedBefore(c, items, j)
                   && ClientKnown(c, rows, index, items[i]) && index[items[i].client] == titles[c.normal(items[j].title)]
    {
      OwnerMeets(c, rows, index, titles, items, i, j);
    }
  }

  /** The owner of item i, once it is also item j's by title or as a new todo. */
  lemma OwnerMeets(c: Call, rows: map<string, Todo>, index: map<string, string>, titles: map<string, string>,
                   items: seq<Item>, i: nat, j: nat)
    requires FreshFrom(c.newId, 0, rows) && TitlesOfActive(c, rows, titles)
    requires i < j && Titled(items, i) && Titled(items, j) && !ClientKnown(c, rows, index, items[j])
    ensures Owner(c, rows, index, titles, items, i) == OwnTodo(c, rows, index, titles, items, j)
            <==> c.normal(items[j].title) in titles && !TitleUsedBefore(c, items, j)
                 && ClientKnown(c, rows, index, items[i]) && index[items[i].client] == titles[c.normal(items[j].title)]
  {
    var f := FirstFrom(items, 0, i);
    assert f == i || items[f].client == items[i].client;
    assert Titled(items, f);
    assert ClientKnown(c, rows, index, items[f]) <==> ClientKnown(c, rows, index, items[i]);
    var key, other := c.normal(items[j].title), c.normal(items[f].title);
    if !ClientKnown(c, rows, index, items[f]) && other in titles && !TitleUsedBefore(c, items, f) && key in titles && !TitleUsedBefore(c, items, j) {
      assert key != other;
      assert c.normal(rows[titles[key]].title) == key && c.normal(rows[titles[other]].title) == other;
    }
  }

  /** A payload without client ids never merges two items. */
  lemma NoClientsNoMerge(c: Call, table: Table, index: map<string, string>, items: seq<Item>)
    requires TableOk(table) && Leads(index, table.rows, c.session) && FreshFrom(c.newId, 0, table.rows)
    requires forall i :: 0 <= i < |items| && items[i].title != "" ==> items[i].client == ""
    ensures |EndPass(c, table, index, items).present| == Count(items, |items|)
  {
    OwnTodosExactly(c, table, index, items, |items|);
    forall i: nat, j: nat | j < |items|
      ensures !Merged(c, table, index, items, i, j)
    {
      if Titled(items, j) {
        MergesExactly(c, table, index, items, j);
      }
    }
  }
}
