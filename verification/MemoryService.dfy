/**
 The memory service as an object over its two store tables. `normal` and the service's other
 parameters are as in `Memory`.
 */
module MemoryService {
  import opened Wrappers
  import opened Text
  import opened Memory

  class Service {
    var table: map<string, Entry>
    var index: set<(string, string)>
    const normal: string -> string

    /** The index agrees with the table, no scope holds the same content twice or too many entries. */
    ghost predicate Valid()
      reads this
    {
      Indexed(table, index) && Deduplicated(table, normal) && WithinCap(table, PER_SCOPE_CAP)
    }

    constructor (normal: string -> string)
      ensures Valid() && table == map[] && this.normal == normal
    {
      this.normal := normal;
      table, index := map[], {};
      new;
      assert forall scope :: Ids(table, scope) == {};
    }

    method Save(e: Entry)
      modifies this
      ensures table == old(table)[e.id := e] && index == old(index) + {(e.scope, e.id)}
    {
      table := table[e.id := e];
      index := index + {(e.scope, e.id)};
    }

    /** The rows with the given ids, in some order. */
    method Rows(ids: set<string>) returns (listed: seq<Entry>)
      requires ids <= table.Keys && forall id :: id in ids ==> table[id].id == id
      ensures Lists(listed, table, ids)
    {
      hide Lists;
      listed := [];
      NothingListed(table);
      var left := ids;
      ghost var taken: set<string> := {};
      while left != {}
        invariant taken + left == ids && taken !! left && Lists(listed, table, taken)
        decreases |left|
      {
        var id :| id in left;
        ListsSnoc(listed, table, taken, id);
        taken := taken + {id};
        left := left - {id};
        listed := listed + [table[id]];
      }
      assert taken == ids;
    }

    /** All entries of a scope, newest first: those the index names, or a scan if it names none. */
    method ListByScope(scope: string) returns (listed: seq<Entry>)
      requires Indexed(table, index)
      ensures Lists(listed, table, Ids(table, scope)) && forall i, j :: 0 <= i < j < |listed| ==> listed[i].updatedAt >= listed[j].updatedAt
    {
      var ids := set p | p in index && p.0 == scope :: p.1;
      assert ids == Ids(table, scope) by {
        assert forall id :: id in Ids(table, scope) ==> (scope, id) in index;
      }
      if ids == {} {
        ids := Ids(table, scope);
      }
      var rows := Rows(ids);
      SortSorts(rows, NewestFirst);
      listed := Sort(rows, NewestFirst);
      SortedIsNewestFirst(listed);
      ReorderedLists(rows, listed, table, ids);
    }

    /** Unknown ids are refused; a known entry goes from table and index. */
    method Delete(id: string) returns (r: Result<(), Error>)
      requires Indexed(table, index)
      modifies this
      ensures Indexed(table, index) && table == old(table) - {id}
      ensures old(Valid()) ==> Valid()
      ensures r == if id in old(table) then Ok(()) else Err(NotFound)
    {
      if id !in table {
        return Err(NotFound);
      }
      if Valid() {
        DropKeeps(table, index, normal, id);
      }
      index := index - {(table[id].scope, id)};
      table := table - {id};
      r := Ok(());
    }

    method WeakestFirst(scope: string) returns (entries: seq<Entry>)
      requires Indexed(table, index)
      ensures Lists(entries, table, Ids(table, scope)) && Sorted(entries, ByStrength)
    {
      var listed := ListByScope(scope);
      SortSorts(listed, ByStrength);
      entries := Sort(listed, ByStrength);
      ReorderedLists(listed, entries, table, Ids(table, scope));
    }

    /** The weakest entries go, as many as there are above the capacity. */
    method EnforceCapacity(scope: string) returns (ghost victims: set<string>)
      requires Indexed(table, index)
      modifies this
      ensures Indexed(table, index) && Evicts(old(table), table, scope, victims)
      ensures var n := |Ids(old(table), scope)|; |victims| == if n <= PER_SCOPE_CAP then 0 else n - PER_SCOPE_CAP
    {
      ghost var before := table;
      var entries := WeakestFirst(scope);
      var excess: nat := if |entries| <= PER_SCOPE_CAP then 0 else |entries| - PER_SCOPE_CAP;
      DropFirst(entries, excess);
      victims := FirstIds(entries, excess);
      FirstAreWeakest(entries, before, table, scope, excess);
    }

    method DropFirst(entries: seq<Entry>, n: nat)
      requires Indexed(table, index) && n <= |entries|
      modifies this
      ensures Indexed(table, index) && table == old(table) - FirstIds(entries, n)
    {
      hide Indexed, Deduplicated, WithinCap;
      var i := 0;
      assert table - {} == table;
      while i < n
        invariant 0 <= i <= n && Indexed(table, index)
        invariant table == old(table) - FirstIds(entries, i)
      {
        var r := Delete(entries[i].id);
        assert old(table) - FirstIds(entries, i + 1) == (old(table) - FirstIds(entries, i)) - {entries[i].id};
        i := i + 1;
      }
    }

    /** The entry of a scope whose content has a normal form. */
    method FindSame(scope: string, norm: string) returns (found: Option<Entry>)
      requires Indexed(table, index)
      ensures found.Some? ==> found.value.id in table && found.value == table[found.value.id] && Key(found.value, normal) == (scope, norm)
      ensures found.None? ==> !Holds(table, (scope, norm), normal)
    {
      var listed := ListByScope(scope);
      var i := 0;
      while i < |listed|
        invariant i <= |listed|
        invariant forall j :: 0 <= j < i ==> normal(listed[j].content) != norm
      {
        if normal(listed[i].content) == norm {
          return Some(listed[i]);
        }
        i := i + 1;
      }
      forall id | id in table ensures Key(table[id], normal) != (scope, norm) {
        if table[id].scope == scope {
          assert id in Ids(table, scope);
          assert table[id] in listed;
        }
      }
      found := None;
    }

    /** A new entry goes in, and its scope back to the capacity. */
    method Add(e: Entry) returns (ghost victims: set<string>)
      requires Valid() && e.id !in table && !Holds(table, Key(e, normal), normal)
      modifies this
      ensures Valid() && Evicts(old(table)[e.id := e], table, e.scope, victims)
      ensures |victims| == if |Ids(old(table), e.scope)| == PER_SCOPE_CAP then 1 else 0
    {
      ghost var before := table;
      AddKeeps(table, index, normal, e);
      Save(e);
      victims := EnforceCapacity(e.scope);
      FewerStayDistinct(before[e.id := e], victims, normal);
      AddStaysWithin(before, e, table, normal, victims);
    }

    /** Stores a piece of knowledge: empty content is refused, content known in the scope is
        refreshed, new content is added and the scope brought back to its capacity. */
    method Upsert(scope: string, kind: string, content: string, tags: seq<string>, source: Option<string>,
                  id: string, now: nat)
        returns (r: Result<Entry, Error>, ghost victims: set<string>)
      requires Valid() && id !in table
      modifies this
      ensures Valid()
      ensures Upserted(old(table), table, normal, Draft(scope, kind, content, tags, source, id, now), r, victims)
    {
      hide Refreshed, MergeTags, Trim, Evicts, Indexed, Deduplicated, WithinCap;
      victims := {};
      var text := Trim(content);
      if text == "" {
        return Err(Invalid), {};
      }
      var same := FindSame(scope, normal(text));
      if same.Some? {
        var existing := Refreshed(same.value, kind, text, tags, now);
        RefreshedIs(same.value, kind, text, tags, now, normal);
        RefreshKeeps(table, index, normal, existing);
        Save(existing);
        return Ok(existing), {};
      }
      var e := Entry(id, scope, kind, text, tags, source, 0, now, now);
      victims := Add(e);
      r := Ok(e);
    }

    /** The best matches over some scopes. `all` says that the query has no terms, when
        everything matches. */
    method Pick(score: Entry -> int, all: bool, scopes: seq<string>, limit: nat) returns (found: seq<Entry>)
      requires Indexed(table, index)
      ensures BestFirst(found, score) && (Distinct(scopes) ==> NoRepeats(found))
      ensures |found| <= limit && forall e :: e in found ==> IsMatch(table, e, score, all, scopes)
      ensures forall e :: IsMatch(table, e, score, all, scopes) && e !in found ==>
                |found| == limit && forall t :: t in found ==> !Beats(score, e, t)
    {
      var candidates := Candidates(score, all, scopes);
      var rank := (e: Entry) => Best(score, e);
      SortSorts(candidates, rank);
      var sorted := Sort(candidates, rank);
      found := if |sorted| <= limit then sorted else sorted[..limit];
      if Distinct(scopes) {
        ReorderedDiffer(candidates, sorted);
      }
      TopOf(candidates, sorted, found, rank, limit);
      assert forall e :: rank(e) == Best(score, e);
      LessIsBeats(score);
    }

    /** Every find counts as a hit, twice if the entry was found twice. */
    method CountHits(found: seq<Entry>)
      requires forall e :: e in found ==> e.id in table
      modifies this`table
      ensures Counted(old(table), table, found)
    {
      hide Counted;
      var i := 0;
      NoneCounted(table);
      assert found[..0] == [];
      while i < |found|
        invariant i <= |found| && table.Keys == old(table).Keys && Counted(old(table), table, found[..i])
      {
        var id := found[i].id;
        assert found[i] in found;
        CountOne(old(table), table, found[..i], found[i]);
        assert found[..i + 1] == found[..i] + [found[i]];
        table := table[id := table[id].(hits := table[id].hits + 1)];
        i := i + 1;
      }
      assert found[..i] == found;
    }

    /** Search: the best matches, as they were before their hits are counted. */
    method Search(score: Entry -> int, all: bool, scopes: seq<string>, limit: nat) returns (found: seq<Entry>)
      requires Valid()
      modifies this
      ensures Valid() && Counted(old(table), table, found)
      ensures BestFirst(found, score) && (Distinct(scopes) ==> NoRepeats(found))
      ensures |found| <= limit && forall e :: e in found ==> IsMatch(old(table), e, score, all, scopes)
      ensures forall e :: IsMatch(old(table), e, score, all, scopes) && e !in found ==>
                |found| == limit && forall t :: t in found ==> !Beats(score, e, t)
    {
      found := Pick(score, all, scopes, limit);
      CountHits(found);
      HitsKeep(old(table), table, index, normal);
    }

    /** The matching entries of the scopes, one after the other. */
    method Candidates(score: Entry -> int, all: bool, scopes: seq<string>) returns (candidates: seq<Entry>)
      requires Indexed(table, index)
      ensures forall e :: e in candidates <==> IsMatch(table, e, score, all, scopes)
      ensures Distinct(scopes) ==> NoRepeats(candidates)
    {
      hide Lists;
      candidates := [];
      var i := 0;
      while i < |scopes|
        invariant i <= |scopes|
        invariant forall e :: e in candidates <==> IsMatch(table, e, score, all, scopes[..i])
        invariant Distinct(scopes) ==> NoRepeats(candidates)
      {
        var listed := ListByScope(scopes[i]);
        assert scopes[..i + 1] == scopes[..i] + [scopes[i]];
        ListedAre(listed, table, scopes[i]);
        MatchingIs(listed, score, all);
        MatchingDiffer(listed, score, all);
        if Distinct(scopes) {
          assert scopes[i] !in scopes[..i];
          JoinedDiffer(candidates, Matching(listed, score, all));
        }
        candidates := candidates + Matching(listed, score, all);
        i := i + 1;
      }
      assert scopes[..i] == scopes;
    }
  }

  lemma ListedAre(listed: seq<Entry>, table: map<string, Entry>, scope: string)
    requires Lists(listed, table, Ids(table, scope)) && forall id :: id in table ==> table[id].id == id
    ensures forall e: Entry :: e in listed <==> e.id in table && table[e.id] == e && e.scope == scope
    ensures NoRepeats(listed)
  {
    forall e: Entry | e.id in table && table[e.id] == e && e.scope == scope ensures e in listed {
      assert e.id in Ids(table, scope);
    }
  }

  predicate Distinct(scopes: seq<string>) {
    forall i, j :: 0 <= i < j < |scopes| ==> scopes[i] != scopes[j]
  }

  /** A higher score wins, then more hits, then the later update. */
  predicate Beats(score: Entry -> int, a: Entry, b: Entry) {
    score(a) > score(b)
    || (score(a) == score(b) && (a.hits > b.hits || (a.hits == b.hits && a.updatedAt > b.updatedAt)))
  }

  /** No entry stands behind one that it beats. */
  ghost predicate BestFirst(found: seq<Entry>, score: Entry -> int) {
    forall i, j :: 0 <= i < j < |found| ==> !Beats(score, found[j], found[i])
  }

  lemma LessIsBeats(score: Entry -> int)
    ensures forall a, b :: Less(Best(score, a), Best(score, b)) <==> Beats(score, a, b)
  {
  }

  lemma SortedIsNewestFirst(listed: seq<Entry>)
    requires Sorted(listed, NewestFirst)
    ensures forall i, j :: 0 <= i < j < |listed| ==> listed[i].updatedAt >= listed[j].updatedAt
  {
    forall i, j | 0 <= i < j < |listed|
      ensures listed[i].updatedAt >= listed[j].updatedAt
    {
      assert !Less(NewestFirst(listed[j]), NewestFirst(listed[i]));
    }
  }

  lemma JoinedDiffer(a: seq<Entry>, b: seq<Entry>)
    requires NoRepeats(a) && NoRepeats(b) && forall x, y :: x in a && y in b ==> x.id != y.id
    ensures NoRepeats(a + b)
  {
  }

  lemma {:induction false} MatchingDiffer(s: seq<Entry>, score: Entry -> int, all: bool)
    requires NoRepeats(s)
    ensures NoRepeats(Matching(s, score, all))
  {
    if s != [] {
      MatchingDiffer(s[1..], score, all);
      MatchingIs(s[1..], score, all);
      assert forall e :: e in s[1..] ==> e.id != s[0].id;
      if all || score(s[0]) > 0 {
        JoinedDiffer([s[0]], Matching(s[1..], score, all));
      } else {
        assert [] + Matching(s[1..], score, all) == Matching(s[1..], score, all);
      }
    }
  }

  lemma NothingListed(table: map<string, Entry>)
    ensures Lists([], table, {})
  {
  }

  function Matching(s: seq<Entry>, score: Entry -> int, all: bool): seq<Entry> {
    if s == [] then [] else (if all || score(s[0]) > 0 then [s[0]] else []) + Matching(s[1..], score, all)
  }

  lemma {:induction false} MatchingIs(s: seq<Entry>, score: Entry -> int, all: bool)
    ensures forall e: Entry :: e in Matching(s, score, all) <==> e in s && (all || score(e) > 0)
  {
    if s != [] {
      MatchingIs(s[1..], score, all);
      assert s == [s[0]] + s[1..];
    }
  }

  /** An entry of the scopes that the query matches. */
  predicate IsMatch(table: map<string, Entry>, e: Entry, score: Entry -> int, all: bool, scopes: seq<string>) {
    e.id in table && table[e.id] == e && e.scope in scopes && (all || score(e) > 0)
  }

  /** Best score, then most used, then newest. */
  function Best(score: Entry -> int, e: Entry): Rank {
    var hits: int := -(e.hits as int);
    var age: int := -(e.updatedAt as int);
    (-score(e), hits, age)
  }

  /** How often an id is among the entries found. */
  function Finds(found: seq<Entry>, id: string): nat {
    if found == [] then 0 else Finds(found[..|found| - 1], id) + if found[|found| - 1].id == id then 1 else 0
  }

  /** The entries have their old values, but for the hits that were counted. */
  ghost predicate Counted(before: map<string, Entry>, after: map<string, Entry>, found: seq<Entry>) {
    after.Keys == before.Keys
    && forall id :: id in after ==> after[id] == before[id].(hits := before[id].hits + Finds(found, id))
  }

  lemma {:induction false} FindsCount(found: seq<Entry>, id: string, places: set<nat>)
    requires forall i: nat :: i in places <==> i < |found| && found[i].id == id
    ensures Finds(found, id) == |places|
  {
    if found == [] {
      assert places == {};
    } else {
      var n := |found| - 1;
      FindsCount(found[..n], id, places - {n});
      assert n in places ==> |places - {n}| == |places| - 1;
      assert n !in places ==> places - {n} == places;
    }
  }

  lemma NoneCounted(table: map<string, Entry>)
    ensures Counted(table, table, [])
  {
  }

  lemma CountOne(before: map<string, Entry>, after: map<string, Entry>, found: seq<Entry>, m: Entry)
    requires Counted(before, after, found) && m.id in after
    ensures Counted(before, after[m.id := after[m.id].(hits := after[m.id].hits + 1)], found + [m])
  {
    assert (found + [m])[..|found|] == found;
  }

  function Refreshed(e: Entry, kind: string, content: string, tags: seq<string>, now: nat): Entry {
    e.(kind := kind, content := content, tags := MergeTags(e.tags, tags), updatedAt := now)
  }

  ghost predicate Holds(table: map<string, Entry>, key: (string, string), normal: string -> string) {
    exists id :: id in table && Key(table[id], normal) == key
  }

  function FirstIds(entries: seq<Entry>, n: nat): set<string>
    requires n <= |entries|
  {
    if n == 0 then {} else FirstIds(entries, n - 1) + {entries[n - 1].id}
  }

  lemma {:induction false} FirstIdFrom(entries: seq<Entry>, n: nat, v: string) returns (i: nat)
    requires n <= |entries| && v in FirstIds(entries, n)
    ensures i < n && entries[i].id == v
  {
    if entries[n - 1].id == v {
      i := n - 1;
    } else {
      i := FirstIdFrom(entries, n - 1, v);
    }
  }

  lemma {:induction false} FirstIdIn(entries: seq<Entry>, n: nat, i: nat)
    requires i < n <= |entries|
    ensures entries[i].id in FirstIds(entries, n)
  {
    if i < n - 1 {
      FirstIdIn(entries, n - 1, i);
    }
  }

  lemma {:induction false} FirstIdsCount(entries: seq<Entry>, n: nat)
    requires n <= |entries| && forall i, j :: 0 <= i < j < |entries| ==> entries[i].id != entries[j].id
    ensures |FirstIds(entries, n)| == n
  {
    if n > 0 {
      FirstIdsCount(entries, n - 1);
      if entries[n - 1].id in FirstIds(entries, n - 1) {
        var i := FirstIdFrom(entries, n - 1, entries[n - 1].id);
      }
    }
  }

  lemma NoneWeakerStays(entries: seq<Entry>, before: map<string, Entry>, ids: set<string>, n: nat, v: string, s: string)
    requires Lists(entries, before, ids) && Sorted(entries, ByStrength) && n <= |entries|
    requires v in FirstIds(entries, n) && s in ids && s in before && before[s].id == s && s !in FirstIds(entries, n)
    ensures v in before && !Weaker(before[s], before[v])
  {
    var i := FirstIdFrom(entries, n, v);
    var j :| 0 <= j < |entries| && entries[j] == before[s];
    if j < n {
      FirstIdIn(entries, n, j);
    }
    assert !Less(ByStrength(entries[j]), ByStrength(entries[i]));
  }

  lemma FirstIdsBelong(entries: seq<Entry>, before: map<string, Entry>, ids: set<string>, n: nat)
    requires Lists(entries, before, ids) && n <= |entries|
    ensures FirstIds(entries, n) <= ids
  {
    forall v | v in FirstIds(entries, n) ensures v in ids {
      var i := FirstIdFrom(entries, n, v);
    }
  }

  /** Dropping the first entries by strength drops none that is stronger than one that stays. */
  lemma FirstAreWeakest(entries: seq<Entry>, before: map<string, Entry>, after: map<string, Entry>, scope: string,
                        n: nat)
    requires Lists(entries, before, Ids(before, scope)) && Sorted(entries, ByStrength) && n <= |entries|
    requires after == before - FirstIds(entries, n) && forall id :: id in before ==> before[id].id == id
    ensures Evicts(before, after, scope, FirstIds(entries, n)) && |FirstIds(entries, n)| == n
  {
    var victims, ids := FirstIds(entries, n), Ids(before, scope);
    FirstIdsCount(entries, n);
    FirstIdsBelong(entries, before, ids, n);
    IdsAfter(before, victims, scope);
    forall v, s | v in victims && s in Ids(after, scope) ensures !Weaker(before[s], before[v]) {
      NoneWeakerStays(entries, before, ids, n, v, s);
    }
  }

  /** Refreshing an entry with content of the same normal form. */
  lemma RefreshKeeps(table: map<string, Entry>, index: set<(string, string)>, normal: string -> string, e: Entry)
    requires Indexed(table, index) && Deduplicated(table, normal) && WithinCap(table, PER_SCOPE_CAP)
    requires e.id in table && e.scope == table[e.id].scope && normal(e.content) == normal(table[e.id].content)
    ensures var next := table[e.id := e];
            Indexed(next, index + {(e.scope, e.id)}) && Deduplicated(next, normal) && WithinCap(next, PER_SCOPE_CAP)
  {
    var next := table[e.id := e];
    assert forall scope :: Ids(next, scope) == Ids(table, scope);
  }

  lemma AddKeeps(table: map<string, Entry>, index: set<(string, string)>, normal: string -> string, e: Entry)
    requires Indexed(table, index) && Deduplicated(table, normal)
    requires e.id !in table && !Holds(table, Key(e, normal), normal)
    ensures Indexed(table[e.id := e], index + {(e.scope, e.id)}) && Deduplicated(table[e.id := e], normal)
  {
    assert forall id :: id in table ==> Key(table[id], normal) != Key(e, normal);
  }

  lemma DropKeeps(table: map<string, Entry>, index: set<(string, string)>, normal: string -> string, id: string)
    requires Indexed(table, index) && Deduplicated(table, normal) && WithinCap(table, PER_SCOPE_CAP) && id in table
    ensures Deduplicated(table - {id}, normal) && WithinCap(table - {id}, PER_SCOPE_CAP)
  {
    FewerStayDistinct(table, {id}, normal);
    forall scope ensures |Ids(table - {id}, scope)| <= PER_SCOPE_CAP {
      IdsAfter(table, {id}, scope);
      ShrinksAtMost(Ids(table, scope), {id});
    }
  }

  // ---- any run of the three operations ----

  /** What an upsert is called with. */
  datatype Draft = Draft(scope: string, kind: string, content: string, tags: seq<string>, source: Option<string>,
                         id: string, now: nat)

  /** Empty content is refused; content known in the scope is refreshed; new content goes in, and
      what is weakest out if its scope was full. */
  ghost predicate Upserted(before: map<string, Entry>, after: map<string, Entry>, normal: string -> string,
                           d: Draft, r: Result<Entry, Error>, victims: set<string>) {
    var text := Trim(d.content);
    var key := (d.scope, normal(text));
    if text == "" then r == Err(Invalid) && after == before
    else if Holds(before, key, normal) then
      r.Ok? && r.value.id in before && after == before[r.value.id := r.value]
      && Key(before[r.value.id], normal) == key
      && (var was := before[r.value.id];
          r.value == was.(kind := d.kind, content := text, tags := r.value.tags, updatedAt := d.now)
          && was.tags <= r.value.tags && forall t :: t in r.value.tags <==> t in was.tags || t in d.tags)
    else
      r == Ok(Entry(d.id, d.scope, d.kind, text, d.tags, d.source, 0, d.now, d.now))
      && Evicts(before[d.id := r.value], after, d.scope, victims)
      && |victims| == if |Ids(before, d.scope)| == PER_SCOPE_CAP then 1 else 0
  }

  datatype Operation =
    | Upserting(draft: Draft, r: Result<Entry, Error>, victims: set<string>)
    | Searching(found: seq<Entry>)
    | Deleting(id: string)

  /** What the operation's method promises of the table. */
  ghost predicate Stepped(before: map<string, Entry>, op: Operation, after: map<string, Entry>,
                          normal: string -> string) {
    match op
    case Upserting(d, r, victims) => d.id !in before && Upserted(before, after, normal, d, r, victims)
    case Searching(found) => Counted(before, after, found)
    case Deleting(id) => after == before - {id}
  }

  /** Rows stand under their ids, no scope holds the same content twice or too many entries. */
  ghost predicate Kept(table: map<string, Entry>, normal: string -> string) {
    (forall id :: id in table ==> table[id].id == id) && Deduplicated(table, normal) && WithinCap(table, PER_SCOPE_CAP)
  }

  /** The index that agrees with a table. */
  ghost function IndexOf(table: map<string, Entry>): set<(string, string)> {
    set id | id in table :: (table[id].scope, id)
  }

  lemma StepKeeps(before: map<string, Entry>, op: Operation, after: map<string, Entry>, normal: string -> string)
    requires Kept(before, normal) && Stepped(before, op, after, normal)
    ensures Kept(after, normal)
  {
    var index := IndexOf(before);
    match op
    case Upserting(d, r, victims) => UpsertKeeps(before, after, normal, d, r, victims);
    case Searching(found) => HitsKeep(before, after, index, normal);
    case Deleting(id) =>
      if id in before {
        DropKeeps(before, index, normal, id);
      } else {
        assert before - {id} == before;
      }
  }

  lemma UpsertKeeps(before: map<string, Entry>, after: map<string, Entry>, normal: string -> string,
                    d: Draft, r: Result<Entry, Error>, victims: set<string>)
    requires Kept(before, normal) && d.id !in before && Upserted(before, after, normal, d, r, victims)
    ensures Kept(after, normal)
  {
    hide Refreshed, MergeTags, Trim;
    var index, key := IndexOf(before), (d.scope, normal(Trim(d.content)));
    if Trim(d.content) != "" {
      if Holds(before, key, normal) {
        RefreshKeeps(before, index, normal, r.value);
      } else {
        var e := r.value;
        AddKeeps(before, index, normal, e);
        FewerStayDistinct(before[e.id := e], victims, normal);
        AddGrows(before, e);
        AddStaysWithin(before, e, after, normal, victims);
      }
    }
  }

  lemma RefreshedIs(e: Entry, kind: string, text: string, tags: seq<string>, now: nat, normal: string -> string)
    ensures var n := Refreshed(e, kind, text, tags, now);
            n == e.(kind := kind, content := text, tags := n.tags, updatedAt := now)
            && e.tags <= n.tags && (forall t :: t in n.tags <==> t in e.tags || t in tags)
            && n.id == e.id && Key(n, normal) == (e.scope, normal(text))
  {
    MergeTagsUnites(e.tags, tags);
  }

  /** Over every run of upserts, searches and deletions the memory stays free of repeated content
      and within its capacity. */
  lemma {:induction false} RunKeeps(tables: seq<map<string, Entry>>, ops: seq<Operation>, normal: string -> string)
    requires |tables| == |ops| + 1 && Kept(tables[0], normal)
    requires forall n :: 0 <= n < |ops| ==> Stepped(tables[n], ops[n], tables[n + 1], normal)
    ensures forall n :: 0 <= n < |tables| ==> Kept(tables[n], normal)
    decreases |ops|
  {
    hide Kept, Stepped;
    if ops != [] {
      var last := |ops| - 1;
      RunKeeps(tables[..|ops|], ops[..last], normal);
      assert tables[..|ops|][last] == tables[last];
      StepKeeps(tables[last], ops[last], tables[last + 1], normal);
      assert forall n :: 0 <= n < |ops| ==> tables[..|ops|][n] == tables[n];
    }
  }

  // ---- a full scope of proven entries ----

  function Name(n: nat): (s: string)
    ensures |s| == n
  {
    seq(n, _ => 'a')
  }

  function Veteran(n: nat): Entry {
    Entry(Name(n), "s", "fact", Name(n), [], None, 1, n, n)
  }

  /** Entries of one scope, each found once by a search. */
  function Veterans(n: nat): map<string, Entry> {
    if n == 0 then map[] else Veterans(n - 1)[Name(n) := Veteran(n)]
  }

  lemma {:induction false} VeteransShape(n: nat)
    ensures forall id :: id in Veterans(n) ==> 0 < |id| <= n && id == Name(|id|) && Veterans(n)[id] == Veteran(|id|)
  {
    hide Name, Veteran;
    if n > 0 {
      VeteransShape(n - 1);
    }
  }

  lemma {:induction false} VeteransCount(n: nat)
    ensures |Ids(Veterans(n), "s")| == n
  {
    hide Name, Ids;
    if n == 0 {
      NoIds("s");
    } else {
      VeteransCount(n - 1);
      VeteransShape(n - 1);
      AddGrows(Veterans(n - 1), Veteran(n));
    }
  }

  lemma NoIds(scope: string)
    ensures Ids(map[], scope) == {}
  {
  }

  lemma VeteransKept(n: nat)
    requires n <= PER_SCOPE_CAP
    ensures Kept(Veterans(n), (text: string) => text)
  {
    VeteransShape(n);
    VeteransCount(n);
    forall scope ensures |Ids(Veterans(n), scope)| <= PER_SCOPE_CAP {
      if scope != "s" {
        assert Ids(Veterans(n), scope) == {};
      }
    }
  }

  /** For one: in a scope full of entries that were found before, new knowledge is answered with
      success and is not in the table. */
  lemma NewKnowledgeIsDropped(after: map<string, Entry>, r: Result<Entry, Error>, victims: set<string>)
    requires Upserted(Veterans(PER_SCOPE_CAP), after, (text: string) => text, Draft("s", "fact", "n", [], None, "n", 999), r, victims)
    ensures Kept(Veterans(PER_SCOPE_CAP), (text: string) => text) && r.Ok? && r.value.content == "n"
            && r.value.id !in after
  {
    hide Veterans, Kept;
    var before := Veterans(PER_SCOPE_CAP);
    VeteransShape(PER_SCOPE_CAP);
    VeteransCount(PER_SCOPE_CAP);
    VeteransKept(PER_SCOPE_CAP);
    assert "n" !in before by {
      assert "n" != Name(1);
    }
    TrimTrims("n");
    assert Trim("n") == "n";
    assert !Holds(before, ("s", "n"), (text: string) => text);
    AddGrows(before, r.value);
    NewEntryIsTheVictimExactly(before["n" := r.value], after, "s", victims, "n");
  }

  /** Adding an entry fills its scope by one and leaves the others. */
  lemma AddGrows(table: map<string, Entry>, e: Entry)
    requires e.id !in table
    ensures forall scope :: |Ids(table[e.id := e], scope)| == |Ids(table, scope)| + if scope == e.scope then 1 else 0
  {
    forall scope ensures |Ids(table[e.id := e], scope)| == |Ids(table, scope)| + if scope == e.scope then 1 else 0 {
      assert Ids(table[e.id := e], scope) == if scope == e.scope then Ids(table, scope) + {e.id} else Ids(table, scope);
    }
  }

  lemma FewerStayDistinct(before: map<string, Entry>, victims: set<string>, normal: string -> string)
    requires Deduplicated(before, normal)
    ensures Deduplicated(before - victims, normal)
  {
  }

  /** Adding an entry and evicting what is above the capacity. */
  lemma AddStaysWithin(before: map<string, Entry>, e: Entry, after: map<string, Entry>, normal: string -> string,
                       victims: set<string>)
    requires WithinCap(before, PER_SCOPE_CAP) && e.id !in before && after == before[e.id := e] - victims
    requires victims <= Ids(before[e.id := e], e.scope)
    requires var n := |Ids(before[e.id := e], e.scope)|; |victims| == if n <= PER_SCOPE_CAP then 0 else n - PER_SCOPE_CAP
    ensures WithinCap(after, PER_SCOPE_CAP)
    ensures |victims| == if |Ids(before, e.scope)| == PER_SCOPE_CAP then 1 else 0
  {
    var grown := before[e.id := e];
    AddGrows(before, e);
    assert |Ids(before, e.scope)| <= PER_SCOPE_CAP;
    forall s ensures |Ids(after, s)| <= PER_SCOPE_CAP {
      IdsAfter(grown, victims, s);
      if s == e.scope {
        Remaining(Ids(grown, s), victims);
      } else {
        ShrinksAtMost(Ids(grown, s), victims);
        assert |Ids(before, s)| <= PER_SCOPE_CAP;
      }
    }
  }

  lemma ShrinksAtMost(all: set<string>, part: set<string>)
    ensures |all - part| <= |all|
  {
    Remaining(all, all * part);
    assert all - all * part == all - part;
  }

  lemma Remaining(all: set<string>, part: set<string>)
    requires part <= all
    ensures |all - part| == |all| - |part|
  {
  }

  /** Counting hits changes nothing the invariant speaks of. */
  lemma HitsKeep(before: map<string, Entry>, after: map<string, Entry>, index: set<(string, string)>,
                 normal: string -> string)
    requires Indexed(before, index) && Deduplicated(before, normal) && WithinCap(before, PER_SCOPE_CAP)
    requires before.Keys == after.Keys && forall id :: id in after ==> after[id] == before[id].(hits := after[id].hits)
    ensures Indexed(after, index) && Deduplicated(after, normal) && WithinCap(after, PER_SCOPE_CAP)
  {
    assert forall scope :: Ids(after, scope) == Ids(before, scope);
  }

  /** The first entries of a sorted list are the best ones. */
  lemma TopOf(s: seq<Entry>, sorted: seq<Entry>, top: seq<Entry>, rank: Entry -> Rank, limit: nat)
    requires multiset(s) == multiset(sorted) && Sorted(sorted, rank)
    requires top == if |sorted| <= limit then sorted else sorted[..limit]
    ensures forall e: Entry :: e in top ==> e in s
    ensures forall e: Entry :: e in s && e !in top ==> |top| == limit && forall t :: t in top ==> !Less(rank(e), rank(t))
  {
    forall e | e in top ensures e in s {
      assert e in multiset(sorted);
    }
    forall e, t | e in s && e !in top && t in top ensures !Less(rank(e), rank(t)) {
      assert e in multiset(sorted);
      var j :| 0 <= j < |sorted| && sorted[j] == e;
      var i :| 0 <= i < |top| && top[i] == t;
    }
    forall e | e in s && e !in top ensures |top| == limit {
      assert e in multiset(sorted);
    }
  }
}
