/**
 The memory service: a table of entries by id with a secondary index by scope, deduplication of
 content within a scope, a capacity per scope with eviction of the weakest, and search that
 counts hits. `normal` normalizes content and `score` rates an entry against a query; both are
 parameters. Ids are supplied fresh, times by a clock.
 */
module Memory {
  import opened Wrappers

  const PER_SCOPE_CAP: nat := 200

  datatype Entry = Entry(id: string, scope: string, kind: string, content: string, tags: seq<string>,
                         source: Option<string>, hits: nat, createdAt: nat, updatedAt: nat)

  datatype Error = Invalid | NotFound

  // ---- sorting ----

  type Rank = (int, int, int)

  predicate Less(a: Rank, b: Rank) {
    a.0 < b.0 || (a.0 == b.0 && (a.1 < b.1 || (a.1 == b.1 && a.2 < b.2)))
  }

  /** Inserts behind entries of the same rank, so that sorting is stable. */
  function Insert(e: Entry, s: seq<Entry>, rank: Entry -> Rank): seq<Entry> {
    if s == [] || Less(rank(e), rank(s[0])) then [e] + s else [s[0]] + Insert(e, s[1..], rank)
  }

  function Sort(s: seq<Entry>, rank: Entry -> Rank): seq<Entry> {
    if s == [] then [] else Insert(s[|s| - 1], Sort(s[..|s| - 1], rank), rank)
  }

  ghost predicate Sorted(s: seq<Entry>, rank: Entry -> Rank) {
    forall i, j :: 0 <= i < j < |s| ==> !Less(rank(s[j]), rank(s[i]))
  }

  lemma {:induction false} InsertKeeps(e: Entry, s: seq<Entry>, rank: Entry -> Rank)
    ensures multiset(Insert(e, s, rank)) == multiset(s) + multiset{e}
  {
    if s != [] && !Less(rank(e), rank(s[0])) {
      InsertKeeps(e, s[1..], rank);
      assert s == [s[0]] + s[1..];
    }
  }

  lemma {:induction false} InsertSorts(e: Entry, s: seq<Entry>, rank: Entry -> Rank)
    requires Sorted(s, rank)
    ensures Sorted(Insert(e, s, rank), rank)
  {
    if s != [] && !Less(rank(e), rank(s[0])) {
      var rest := Insert(e, s[1..], rank);
      InsertSorts(e, s[1..], rank);
      InsertKeeps(e, s[1..], rank);
      forall i | 0 <= i < |rest| ensures !Less(rank(rest[i]), rank(s[0])) {
        assert rest[i] in multiset(rest);
        assert rest[i] == e || rest[i] in s[1..];
      }
    }
  }

  lemma {:induction false} SortSorts(s: seq<Entry>, rank: Entry -> Rank)
    ensures Sorted(Sort(s, rank), rank) && multiset(Sort(s, rank)) == multiset(s)
    decreases |s|
  {
    if s != [] {
      SortSorts(s[..|s| - 1], rank);
      InsertSorts(s[|s| - 1], Sort(s[..|s| - 1], rank), rank);
      InsertKeeps(s[|s| - 1], Sort(s[..|s| - 1], rank), rank);
      assert s == s[..|s| - 1] + [s[|s| - 1]];
    }
  }

  // ---- table and index ----

  function Ids(table: map<string, Entry>, scope: string): set<string> {
    set id | id in table && table[id].scope == scope
  }

  /** The index lists exactly the table's entries under their scopes. */
  ghost predicate Indexed(table: map<string, Entry>, index: set<(string, string)>) {
    (forall id :: id in table ==> table[id].id == id)
    && (forall scope, id :: (scope, id) in index <==> id in table && table[id].scope == scope)
  }

  /** What must not occur twice: a scope with a normalized content. */
  function Key(e: Entry, normal: string -> string): (string, string) {
    (e.scope, normal(e.content))
  }

  ghost predicate Deduplicated(table: map<string, Entry>, normal: string -> string) {
    forall a, b :: a in table && b in table && Key(table[a], normal) == Key(table[b], normal) ==> a == b
  }

  ghost predicate WithinCap(table: map<string, Entry>, cap: nat) {
    forall scope :: |Ids(table, scope)| <= cap
  }

  /** `listed` holds the entries with the given ids, each once. */
  ghost predicate Lists(listed: seq<Entry>, table: map<string, Entry>, ids: set<string>) {
    (forall i :: 0 <= i < |listed| ==> listed[i].id in ids && listed[i].id in table && listed[i] == table[listed[i].id])
    && NoRepeats(listed)
    && (forall id :: id in ids && id in table ==> table[id] in listed)
    && |listed| == |ids|
  }

  lemma ListsSnoc(listed: seq<Entry>, table: map<string, Entry>, ids: set<string>, id: string)
    requires Lists(listed, table, ids) && id !in ids && id in table && table[id].id == id
    ensures Lists(listed + [table[id]], table, ids + {id})
  {
    var more := listed + [table[id]];
    forall other | other in ids + {id} && other in table ensures table[other] in more {
      if other == id {
        assert more[|listed|] == table[id];
      } else {
        assert table[other] in listed;
      }
    }
  }

  lemma ReorderedLists(a: seq<Entry>, b: seq<Entry>, table: map<string, Entry>, ids: set<string>)
    requires Lists(a, table, ids) && multiset(a) == multiset(b)
    ensures Lists(b, table, ids)
  {
    assert |multiset(a)| == |a| && |multiset(b)| == |b|;
    forall i | 0 <= i < |b| ensures b[i] in a {
      assert b[i] in multiset(b);
    }
    forall e | e in a ensures e in b {
      assert e in multiset(a);
    }
    ReorderedDiffer(a, b);
  }

  /** No entry is listed twice. */
  ghost predicate NoRepeats(s: seq<Entry>) {
    forall i, j :: 0 <= i < j < |s| ==> s[i].id != s[j].id
  }

  lemma ReorderedDiffer(a: seq<Entry>, b: seq<Entry>)
    requires NoRepeats(a) && multiset(a) == multiset(b)
    ensures NoRepeats(b)
  {
    forall i, j | 0 <= i < j < |b| ensures b[i].id != b[j].id {
      assert b[i] in multiset(b) && b[j] in multiset(b);
      var k :| 0 <= k < |a| && a[k] == b[i];
      if b[i] == b[j] {
        TwiceCounts(b, i, j);
        OnceCounts(a, k);
      } else {
        var l :| 0 <= l < |a| && a[l] == b[j];
      }
    }
  }

  lemma TwiceCounts(s: seq<Entry>, i: nat, j: nat)
    requires i < j < |s| && s[i] == s[j]
    ensures multiset(s)[s[i]] >= 2
  {
    assert s == s[..j] + [s[j]] + s[j + 1..];
    assert s[i] in s[..j];
  }

  lemma OnceCounts(s: seq<Entry>, k: nat)
    requires k < |s| && forall i :: 0 <= i < |s| && i != k ==> s[i] != s[k]
    ensures multiset(s)[s[k]] == 1
  {
    assert s == s[..k] + [s[k]] + s[k + 1..];
    assert s[k] !in s[..k] && s[k] !in s[k + 1..];
  }

  // ---- strength ----

  function ByStrength(e: Entry): Rank {
    (e.hits, e.updatedAt, 0)
  }

  function NewestFirst(e: Entry): Rank {
    var age: int := -(e.updatedAt as int);
    (age, 0, 0)
  }

  /** Fewer hits, or as many and older. */
  predicate Weaker(a: Entry, b: Entry) {
    a.hits < b.hits || (a.hits == b.hits && a.updatedAt < b.updatedAt)
  }

  function MergeTags(tags: seq<string>, more: seq<string>): seq<string>
    decreases |more|
  {
    if more == [] then tags
    else MergeTags(if more[0] in tags then tags else tags + [more[0]], more[1..])
  }

  /** No tag is lost or doubled. */
  lemma {:induction false} MergeTagsUnites(tags: seq<string>, more: seq<string>)
    ensures var all := MergeTags(tags, more);
            tags <= all && forall t :: t in all <==> t in tags || t in more
    ensures (forall i, j :: 0 <= i < j < |tags| ==> tags[i] != tags[j]) ==>
              forall i, j :: 0 <= i < j < |MergeTags(tags, more)| ==> MergeTags(tags, more)[i] != MergeTags(tags, more)[j]
    decreases |more|
  {
    if more != [] {
      MergeTagsUnites(if more[0] in tags then tags else tags + [more[0]], more[1..]);
    }
  }

  // ---- capacity ----

  /** Dropping the first entries by strength drops none that is stronger than one that stays. */
  ghost predicate Evicts(before: map<string, Entry>, after: map<string, Entry>, scope: string, victims: set<string>) {
    victims <= Ids(before, scope) && after == before - victims
    && forall v, s :: v in victims && s in Ids(after, scope) ==> !Weaker(before[s], before[v])
  }

  lemma IdsAfter(table: map<string, Entry>, victims: set<string>, scope: string)
    ensures Ids(table - victims, scope) == Ids(table, scope) - victims
  {
  }

  /** Under a strictly increasing clock a new entry is evicted at once exactly if its scope was
      full and every other entry in it had been found by a search. */
  lemma NewEntryIsTheVictimExactly(before: map<string, Entry>, after: map<string, Entry>, scope: string, victims: set<string>, id: string)
    requires id in before && before[id].scope == scope && before[id].hits == 0
    requires forall other :: other in Ids(before, scope) && other != id ==> before[other].updatedAt < before[id].updatedAt
    requires Evicts(before, after, scope, victims) && |victims| == if |Ids(before, scope)| > PER_SCOPE_CAP then 1 else 0
    ensures id !in after <==> |Ids(before, scope)| > PER_SCOPE_CAP && forall other :: other in Ids(before, scope) && other != id ==> before[other].hits > 0
  {
    if |victims| == 1 {
      var v :| v in victims;
      assert victims == {v} by {
        assert |victims - {v}| == 0;
      }
      IdsAfter(before, victims, scope);
      if v != id {
        assert id in Ids(after, scope);
        assert !Weaker(before[id], before[v]);
      } else {
        forall other | other in Ids(before, scope) && other != id ensures before[other].hits > 0 {
          assert other in Ids(after, scope);
          assert !Weaker(before[other], before[id]);
        }
      }
    } else {
      assert victims == {};
    }
  }
}
