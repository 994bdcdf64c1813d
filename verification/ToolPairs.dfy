/**
 Context compaction that keeps the tool protocol: every tool message must answer a call of the
 assistant message before it, so a history may only be cut between answered calls.
 */
module ToolPairs {
  datatype Role = System | User | Assistant | Tool | OtherRole

  /** `calls` holds the ids of the tool calls, `""` where a call has none. */
  datatype Message = Message(role: Role, calls: seq<string>, toolCallId: string, content: string)

  function NonEmpty(ids: seq<string>): seq<string> {
    if ids == [] then [] else (if ids[0] != "" then [ids[0]] else []) + NonEmpty(ids[1..])
  }

  function CallIds(m: Message): seq<string> {
    if m.role.Assistant? then NonEmpty(m.calls) else []
  }

  function AnsweredIds(messages: seq<Message>): seq<string> {
    if messages == [] then [] else [messages[0].toolCallId] + AnsweredIds(messages[1..])
  }

  // ---- what the protocol asks ----

  predicate AllTools(messages: seq<Message>) {
    messages == [] || (messages[0].role.Tool? && AllTools(messages[1..]))
  }

  /** The messages start with the answers to `pending`, in any order, and nothing between. */
  ghost predicate AnswersFirst(pending: multiset<string>, messages: seq<Message>) {
    |pending| <= |messages|
    && AllTools(messages[..|pending|])
    && multiset(AnsweredIds(messages[..|pending|])) == pending
  }

  /** A valid history is a row of exchanges: a message that is no tool message, then exactly the
      answers to its calls. */
  ghost predicate Valid(messages: seq<Message>)
    decreases |messages|
  {
    messages == []
    || (!messages[0].role.Tool?
        && AnswersFirst(multiset(CallIds(messages[0])), messages[1..])
        && Valid(messages[1 + |CallIds(messages[0])|..]))
  }

  // ---- the check, message by message ----

  /** The one-pass check from a state with unanswered calls. */
  ghost predicate Scan(pending: multiset<string>, messages: seq<Message>)
    decreases |messages|
  {
    if messages == [] then pending == multiset{}
    else if messages[0].role.Tool? then
      messages[0].toolCallId in pending && Scan(pending - multiset{messages[0].toolCallId}, messages[1..])
    else pending == multiset{} && Scan(multiset(CallIds(messages[0])), messages[1..])
  }

  lemma {:induction false} ScanAnswers(pending: multiset<string>, messages: seq<Message>)
    ensures Scan(pending, messages) <==> AnswersFirst(pending, messages) && Scan(multiset{}, messages[|pending|..])
    decreases |messages|
  {
    if pending == multiset{} {
      assert messages[0..] == messages && AnsweredIds(messages[..0]) == [];
    } else if messages != [] && messages[0].role.Tool? {
      var id := messages[0].toolCallId;
      FirstAnswer(pending, messages);
      if id in pending {
        var less := pending - multiset{id};
        ScanAnswers(less, messages[1..]);
        assert |pending| <= |messages| ==> messages[1..][|less|..] == messages[|pending|..];
      }
    }
  }

  lemma FirstAnswer(pending: multiset<string>, messages: seq<Message>)
    requires messages != [] && messages[0].role.Tool? && pending != multiset{}
    ensures var id := messages[0].toolCallId;
            AnswersFirst(pending, messages) <==> id in pending && AnswersFirst(pending - multiset{id}, messages[1..])
  {
    if |pending| <= |messages| {
      EnoughAnswers(pending, messages);
    } else {
      var id := messages[0].toolCallId;
      assert id in pending ==> |pending - multiset{id}| == |pending| - 1;
    }
  }

  lemma EnoughAnswers(pending: multiset<string>, messages: seq<Message>)
    requires messages != [] && messages[0].role.Tool? && 0 < |pending| <= |messages|
    ensures var id := messages[0].toolCallId;
            AnswersFirst(pending, messages) <==> id in pending && AnswersFirst(pending - multiset{id}, messages[1..])
  {
    var id, n := messages[0].toolCallId, |pending|;
    AnsweredCons(messages, n);
    TakeOne(pending, id, AnsweredIds(messages[1..][..n - 1]));
    ToolsCons(messages, n);
    if id in pending {
      assert |pending - multiset{id}| == n - 1;
    }
  }

  lemma ToolsCons(messages: seq<Message>, n: nat)
    requires 0 < n <= |messages| && messages[0].role.Tool?
    ensures AllTools(messages[..n]) <==> AllTools(messages[1..][..n - 1])
  {
    assert messages[..n][1..] == messages[1..][..n - 1];
  }

  lemma {:induction false} ToolAt(messages: seq<Message>, k: nat)
    requires AllTools(messages) && k < |messages|
    ensures messages[k].role.Tool?
  {
    if k > 0 {
      ToolAt(messages[1..], k - 1);
    }
  }

  lemma TakeOne(pending: multiset<string>, id: string, later: seq<string>)
    ensures multiset([id] + later) == pending <==> id in pending && multiset(later) == pending - multiset{id}
  {
    assert multiset([id] + later) == multiset{id} + multiset(later);
    if id in pending {
      assert multiset{id} + (pending - multiset{id}) == pending;
    }
  }

  lemma AnsweredCons(messages: seq<Message>, n: nat)
    requires 0 < n <= |messages|
    ensures AnsweredIds(messages[..n]) == [messages[0].toolCallId] + AnsweredIds(messages[1..][..n - 1])
  {
    assert messages[..n][1..] == messages[1..][..n - 1];
  }

  /** The one-pass check accepts exactly the valid histories. */
  lemma {:induction false} ScanIsValid(messages: seq<Message>)
    ensures Scan(multiset{}, messages) <==> Valid(messages)
    decreases |messages|
  {
    if messages != [] && !messages[0].role.Tool? {
      var calls := CallIds(messages[0]);
      ScanAnswers(multiset(calls), messages[1..]);
      if |calls| < |messages| {
        assert messages[1..][|calls|..] == messages[1 + |calls|..];
        ScanIsValid(messages[1 + |calls|..]);
      }
    }
  }

  // ---- what validity means, place by place ----

  /** Message `i`, which is no tool message, is followed by tool messages up to `e` and no further. */
  ghost predicate Exchange(messages: seq<Message>, i: nat, e: nat) {
    i < e <= |messages| && !messages[i].role.Tool? && (forall k :: i < k < e ==> messages[k].role.Tool?)
    && (e < |messages| ==> !messages[e].role.Tool?)
  }

  ghost function IdsAnswered(answers: seq<Message>): (r: seq<string>)
    ensures |r| == |answers| && forall k :: 0 <= k < |r| ==> r[k] == answers[k].toolCallId
  {
    seq(|answers|, k requires 0 <= k < |answers| => answers[k].toolCallId)
  }

  /** Each id is answered as often as an assistant message calls under it; the empty id never. */
  ghost predicate AllAnswered(m: Message, answers: seq<Message>) {
    forall id :: multiset(IdsAnswered(answers))[id] == if m.role.Assistant? && id != "" then multiset(m.calls)[id] else 0
  }

  ghost predicate EveryExchangeIsWhole(messages: seq<Message>) {
    (messages != [] ==> !messages[0].role.Tool?)
    && forall i: nat, e: nat :: Exchange(messages, i, e) ==> AllAnswered(messages[i], messages[i + 1..e])
  }

  lemma {:induction false} AnswersAre(messages: seq<Message>)
    ensures AnsweredIds(messages) == IdsAnswered(messages)
  {
    if messages != [] {
      AnswersAre(messages[1..]);
    }
  }

  lemma {:induction false} NonEmptyCounts(ids: seq<string>, id: string)
    ensures multiset(NonEmpty(ids))[id] == if id != "" then multiset(ids)[id] else 0
  {
    if ids != [] {
      NonEmptyCounts(ids[1..], id);
      assert multiset(ids) == multiset{ids[0]} + multiset(ids[1..]) by {
        assert ids == [ids[0]] + ids[1..];
      }
      var first := if ids[0] != "" then [ids[0]] else [];
      assert multiset(NonEmpty(ids)) == multiset(first) + multiset(NonEmpty(ids[1..]));
    }
  }

  /** The answers match the calls as multisets exactly if each id is answered as often as called. */
  lemma AnsweredByCount(m: Message, answers: seq<Message>)
    ensures AllAnswered(m, answers) <==> multiset(AnsweredIds(answers)) == multiset(CallIds(m))
  {
    AnswersAre(answers);
    var given := multiset(AnsweredIds(answers));
    forall id
      ensures multiset(CallIds(m))[id] == if m.role.Assistant? && id != "" then multiset(m.calls)[id] else 0
    {
      NonEmptyCounts(m.calls, id);
    }
    if AllAnswered(m, answers) {
      assert forall id :: given[id] == multiset(CallIds(m))[id];
    }
  }

  lemma ExchangeEnd(messages: seq<Message>, i: nat) returns (e: nat)
    requires i < |messages| && !messages[i].role.Tool?
    ensures Exchange(messages, i, e)
  {
    e := i + 1;
    while e < |messages| && messages[e].role.Tool?
      invariant i < e <= |messages| && forall k :: i < k < e ==> messages[k].role.Tool?
    {
      e := e + 1;
    }
  }

  lemma {:induction false} ToolsAre(messages: seq<Message>)
    ensures AllTools(messages) <==> forall k :: 0 <= k < |messages| ==> messages[k].role.Tool?
  {
    if messages != [] {
      ToolsAre(messages[1..]);
      assert messages == [messages[0]] + messages[1..];
    }
  }

  /** The exchanges behind the first one are those of the rest. */
  lemma RestExchanges(messages: seq<Message>, e: nat)
    requires Exchange(messages, 0, e)
    ensures EveryExchangeIsWhole(messages) <==> AllAnswered(messages[0], messages[1..e]) && EveryExchangeIsWhole(messages[e..])
  {
    hide AllAnswered;
    var rest := messages[e..];
    forall i: nat, f: nat | Exchange(messages, i, f)
      ensures if i == 0 then f == e else i >= e && Exchange(rest, i - e, f - e) && rest[i - e + 1..f - e] == messages[i + 1..f]
    {
    }
    forall i: nat, f: nat | Exchange(rest, i, f)
      ensures Exchange(messages, e + i, e + f) && rest[i + 1..f] == messages[e + i + 1..e + f]
    {
      assert forall k :: e <= k < |messages| ==> messages[k] == rest[k - e];
    }
    if EveryExchangeIsWhole(messages) {
      forall i: nat, f: nat | Exchange(rest, i, f)
        ensures AllAnswered(rest[i], rest[i + 1..f])
      {
        assert Exchange(messages, e + i, e + f);
      }
    }
    if AllAnswered(messages[0], messages[1..e]) && EveryExchangeIsWhole(rest) {
      forall i: nat, f: nat | Exchange(messages, i, f)
        ensures AllAnswered(messages[i], messages[i + 1..f])
      {
        if i > 0 {
          assert Exchange(rest, i - e, f - e);
        }
      }
    }
  }

  lemma AnswersEnd(messages: seq<Message>, size: nat)
    requires 0 < size <= |messages| && AllTools(messages[1..][..size - 1]) && Valid(messages[size..])
    ensures (forall k :: 1 <= k < size ==> messages[k].role.Tool?) && (size < |messages| ==> !messages[size].role.Tool?)
  {
    ToolsAre(messages[1..][..size - 1]);
    assert forall k :: 1 <= k < size ==> messages[k] == messages[1..][..size - 1][k - 1];
    assert size < |messages| ==> messages[size..][0] == messages[size];
  }

  lemma FirstExchangeIsWhole(messages: seq<Message>, e: nat)
    requires Exchange(messages, 0, e) && Valid(messages)
    ensures AllAnswered(messages[0], messages[1..e]) && Valid(messages[e..])
  {
    hide AllAnswered, AnsweredIds, Valid, AllTools, CallIds;
    var size := FirstAnswers(messages);
    AnswersEnd(messages, size);
    assert size == e;
    assert messages[1..][..size - 1] == messages[1..e];
    AnsweredByCount(messages[0], messages[1..e]);
  }

  lemma FirstAnswers(messages: seq<Message>) returns (size: nat)
    requires messages != [] && Valid(messages)
    ensures 0 < size <= |messages| && AllTools(messages[1..][..size - 1]) && Valid(messages[size..])
    ensures multiset(AnsweredIds(messages[1..][..size - 1])) == multiset(CallIds(messages[0]))
  {
    size := 1 + |CallIds(messages[0])|;
  }

  lemma WholeExchangeStarts(messages: seq<Message>, e: nat)
    requires Exchange(messages, 0, e) && AllAnswered(messages[0], messages[1..e]) && Valid(messages[e..])
    ensures Valid(messages)
  {
    hide AllAnswered, AnsweredIds, CallIds;
    var calls := multiset(CallIds(messages[0]));
    AnsweredByCount(messages[0], messages[1..e]);
    AnswersAre(messages[1..e]);
    assert |multiset(AnsweredIds(messages[1..e]))| == e - 1;
    assert messages[1..][..|calls|] == messages[1..e];
    ToolsAre(messages[1..e]);
  }

  /** A history is valid exactly if it does not start with a tool message and behind every other
      message the tool messages answer each id as often as it calls under it. */
  lemma {:induction false} ValidExactly(messages: seq<Message>)
    ensures Valid(messages) <==> EveryExchangeIsWhole(messages)
    decreases |messages|
  {
    hide AllAnswered;
    if messages != [] && !messages[0].role.Tool? {
      var e := ExchangeEnd(messages, 0);
      RestExchanges(messages, e);
      if Valid(messages) {
        FirstExchangeIsWhole(messages, e);
      }
      if AllAnswered(messages[0], messages[1..e]) && Valid(messages[e..]) {
        WholeExchangeStarts(messages, e);
      }
      ValidExactly(messages[e..]);
    }
  }

  function RemoveFirst(ids: seq<string>, id: string): (r: seq<string>)
    requires id in ids
    ensures multiset(r) == multiset(ids) - multiset{id}
  {
    assert ids == [ids[0]] + ids[1..];
    if ids[0] == id then ids[1..]
    else [ids[0]] + RemoveFirst(ids[1..], id)
  }

  /** `_is_valid_tool_sequence`: the pending list is a multiset of unanswered ids. */
  method IsValidToolSequence(messages: seq<Message>) returns (valid: bool)
    ensures valid <==> Valid(messages)
  {
    ScanIsValid(messages);
    var pending: seq<string> := [];
    for i := 0 to |messages|
      invariant Scan(multiset(pending), messages[i..]) <==> Valid(messages)
    {
      var m := messages[i];
      assert messages[i..][1..] == messages[i + 1..];
      assert |multiset(pending)| == |pending|;
      match m.role
      case Assistant =>
        if pending != [] {
          return false;
        }
        pending := CallIds(m);
      case Tool =>
        if pending == [] || m.toolCallId !in pending {
          return false;
        }
        pending := RemoveFirst(pending, m.toolCallId);
      case _ =>
        if pending != [] {
          return false;
        }
    }
    assert messages[|messages|..] == [];
    assert |multiset(pending)| == |pending|;
    return pending == [];
  }

  // ---- what validity gives ----

  function AllCalls(messages: seq<Message>): multiset<string> {
    if messages == [] then multiset{} else multiset(CallIds(messages[0])) + AllCalls(messages[1..])
  }

  function AllAnswers(messages: seq<Message>): multiset<string> {
    if messages == [] then multiset{}
    else (if messages[0].role.Tool? then multiset{messages[0].toolCallId} else multiset{}) + AllAnswers(messages[1..])
  }

  lemma {:induction false} ScanBalances(pending: multiset<string>, messages: seq<Message>)
    requires Scan(pending, messages)
    ensures pending + AllCalls(messages) == AllAnswers(messages)
    decreases |messages|
  {
    if messages != [] {
      if messages[0].role.Tool? {
        ScanBalances(pending - multiset{messages[0].toolCallId}, messages[1..]);
      } else {
        ScanBalances(multiset(CallIds(messages[0])), messages[1..]);
      }
    }
  }

  /** In a valid history every call is answered, as often as it was made, and nothing else is. */
  lemma ValidBalances(messages: seq<Message>)
    requires Valid(messages)
    ensures AllCalls(messages) == AllAnswers(messages)
  {
    ScanIsValid(messages);
    ScanBalances(multiset{}, messages);
  }

  lemma AnswersAreTools(messages: seq<Message>, k: nat)
    requires messages != [] && Valid(messages) && 1 <= k <= |CallIds(messages[0])|
    ensures k < |messages| && messages[k].role.Tool?
  {
    hide AnsweredIds, AllTools;
    ToolAt(messages[1..][..|CallIds(messages[0])|], k - 1);
  }

  /** A valid end of a valid history starts no earlier than its second exchange. */
  lemma CutAfterFirstExchange(messages: seq<Message>, at: nat)
    requires 0 < at < |messages| && Valid(messages) && Valid(messages[at..])
    ensures at >= 1 + |CallIds(messages[0])|
  {
    if at <= |CallIds(messages[0])| {
      AnswersAreTools(messages, at);
    }
  }

  /** An exchange that fits into the beginning is an exchange there. */
  lemma ExchangeStays(messages: seq<Message>, at: nat)
    requires 0 < at <= |messages| && 1 + |CallIds(messages[0])| <= at
    ensures AnswersFirst(multiset(CallIds(messages[0])), messages[1..])
            ==> AnswersFirst(multiset(CallIds(messages[0])), messages[..at][1..])
  {
    var n := |CallIds(messages[0])|;
    assert messages[..at][1..][..n] == messages[1..][..n];
  }

  /** A first exchange and what follows it. */
  lemma ExchangeThen(messages: seq<Message>, size: nat)
    requires messages != [] && size == 1 + |CallIds(messages[0])| && !messages[0].role.Tool?
    requires AnswersFirst(multiset(CallIds(messages[0])), messages[1..])
    requires size <= |messages| && Valid(messages[size..])
    ensures Valid(messages)
  {
  }

  lemma SliceSlice<T>(s: seq<T>, size: nat, at: nat)
    requires size <= at <= |s|
    ensures s[size..][at - size..] == s[at..] && s[size..][..at - size] == s[..at][size..]
  {
  }

  /** If the whole and its end are valid, the beginning is: the cut parts no call from its answer. */
  lemma {:induction false} CutIsClean(messages: seq<Message>, at: nat)
    requires at <= |messages| && Valid(messages) && Valid(messages[at..])
    ensures Valid(messages[..at])
    decreases |messages|
  {
    if at > 0 {
      var size := 1 + |CallIds(messages[0])|;
      if at < |messages| {
        CutAfterFirstExchange(messages, at);
      }
      SliceSlice(messages, size, at);
      CutIsClean(messages[size..], at - size);
      ExchangeStays(messages, at);
      ExchangeThen(messages[..at], size);
    }
  }

  // ---- the split ----

  function StartBound(messages: seq<Message>, keepRecent: nat): nat {
    if |messages| > keepRecent then |messages| - keepRecent else 0
  }

  ghost predicate ValidFrom(messages: seq<Message>, at: nat) {
    at <= |messages| && Valid(messages[at..])
  }

  /** The latest position up to `bound` from which the history is valid, or 0. */
  ghost function CutFrom(messages: seq<Message>, bound: nat): (at: nat)
    ensures at <= bound
  {
    if bound == 0 || ValidFrom(messages, bound) then bound else CutFrom(messages, bound - 1)
  }

  lemma {:induction false} CutFromIsLatest(messages: seq<Message>, bound: nat)
    ensures CutFrom(messages, bound) > 0 ==> ValidFrom(messages, CutFrom(messages, bound))
    ensures forall k: nat :: CutFrom(messages, bound) < k <= bound ==> !ValidFrom(messages, k)
  {
    hide ValidFrom;
    if bound > 0 && !ValidFrom(messages, bound) {
      CutFromIsLatest(messages, bound - 1);
    }
  }

  /** `_split_preserving_tool_pairs`: the latest cut keeping at least `keepRecent` messages whose
      end is valid; without one, nothing is split off. */
  method Split(messages: seq<Message>, keepRecent: nat) returns (older: seq<Message>, recent: seq<Message>)
    ensures |older| == CutFrom(messages, StartBound(messages, keepRecent))
    ensures older == messages[..|older|] && recent == messages[|older|..]
  {
    hide ValidFrom;
    var start := StartBound(messages, keepRecent);
    while start > 0
      invariant 0 <= start <= StartBound(messages, keepRecent)
      invariant CutFrom(messages, start) == CutFrom(messages, StartBound(messages, keepRecent))
    {
      var valid := EndIsValid(messages, start);
      if valid {
        older, recent := messages[..start], messages[start..];
        return;
      }
      start := start - 1;
    }
    older, recent := [], messages;
  }

  method EndIsValid(messages: seq<Message>, at: nat) returns (valid: bool)
    requires at <= |messages|
    ensures valid <==> ValidFrom(messages, at)
  {
    valid := IsValidToolSequence(messages[at..]);
  }

  // ---- compaction ----

  function OfRole(messages: seq<Message>, system: bool): seq<Message> {
    if messages == [] then []
    else (if messages[0].role.System? == system then [messages[0]] else []) + OfRole(messages[1..], system)
  }

  /** The messages dealt out in order: the system messages to one list, the others to the other. */
  ghost predicate Separates(messages: seq<Message>, systems: seq<Message>, rest: seq<Message>)
    decreases |messages|
  {
    if messages == [] then systems == [] && rest == []
    else if messages[0].role.System? then
      systems != [] && systems[0] == messages[0] && Separates(messages[1..], systems[1..], rest)
    else rest != [] && rest[0] == messages[0] && Separates(messages[1..], systems, rest[1..])
  }

  lemma {:induction false} RolesSeparate(messages: seq<Message>)
    ensures Separates(messages, OfRole(messages, true), OfRole(messages, false))
  {
    if messages != [] {
      var systems, rest := OfRole(messages[1..], true), OfRole(messages[1..], false);
      RolesSeparate(messages[1..]);
      assert [] + rest == rest && [] + systems == systems;
      assert ([messages[0]] + rest)[1..] == rest && ([messages[0]] + systems)[1..] == systems;
    }
  }

  /** Dealing out loses and adds nothing, ... */
  lemma {:induction false} SeparationKeepsAll(messages: seq<Message>, systems: seq<Message>, rest: seq<Message>)
    requires Separates(messages, systems, rest)
    ensures multiset(systems) + multiset(rest) == multiset(messages)
    decreases |messages|
  {
    if messages != [] {
      var m := messages[0];
      if m.role.System? {
        SeparationKeepsAll(messages[1..], systems[1..], rest);
        ConsCounts(systems);
      } else {
        SeparationKeepsAll(messages[1..], systems, rest[1..]);
        ConsCounts(rest);
      }
      ConsCounts(messages);
    }
  }

  lemma ConsCounts(messages: seq<Message>)
    requires messages != []
    ensures multiset(messages) == multiset{messages[0]} + multiset(messages[1..])
  {
    assert messages == [messages[0]] + messages[1..];
  }

  /** ... puts each message where it belongs, ... */
  lemma {:induction false} SeparatedByRole(messages: seq<Message>, systems: seq<Message>, rest: seq<Message>)
    requires Separates(messages, systems, rest)
    ensures (forall i :: 0 <= i < |systems| ==> systems[i].role.System?) && forall i :: 0 <= i < |rest| ==> !rest[i].role.System?
    decreases |messages|
  {
    if messages != [] {
      if messages[0].role.System? {
        SeparatedByRole(messages[1..], systems[1..], rest);
      } else {
        SeparatedByRole(messages[1..], systems, rest[1..]);
      }
    }
  }

  /** ... and leaves no choice. */
  lemma {:induction false} SeparationIsUnique(messages: seq<Message>, a: seq<Message>, b: seq<Message>,
                                              c: seq<Message>, d: seq<Message>)
    requires Separates(messages, a, b) && Separates(messages, c, d)
    ensures a == c && b == d
    decreases |messages|
  {
    if messages != [] {
      if messages[0].role.System? {
        SeparationIsUnique(messages[1..], a[1..], b, c[1..], d);
        assert a == [a[0]] + a[1..] && c == [c[0]] + c[1..];
      } else {
        SeparationIsUnique(messages[1..], a, b[1..], c, d[1..]);
        assert b == [b[0]] + b[1..] && d == [d[0]] + d[1..];
      }
    }
  }

  /** A cut that compaction may use: late enough to shrink, early enough to keep the recent. */
  ghost predicate UsableCut(rest: seq<Message>, keepRecent: nat, at: nat) {
    0 < at && at + keepRecent <= |rest| && ValidFrom(rest, at)
  }

  ghost predicate LatestCut(rest: seq<Message>, keepRecent: nat, at: nat) {
    UsableCut(rest, keepRecent, at) && forall later: nat :: UsableCut(rest, keepRecent, later) ==> later <= at
  }

  ghost predicate HasCut(rest: seq<Message>, keepRecent: nat) {
    exists at: nat :: UsableCut(rest, keepRecent, at)
  }

  /** `compact`. `tokens` is the estimate for the whole history and `summary` what the summarizer
      returns. It compacts exactly when the history is over budget and has a usable cut; then the
      system messages and everything from the latest usable cut stay, with one summary between. */
  method Compact(messages: seq<Message>, tokens: nat, budget: nat, keepRecent: nat, summary: string)
      returns (out: seq<Message>, changed: bool, ghost systems: seq<Message>, ghost others: seq<Message>)
    requires keepRecent >= 2
    ensures Separates(messages, systems, others)
    ensures changed <==> tokens > budget && HasCut(others, keepRecent)
    ensures !changed ==> out == messages
    ensures changed ==>
      Valid(out)
      && exists at: nat :: LatestCut(others, keepRecent, at)
                           && out == systems + [Message(System, [], "", summary)] + others[at..]
  {
    var systemMessages, rest := OfRole(messages, true), OfRole(messages, false);
    systems, others := systemMessages, rest;
    RolesSeparate(messages);
    out, changed := messages, false;
    if tokens <= budget || |rest| <= keepRecent {
      return;
    }
    var older, recent := Split(rest, keepRecent);
    var valid := IsValidToolSequence(recent);
    CutFromIsLatest(rest, StartBound(rest, keepRecent));
    SplitFindsCut(rest, keepRecent, |older|);
    if older == [] || recent == [] || !valid {
      return;
    }
    out := systemMessages + [Message(System, [], "", summary)] + recent;
    changed := true;
    CompactedIsValid(messages, summary, recent);
  }

  lemma SplitFindsCut(rest: seq<Message>, keepRecent: nat, at: nat)
    requires keepRecent < |rest| && at <= StartBound(rest, keepRecent)
    requires at > 0 ==> ValidFrom(rest, at)
    requires forall k: nat :: at < k <= StartBound(rest, keepRecent) ==> !ValidFrom(rest, k)
    ensures at > 0 ==> LatestCut(rest, keepRecent, at)
    ensures at > 0 <==> HasCut(rest, keepRecent)
  {
    if at > 0 {
      assert UsableCut(rest, keepRecent, at);
    }
  }

  lemma CompactedIsValid(messages: seq<Message>, summary: string, recent: seq<Message>)
    requires Valid(recent)
    ensures Valid(OfRole(messages, true) + [Message(System, [], "", summary)] + recent)
  {
    OnlySystem(messages);
    PrefixedIsValid(OfRole(messages, true) + [Message(System, [], "", summary)], recent);
  }

  lemma {:induction false} OnlySystem(messages: seq<Message>)
    ensures forall m :: m in OfRole(messages, true) ==> m.role.System?
    ensures forall m :: m in OfRole(messages, false) ==> !m.role.System?
  {
    if messages != [] {
      OnlySystem(messages[1..]);
    }
  }

  /** A message without calls may stand before any valid history. */
  lemma PlainCons(m: Message, messages: seq<Message>)
    requires m.role.System? && Valid(messages)
    ensures Valid([m] + messages)
  {
    var all := [m] + messages;
    assert all[1..] == messages && messages[..0] == [];
    assert AnswersFirst(multiset{}, messages);
  }

  lemma ConsConcat<T>(a: seq<T>, b: seq<T>)
    requires a != []
    ensures a + b == [a[0]] + (a[1..] + b)
  {
  }

  lemma {:induction false} PrefixedIsValid(plain: seq<Message>, recent: seq<Message>)
    requires (forall k :: 0 <= k < |plain| ==> plain[k].role.System?) && Valid(recent)
    ensures Valid(plain + recent)
  {
    if plain == [] {
      assert plain + recent == recent;
    } else {
      ConsConcat(plain, recent);
      PrefixedIsValid(plain[1..], recent);
      PlainCons(plain[0], plain[1..] + recent);
    }
  }

  lemma {:induction false} SystemStepsOut(pending: multiset<string>, messages: seq<Message>)
    requires Scan(pending, messages)
    ensures Scan(pending, OfRole(messages, false))
    decreases |messages|
  {
    if messages != [] {
      var m, rest := messages[0], OfRole(messages[1..], false);
      if m.role.Tool? {
        SystemStepsOut(pending - multiset{m.toolCallId}, messages[1..]);
        assert OfRole(messages, false) == [m] + rest;
      } else {
        SystemStepsOut(multiset(CallIds(m)), messages[1..]);
        if m.role.System? {
          assert OfRole(messages, false) == [] + rest == rest;
        } else {
          assert OfRole(messages, false) == [m] + rest;
        }
      }
    }
  }

  /** For a valid history: the part summarized and the part kept are both valid, and there is
      such a cut exactly when the first exchange fits before the messages to keep. */
  lemma CompactionPartsNoCall(messages: seq<Message>, keepRecent: nat)
    requires Valid(messages) && keepRecent >= 2
    ensures var rest := OfRole(messages, false);
            (forall at: nat :: UsableCut(rest, keepRecent, at) ==> Valid(rest[..at]) && Valid(rest[at..]))
            && (HasCut(rest, keepRecent) <==> rest != [] && 1 + |CallIds(rest[0])| + keepRecent <= |rest|)
  {
    var rest := OfRole(messages, false);
    ScanIsValid(messages);
    SystemStepsOut(multiset{}, messages);
    ScanIsValid(rest);
    forall at: nat | UsableCut(rest, keepRecent, at)
      ensures Valid(rest[..at]) && at >= 1 + |CallIds(rest[0])|
    {
      CutIsClean(rest, at);
      CutAfterFirstExchange(rest, at);
    }
    if rest != [] && 1 + |CallIds(rest[0])| + keepRecent <= |rest| {
      assert UsableCut(rest, keepRecent, 1 + |CallIds(rest[0])|);
    }
  }
}
