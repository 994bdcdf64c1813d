/**
 When fitting a conversation into a budget keeps the tool protocol: decay always does, the drop of
 the oldest middle messages and their summary exactly if no kept answer loses its call.
 */
module DropValidity {
  import opened Wrappers
  import opened ToolPairs
  import B = ContextBudget

  // ---- conversations as histories ----

  function RoleOf(role: string): Role {
    if role == "system" then System else if role == "user" then User
    else if role == "assistant" then Assistant else if role == "tool" then Tool else OtherRole
  }

  function IdsOf(calls: seq<B.ToolCall>): (r: seq<string>)
    ensures |r| == |calls| && forall i :: 0 <= i < |r| ==> r[i] == calls[i].id
  {
    seq(|calls|, i requires 0 <= i < |calls| => calls[i].id)
  }

  function AsMessage(m: B.ChatMessage): Message {
    Message(RoleOf(m.role), IdsOf(m.toolCalls), if m.toolCallId.Some? then m.toolCallId.value else "", m.content)
  }

  function AsHistory(ms: seq<B.ChatMessage>): (r: seq<Message>)
    ensures |r| == |ms| && forall i :: 0 <= i < |r| ==> r[i] == AsMessage(ms[i])
  {
    seq(|ms|, i requires 0 <= i < |ms| => AsMessage(ms[i]))
  }

  ghost predicate ValidChat(ms: seq<B.ChatMessage>) {
    Valid(AsHistory(ms))
  }

  // ---- ends of a valid history ----

  /** An end of a valid history is valid exactly if it does not start with an answer. */
  lemma {:induction false} EndIsValidExactly(messages: seq<Message>, at: nat)
    requires at <= |messages| && Valid(messages)
    ensures Valid(messages[at..]) <==> at == |messages| || !messages[at].role.Tool?
    decreases |messages|
  {
    if at == 0 {
      assert messages[0..] == messages;
    } else {
      var size := 1 + |CallIds(messages[0])|;
      if at < size {
        AnswersAreTools(messages, at);
      } else {
        EndIsValidExactly(messages[size..], at - size);
        SliceSlice(messages, size, at);
      }
    }
  }

  /** A first message before the end of a valid history: its calls, if any, are answered at once,
      and what follows does not start with an answer. */
  ghost predicate Joins(first: Message, messages: seq<Message>, at: nat) {
    var next := at + |CallIds(first)|;
    at <= |messages| && AnswersFirst(multiset(CallIds(first)), messages[at..])
    && (next == |messages| || !messages[next].role.Tool?)
  }

  lemma EnoughMessages(pending: multiset<string>, messages: seq<Message>)
    ensures AnswersFirst(pending, messages) ==> |pending| <= |messages|
  {
  }

  lemma FirstThenRest(first: Message, rest: seq<Message>)
    requires !first.role.Tool?
    ensures AnswersFirst(multiset(CallIds(first)), rest) ==> |CallIds(first)| <= |rest|
    ensures Valid([first] + rest)
            <==> AnswersFirst(multiset(CallIds(first)), rest) && Valid(rest[|CallIds(first)|..])
  {
    hide AnswersFirst, CallIds;
    var all, n := [first] + rest, |CallIds(first)|;
    assert all[1..] == rest && all[0] == first;
    assert |multiset(CallIds(first))| == n;
    EnoughMessages(multiset(CallIds(first)), rest);
    if n <= |rest| {
      assert all[1 + n..] == rest[n..];
    }
  }

  lemma JoinedIsValidExactly(first: Message, messages: seq<Message>, at: nat)
    requires at <= |messages| && Valid(messages) && !first.role.Tool?
    ensures Valid([first] + messages[at..]) <==> Joins(first, messages, at)
  {
    hide Valid, AnswersFirst;
    var n := |CallIds(first)|;
    FirstThenRest(first, messages[at..]);
    if at + n <= |messages| {
      assert messages[at..][n..] == messages[at + n..];
      EndIsValidExactly(messages, at + n);
    }
  }

  // ---- decay ----

  lemma {:induction false} ContentIsFree(a: seq<Message>, b: seq<Message>, pending: multiset<string>)
    requires |a| == |b| && forall i :: 0 <= i < |a| ==> b[i] == a[i].(content := b[i].content)
    ensures Scan(pending, a) <==> Scan(pending, b)
    decreases |a|
  {
    if a != [] {
      assert b[0] == a[0].(content := b[0].content);
      ContentIsFree(a[1..], b[1..], if a[0].role.Tool? then pending - multiset{a[0].toolCallId} else multiset(CallIds(a[0])));
    }
  }

  /** Decay changes contents only, so it parts no call from its answer. */
  lemma DecayKeepsValidity(ms: seq<B.ChatMessage>)
    ensures ValidChat(B.Decayed(ms)) <==> ValidChat(ms)
  {
    var a, b := AsHistory(ms), AsHistory(B.Decayed(ms));
    forall i | 0 <= i < |a|
      ensures b[i] == a[i].(content := b[i].content)
    {
      B.DecaySparesExactly(ms, i);
    }
    ContentIsFree(a, b, multiset{});
    ScanIsValid(a);
    ScanIsValid(b);
  }

  // ---- the drop ----

  lemma DroppedHistory(ms: seq<B.ChatMessage>, n: nat)
    requires 0 < n <= B.MaxDrop(|ms|)
    ensures AsHistory(B.AfterDrop(ms, n)) == [AsHistory(ms)[0]] + AsHistory(ms)[1 + n..]
  {
  }

  lemma DroppedIsValidExactly(ms: seq<B.ChatMessage>, n: nat)
    requires ValidChat(ms) && 0 < n <= B.MaxDrop(|ms|)
    ensures var h := AsHistory(ms);
            (ValidChat(B.AfterDrop(ms, n)) <==> Joins(h[0], h, 1 + n))
            && (CallIds(h[0]) == [] ==> (Joins(h[0], h, 1 + n) <==> ms[1 + n].role != "tool"))
  {
    hide Valid, Joins, CallIds;
    DroppedHistory(ms, n);
    StartsNoAnswer(AsHistory(ms));
    JoinedIsValidExactly(AsHistory(ms)[0], AsHistory(ms), 1 + n);
    NoCallsJoin(AsHistory(ms)[0], AsHistory(ms), 1 + n);
  }

  /** A compacted conversation is a valid history exactly if nothing was dropped, or the first
      message joins what was kept; for a first message without calls, such as the system message,
      that is if the kept end does not start with an answer. */
  lemma CompactedIsValidExactly(ms: seq<B.ChatMessage>, budget: nat, out: seq<B.ChatMessage>)
    requires B.IsCompacted(ms, budget, out) && ValidChat(ms)
    ensures var h, n := AsHistory(ms), |ms| - |out|;
            n >= 0 && (ValidChat(out) <==> n == 0 || Joins(h[0], h, 1 + n))
            && (n > 0 && CallIds(h[0]) == [] ==> (Joins(h[0], h, 1 + n) <==> ms[1 + n].role != "tool"))
  {
    hide ValidChat, Joins, CallIds, B.AfterDrop, B.Sum, B.Costs, B.MessagesTokens;
    if B.MessagesTokens(ms) > budget {
      var n: nat :| B.IsShortestDrop(B.Costs(ms), budget, n) && out == B.AfterDrop(ms, n);
      assert |B.Costs(ms)| == |ms|;
      DroppedLength(ms, n);
      if n > 0 {
        DroppedIsValidExactly(ms, n);
      } else {
        NothingDropped(ms);
      }
    }
  }

  lemma DroppedLength(ms: seq<B.ChatMessage>, n: nat)
    requires n <= B.MaxDrop(|ms|)
    ensures |B.AfterDrop(ms, n)| == |ms| - n
  {
  }

  lemma NothingDropped(ms: seq<B.ChatMessage>)
    ensures B.AfterDrop(ms, 0) == ms
  {
  }

  lemma NoCallsJoin(first: Message, messages: seq<Message>, at: nat)
    requires at < |messages|
    ensures CallIds(first) == [] ==> (Joins(first, messages, at) <==> !messages[at].role.Tool?)
  {
    NothingPending(messages[at..]);
  }

  /** With the middle summarized the conversation is a valid history exactly if the first message
      makes no call and the last six do not start with an answer. */
  lemma SummarizedIsValidExactly(ms: seq<B.ChatMessage>, summary: string)
    requires ValidChat(ms) && |ms| > B.KEEP_TAIL + 3
    ensures ValidChat(B.Summarized(ms, Some(summary)))
            <==> CallIds(AsMessage(ms[0])) == [] && ms[|ms| - B.KEEP_TAIL].role != "tool"
  {
    var h, at := AsHistory(ms), |ms| - B.KEEP_TAIL;
    var note := AsMessage(B.SummaryMessage(summary));
    var out := AsHistory(B.Summarized(ms, Some(summary)));
    hide Valid, Joins;
    assert out == [h[0]] + ([note] + h[at..]);
    StartsNoAnswer(h);
    JoinedIsValidExactly(note, h, at);
    NoCallsJoin(note, h, at);
    CallsUnanswered(h[0], note, h[at..]);
  }

  lemma StartsNoAnswer(messages: seq<Message>)
    requires Valid(messages) && messages != []
    ensures !messages[0].role.Tool?
  {
  }

  lemma CallsUnanswered(first: Message, note: Message, rest: seq<Message>)
    requires !first.role.Tool? && note.role.System?
    ensures Valid([first] + ([note] + rest)) <==> CallIds(first) == [] && Valid([note] + rest)
  {
    hide Valid, CallIds, AnsweredIds;
    var later, n := [note] + rest, |CallIds(first)|;
    FirstThenRest(first, later);
    assert |multiset(CallIds(first))| == n;
    if n > 0 && AnswersFirst(multiset(CallIds(first)), later) {
      ToolAt(later[..n], 0);
    }
    if n == 0 {
      assert CallIds(first) == [] && later[0..] == later;
      NothingPending(later);
    }
  }

  lemma NothingPending(messages: seq<Message>)
    ensures AnswersFirst(multiset{}, messages)
  {
    assert messages[..0] == [] && AnsweredIds([]) == [];
  }

  /** For one: eight messages, the second of which makes a call the third answers. One is dropped,
      and the answer is left without its call. */
  lemma DropOrphansAnAnswer(ms: seq<B.ChatMessage>, out: seq<B.ChatMessage>, call: B.ToolCall)
    requires |ms| == 8 && call.id != "" && B.IsCompacted(ms, 0, out)
    requires ms[1].role == "assistant" && ms[1].toolCalls == [call] && ms[2].role == "tool" && ms[2].toolCallId == Some(call.id)
    requires forall i :: 0 <= i < 8 && i != 1 && i != 2 ==> ms[i].role == "user"
    ensures ValidChat(ms) && out == ms[..1] + ms[2..] && !ValidChat(out)
  {
    hide Valid, Joins, B.AfterDrop, B.Sum;
    var h := AsHistory(ms);
    OneIsDropped(ms, out);
    assert h == [h[0]] + ([h[1]] + ([h[2]] + h[3..]));
    PlainRow(h[3..]);
    CallThenAnswer(h[1], h[2], call.id, h[3..]);
    PlainFirst(h[0], [h[1]] + ([h[2]] + h[3..]));
    CompactedIsValidExactly(ms, 0, out);
  }

  lemma OneIsDropped(ms: seq<B.ChatMessage>, out: seq<B.ChatMessage>)
    requires |ms| == 8 && B.IsCompacted(ms, 0, out)
    ensures out == ms[..1] + ms[2..]
  {
    B.SumAtLeast(B.Costs(ms));
  }

  lemma PlainFirst(m: Message, rest: seq<Message>)
    requires m.role.User? && Valid(rest)
    ensures Valid([m] + rest)
  {
    hide Valid;
    FirstThenRest(m, rest);
    NothingPending(rest);
    assert rest[0..] == rest;
  }

  lemma {:induction false} PlainRow(messages: seq<Message>)
    requires forall m :: m in messages ==> m.role.User?
    ensures Valid(messages)
  {
    if messages != [] {
      PlainRow(messages[1..]);
      PlainFirst(messages[0], messages[1..]);
      assert messages == [messages[0]] + messages[1..];
    }
  }

  lemma CallThenAnswer(caller: Message, answer: Message, id: string, rest: seq<Message>)
    requires caller.role.Assistant? && caller.calls == [id] && id != "" && answer.role.Tool? && answer.toolCallId == id && Valid(rest)
    ensures Valid([caller] + ([answer] + rest))
  {
    hide Valid;
    var later := [answer] + rest;
    assert NonEmpty([id][1..]) == [] && CallIds(caller) == [id];
    FirstThenRest(caller, later);
    assert later[1..] == rest && later[..1] == [answer] && [answer][1..] == [];
    assert AllTools([]) && AnsweredIds([]) == [];
    assert AllTools([answer]) && AnsweredIds([answer]) == [id];
    assert |multiset([id])| == 1;
    assert AnswersFirst(multiset(CallIds(caller)), later);
  }
}
