/**
 Fitting a conversation into a token budget: the token estimate, the decay of old tool results,
 and the drop of the oldest middle messages.
 */
module ContextBudget {
  import opened Wrappers

  datatype ToolCall = ToolCall(id: string, name: string, arguments: string)

  datatype ChatMessage = ChatMessage(role: string, content: string, reasoning: Option<string>, toolCalls: seq<ToolCall>,
                                     toolCallId: Option<string>)

  const KEEP_TAIL: nat := 6
  const DECAY_KEEP_RECENT: nat := 8
  const DECAY_MIN_CHARS: nat := 1500
  const HEAD_CHARS: nat := 160
  /** The largest character count a 64-bit `usize` holds. */
  const MAX_CHARS: nat := 0xFFFF_FFFF_FFFF_FFFF

  // ---- the estimate ----

  predicate IsCjk(c: char) {
    var n := c as int;
    0x4E00 <= n <= 0x9FFF || 0x3400 <= n <= 0x4DBF || 0x3000 <= n <= 0x303F || 0xFF00 <= n <= 0xFFEF
    || 0x3040 <= n <= 0x30FF || 0xAC00 <= n <= 0xD7AF
  }

  function CjkCount(s: string): (n: nat)
    ensures n <= |s|
  {
    if s == "" then 0 else CjkCount(s[..|s| - 1]) + (if IsCjk(s[|s| - 1]) then 1 else 0)
  }

  function Tokens(s: string): nat {
    CjkCount(s) + (|s| - CjkCount(s) + 3) / 4
  }

  /** `estimate_tokens`: two counters over the characters. */
  method EstimateTokens(text: string) returns (n: nat)
    ensures n == Tokens(text)
  {
    var cjk, other := 0, 0;
    for i := 0 to |text|
      invariant cjk == CjkCount(text[..i]) && cjk + other == i
    {
      assert text[..i + 1][..i] == text[..i];
      if IsCjk(text[i]) {
        cjk := cjk + 1;
      } else {
        other := other + 1;
      }
    }
    assert text[..|text|] == text;
    return cjk + (other + 3) / 4;
  }

  /** A text costs at most one token a character and at least a quarter of that. */
  lemma TokenBounds(s: string)
    ensures Tokens(s) <= |s| <= 4 * Tokens(s)
  {
  }

  /** A character that costs a token of its own: ideographs and their first extension, their
      punctuation, fullwidth forms, kana, and Hangul syllables. */
  ghost predicate Wide(c: char) {
    '\U{4E00}' <= c <= '\U{9FFF}' || '\U{3400}' <= c <= '\U{4DBF}' || '\U{3000}' <= c <= '\U{303F}'
    || '\U{FF00}' <= c <= '\U{FFEF}' || '\U{3040}' <= c <= '\U{30FF}' || '\U{AC00}' <= c <= '\U{D7AF}'
  }

  /** A text costs one token for each wide character and one for every four others, begun ones
      included. */
  lemma TokensByWidth(s: string, wide: set<nat>)
    requires forall i: nat :: i in wide <==> i < |s| && Wide(s[i])
    ensures Tokens(s) == |wide| + (|s| - |wide| + 3) / 4
  {
    CountByWidth(s, wide);
  }

  lemma {:induction false} CountByWidth(s: string, wide: set<nat>)
    requires forall i: nat :: i in wide <==> i < |s| && Wide(s[i])
    ensures CjkCount(s) == |wide|
  {
    if s == "" {
      assert wide == {};
    } else {
      var n := |s| - 1;
      CountByWidth(s[..n], wide - {n});
      assert n in wide ==> |wide - {n}| == |wide| - 1;
      assert n !in wide ==> wide - {n} == wide;
    }
  }

  function CallTokens(calls: seq<ToolCall>): nat {
    if calls == [] then 0 else Tokens(calls[0].name) + Tokens(calls[0].arguments) + CallTokens(calls[1..])
  }

  function MessageTokens(m: ChatMessage): nat {
    Tokens(m.content) + (if m.reasoning.Some? then Tokens(m.reasoning.value) else 0) + CallTokens(m.toolCalls) + 4
  }

  /** The texts of a message: its content, its reasoning, and name and arguments of each call. */
  ghost function TextsOf(m: ChatMessage): seq<string> {
    [m.content] + (if m.reasoning.Some? then [m.reasoning.value] else []) + CallTexts(m.toolCalls)
  }

  ghost function CallTexts(calls: seq<ToolCall>): (r: seq<string>)
    ensures |r| == 2 * |calls|
    ensures forall i :: 0 <= i < |calls| ==> r[2 * i] == calls[i].name && r[2 * i + 1] == calls[i].arguments
  {
    if calls == [] then [] else CallTexts(calls[..|calls| - 1]) + [calls[|calls| - 1].name, calls[|calls| - 1].arguments]
  }

  ghost function Estimates(texts: seq<string>): (r: seq<nat>)
    ensures |r| == |texts| && forall i :: 0 <= i < |r| ==> r[i] == Tokens(texts[i])
  {
    seq(|texts|, i requires 0 <= i < |texts| => Tokens(texts[i]))
  }

  /** A message costs what its texts cost, and four. */
  lemma MessageCostsItsTexts(m: ChatMessage)
    ensures MessageTokens(m) == Sum(Estimates(TextsOf(m))) + 4
  {
    hide Tokens, CallTexts, Sum;
    var reasoning := if m.reasoning.Some? then [m.reasoning.value] else [];
    CallsCostTheirTexts(m.toolCalls);
    EstimatesConcat([m.content] + reasoning, CallTexts(m.toolCalls));
    EstimatesConcat([m.content], reasoning);
    OneEstimate(m.content);
    if m.reasoning.Some? {
      OneEstimate(m.reasoning.value);
    } else {
      assert Estimates([]) == [];
      NoEstimate();
    }
  }

  lemma NoEstimate()
    ensures Sum(Estimates([])) == 0
  {
  }

  lemma OneEstimate(text: string)
    ensures Sum(Estimates([text])) == Tokens(text)
  {
    assert Estimates([text]) == [Tokens(text)];
  }

  lemma EstimatesConcat(a: seq<string>, b: seq<string>)
    ensures Sum(Estimates(a + b)) == Sum(Estimates(a)) + Sum(Estimates(b))
  {
    hide Tokens;
    SumConcat(Estimates(a), Estimates(b));
    assert Estimates(a + b) == Estimates(a) + Estimates(b);
  }

  lemma {:induction false} CallsCostTheirTexts(calls: seq<ToolCall>)
    ensures CallTokens(calls) == Sum(Estimates(CallTexts(calls)))
  {
    if calls != [] {
      var name, arguments := calls[0].name, calls[0].arguments;
      CallsCostTheirTexts(calls[1..]);
      EstimatesConcat([name, arguments], CallTexts(calls[1..]));
      EstimatesConcat([name], [arguments]);
      OneEstimate(name);
      OneEstimate(arguments);
      assert [name, arguments] == [name] + [arguments];
      FirstCallTexts(calls);
    } else {
      NoEstimate();
    }
  }

  lemma {:induction false} FirstCallTexts(calls: seq<ToolCall>)
    requires calls != []
    ensures CallTexts(calls) == [calls[0].name, calls[0].arguments] + CallTexts(calls[1..])
  {
    if |calls| > 1 {
      var before := calls[..|calls| - 1];
      FirstCallTexts(before);
      assert calls[1..][..|calls| - 2] == before[1..];
    }
  }

  function Costs(ms: seq<ChatMessage>): (r: seq<nat>)
    ensures |r| == |ms| && forall i :: 0 <= i < |ms| ==> r[i] == MessageTokens(ms[i])
  {
    seq(|ms|, i requires 0 <= i < |ms| => MessageTokens(ms[i]))
  }

  function Sum(toks: seq<nat>): nat {
    if toks == [] then 0 else toks[0] + Sum(toks[1..])
  }

  function MessagesTokens(ms: seq<ChatMessage>): nat {
    Sum(Costs(ms))
  }

  lemma {:induction false} SumConcat(a: seq<nat>, b: seq<nat>)
    ensures Sum(a + b) == Sum(a) + Sum(b)
  {
    if a == [] {
      assert a + b == b;
    } else {
      assert (a + b)[1..] == a[1..] + b;
      SumConcat(a[1..], b);
    }
  }

  // ---- decay ----

  function Digits(n: nat): string {
    if n < 10 then ["0123456789"[n]] else Digits(n / 10) + ["0123456789"[n % 10]]
  }

  function Placeholder(content: string): string {
    "[较早的工具结果已省略（原 " + Digits(|content|) + " 字符）。如仍需要该内容请重新调用相应工具。开头片段："
    + (if |content| > HEAD_CHARS then content[..HEAD_CHARS] else content) + "…]"
  }

  /** The number a numeral stands for. */
  ghost function NumberOf(digits: string): int {
    if digits == "" then 0 else 10 * NumberOf(digits[..|digits| - 1]) + (digits[|digits| - 1] as int - '0' as int)
  }

  lemma {:induction false} DigitsRead(n: nat)
    ensures Digits(n) != "" && NumberOf(Digits(n)) == n
  {
    if n >= 10 {
      DigitsRead(n / 10);
      assert Digits(n)[..|Digits(n)| - 1] == Digits(n / 10);
    }
  }

  /** The placeholder tells how long the result was and ends with how it began. */
  lemma PlaceholderTells(content: string)
    ensures var p, kept := Placeholder(content), if |content| < 160 then |content| else 160;
            (exists i, j :: 0 <= i < j <= |p| && NumberOf(p[i..j]) == |content|)
            && |p| >= kept + 2 && p[|p| - 2 - kept..] == content[..kept] + "…]"
  {
    var p, digits := Placeholder(content), Digits(|content|);
    DigitsRead(|content|);
    var front := "[较早的工具结果已省略（原 ";
    assert p[|front|..|front| + |digits|] == digits;
  }

  predicate Decays(m: ChatMessage) {
    m.role == "tool" && |m.content| > DECAY_MIN_CHARS
  }

  function DecayOne(m: ChatMessage): ChatMessage {
    if Decays(m) then m.(content := Placeholder(m.content)) else m
  }

  function Cutoff(n: nat): nat {
    if n > DECAY_KEEP_RECENT then n - DECAY_KEEP_RECENT else 0
  }

  /** Everything before the most recent messages decays, the rest is untouched. */
  function Decayed(ms: seq<ChatMessage>): (r: seq<ChatMessage>)
    ensures |r| == |ms|
    ensures forall i :: 0 <= i < |ms| ==> r[i] == if i < Cutoff(|ms|) then DecayOne(ms[i]) else ms[i]
  {
    seq(|ms|, i requires 0 <= i < |ms| => if i < Cutoff(|ms|) then DecayOne(ms[i]) else ms[i])
  }

  function DecayCount(ms: seq<ChatMessage>, n: nat): nat
    requires n <= |ms|
  {
    if n == 0 then 0 else DecayCount(ms, n - 1) + (if Decays(ms[n - 1]) then 1 else 0)
  }

  lemma {:induction false} FewDigits(n: nat)
    ensures |Digits(n)| <= 3 + n / 100
  {
    if n >= 10 {
      FewDigits(n / 10);
    }
  }

  /** Every decay strictly lowers the message's estimate, at any content length. */
  lemma DecayLowers(m: ChatMessage)
    requires Decays(m)
    ensures MessageTokens(DecayOne(m)) < MessageTokens(m)
  {
    FewDigits(|m.content|);
    TokenBounds(m.content);
    TokenBounds(Placeholder(m.content));
  }

  /** A pass changes a message exactly if it is not one of the last eight and is a tool result over
      the limit; then its content alone changes, and gets shorter. */
  lemma DecaySparesExactly(ms: seq<ChatMessage>, i: nat)
    requires i < |ms|
    ensures var after := Decayed(ms);
            |after| == |ms| && after[i].(content := ms[i].content) == ms[i]
            && (after[i] != ms[i] <==> i + DECAY_KEEP_RECENT < |ms| && ms[i].role == "tool" && |ms[i].content| > DECAY_MIN_CHARS)
            && (after[i] != ms[i] ==> |after[i].content| < |ms[i].content|)
  {
    FewDigits(|ms[i].content|);
  }

  function Pow10(k: nat): nat {
    if k == 0 then 1 else 10 * Pow10(k - 1)
  }

  lemma {:induction false} DigitsBelow(n: nat, k: nat)
    requires n < Pow10(k) && k > 0
    ensures |Digits(n)| <= k
  {
    if n >= 10 {
      DigitsBelow(n / 10, k - 1);
    }
  }

  lemma MaxCharsDigits()
    ensures MAX_CHARS < Pow10(20)
  {
    assert Pow10(4) == 10000;
    assert Pow10(8) == 1_0000_0000;
    assert Pow10(12) == 1_0000_0000_0000;
    assert Pow10(16) == 1_0000_0000_0000_0000;
    assert Pow10(20) == 1_0000_0000_0000_0000_0000;
  }

  /** A placeholder is too short to decay again. */
  lemma DecayedStays(m: ChatMessage)
    requires |m.content| <= MAX_CHARS
    ensures !Decays(DecayOne(m)) || DecayOne(m) == m
    ensures DecayOne(DecayOne(m)) == DecayOne(m)
  {
    if Decays(m) {
      MaxCharsDigits();
      DigitsBelow(|m.content|, 20);
    }
  }

  /** A second decay pass changes nothing. */
  lemma DecayIsIdempotent(ms: seq<ChatMessage>)
    requires forall m :: m in ms ==> |m.content| <= MAX_CHARS
    ensures Decayed(Decayed(ms)) == Decayed(ms)
  {
    forall i | 0 <= i < |ms|
      ensures Decayed(Decayed(ms))[i] == Decayed(ms)[i]
    {
      assert ms[i] in ms;
      DecayedStays(ms[i]);
    }
  }

  /** A decay pass saves at least one token a decayed message. */
  lemma {:induction false} DecaySaves(ms: seq<ChatMessage>, n: nat)
    requires n <= |ms|
    ensures Sum(Costs(Decayed(ms))[..n]) + DecayCount(ms, if n < Cutoff(|ms|) then n else Cutoff(|ms|)) <= Sum(Costs(ms)[..n])
  {
    if n > 0 {
      DecaySaves(ms, n - 1);
      SumSnoc(Costs(ms), n - 1);
      SumSnoc(Costs(Decayed(ms)), n - 1);
      if n <= Cutoff(|ms|) && Decays(ms[n - 1]) {
        DecayLowers(ms[n - 1]);
      }
    }
  }

  lemma SumSnoc(toks: seq<nat>, n: nat)
    requires n < |toks|
    ensures Sum(toks[..n + 1]) == Sum(toks[..n]) + toks[n]
  {
    assert toks[..n + 1] == toks[..n] + [toks[n]];
    SumConcat(toks[..n], [toks[n]]);
  }

  lemma DecayPassSaves(ms: seq<ChatMessage>)
    ensures MessagesTokens(Decayed(ms)) + DecayCount(ms, Cutoff(|ms|)) <= MessagesTokens(ms)
  {
    DecaySaves(ms, |ms|);
    assert Costs(ms)[..|ms|] == Costs(ms) && Costs(Decayed(ms))[..|ms|] == Costs(Decayed(ms));
  }

  // ---- dropping ----

  /** How many messages may be dropped: all but the first and the last six. */
  function MaxDrop(n: nat): nat {
    if n > KEEP_TAIL + 1 then n - (KEEP_TAIL + 1) else 0
  }

  /** A list without the `n` elements after the first. */
  function AfterDrop<T>(ms: seq<T>, n: nat): seq<T>
    requires n <= MaxDrop(|ms|)
  {
    if n == 0 then ms else ms[..1] + ms[1 + n..]
  }

  /** The shortest drop that brings the costs within the budget, the longest allowed when none
      does. */
  ghost predicate IsShortestDrop(costs: seq<nat>, budget: nat, n: nat) {
    n <= MaxDrop(|costs|)
    && (forall k: nat :: k < n ==> Sum(AfterDrop(costs, k)) > budget)
    && (n < MaxDrop(|costs|) ==> Sum(AfterDrop(costs, n)) <= budget)
  }

  lemma CostsAfterDrop(ms: seq<ChatMessage>, n: nat)
    requires n <= MaxDrop(|ms|)
    ensures Costs(AfterDrop(ms, n)) == AfterDrop(Costs(ms), n)
  {
  }

  lemma DropOneMore(costs: seq<nat>, n: nat)
    requires n < MaxDrop(|costs|)
    ensures Sum(AfterDrop(costs, n + 1)) == Sum(AfterDrop(costs, n)) - costs[1 + n]
  {
    assert AfterDrop(costs, n) == costs[..1] + costs[1 + n..];
    assert costs[1 + n..][1..] == costs[2 + n..];
    SumConcat(costs[..1], costs[1 + n..]);
    SumConcat(costs[..1], costs[2 + n..]);
  }

  lemma {:induction false} DropsShrink(costs: seq<nat>, k: nat, n: nat)
    requires k <= n <= MaxDrop(|costs|)
    ensures Sum(AfterDrop(costs, n)) <= Sum(AfterDrop(costs, k))
    decreases n
  {
    hide Sum, AfterDrop;
    if k < n {
      DropsShrink(costs, k, n - 1);
      DropOneMore(costs, n - 1);
    }
  }

  lemma ShortestFitsExactly(costs: seq<nat>, budget: nat, n: nat)
    requires IsShortestDrop(costs, budget, n)
    ensures Sum(AfterDrop(costs, n)) <= budget <==> Sum(AfterDrop(costs, MaxDrop(|costs|))) <= budget
  {
    DropsShrink(costs, n, MaxDrop(|costs|));
  }

  /** What compaction makes of a history. */
  ghost predicate IsCompacted(ms: seq<ChatMessage>, budget: nat, out: seq<ChatMessage>) {
    if MessagesTokens(ms) <= budget then out == ms
    else exists n: nat :: IsShortestDrop(Costs(ms), budget, n) && out == AfterDrop(ms, n)
  }

  /** The first message and the last six, or everything when there is no more. */
  function Core(ms: seq<ChatMessage>): seq<ChatMessage> {
    AfterDrop(ms, MaxDrop(|ms|))
  }

  /** Compaction is commented to end under budget whatever happens. It does so exactly when the
      first message and the last six fit the budget by themselves. */
  lemma CompactedFitsExactly(ms: seq<ChatMessage>, budget: nat, out: seq<ChatMessage>)
    requires IsCompacted(ms, budget, out)
    ensures MessagesTokens(out) <= budget <==> MessagesTokens(Core(ms)) <= budget
  {
    CostsAfterDrop(ms, MaxDrop(|ms|));
    if MessagesTokens(ms) <= budget {
      DropsShrink(Costs(ms), 0, MaxDrop(|ms|));
    } else {
      var n: nat :| IsShortestDrop(Costs(ms), budget, n) && out == AfterDrop(ms, n);
      CostsAfterDrop(ms, n);
      ShortestFitsExactly(Costs(ms), budget, n);
    }
  }

  /** Compaction is a function of the history and the budget. */
  lemma CompactedIsUnique(ms: seq<ChatMessage>, budget: nat, out: seq<ChatMessage>, other: seq<ChatMessage>)
    requires IsCompacted(ms, budget, out) && IsCompacted(ms, budget, other)
    ensures out == other
  {
    if MessagesTokens(ms) > budget {
      var m: nat :| IsShortestDrop(Costs(ms), budget, m) && out == AfterDrop(ms, m);
      var n: nat :| IsShortestDrop(Costs(ms), budget, n) && other == AfterDrop(ms, n);
      assert m == n;
    }
  }

  /** Seven bare messages cost 28 tokens, so no history ends under a budget of 27. */
  lemma BudgetCanBeMissed(ms: seq<ChatMessage>, out: seq<ChatMessage>)
    requires |ms| > KEEP_TAIL && IsCompacted(ms, 27, out)
    ensures MessagesTokens(out) > 27
  {
    CompactedFitsExactly(ms, 27, out);
    SumAtLeast(Costs(Core(ms)));
  }

  lemma {:induction false} SumAtLeast(costs: seq<nat>)
    requires forall c :: c in costs ==> c >= 4
    ensures Sum(costs) >= 4 * |costs|
  {
    if costs != [] {
      assert costs[0] in costs && forall c :: c in costs[1..] ==> c in costs;
      SumAtLeast(costs[1..]);
    }
  }

  // ---- the conversation ----

  /** A conversation, changed in place. */
  class History {
    var messages: seq<ChatMessage>

    constructor (messages: seq<ChatMessage>)
      ensures this.messages == messages
    {
      this.messages := messages;
    }

    /** `compact`: token counts once, then one pass for the prefix to drop. */
    method Compact(budget: nat)
      modifies this
      ensures IsCompacted(old(messages), budget, messages)
    {
      hide Costs, Sum;
      var toks := Costs(messages);
      var total := Sum(toks);
      if total <= budget {
        return;
      }
      ghost var before := messages;
      var dropN := 0;
      while total > budget && |messages| - dropN > KEEP_TAIL + 1
        invariant messages == before && 0 <= dropN <= MaxDrop(|toks|)
        invariant total == Sum(AfterDrop(toks, dropN))
        invariant forall k: nat :: k < dropN ==> Sum(AfterDrop(toks, k)) > budget
      {
        DropOneMore(toks, dropN);
        total := total - toks[1 + dropN];
        dropN := dropN + 1;
      }
      assert IsShortestDrop(toks, budget, dropN);
      if dropN > 0 {
        messages := messages[..1] + messages[1 + dropN..];
      }
      assert messages == AfterDrop(before, dropN);
    }

    /** `decay_tool_results`: older oversized tool results become placeholders in place. */
    method DecayToolResults() returns (decayed: nat)
      modifies this
      ensures messages == Decayed(old(messages))
      ensures decayed == DecayCount(old(messages), Cutoff(|old(messages)|))
    {
      ghost var before := messages;
      var cutoff := Cutoff(|messages|);
      decayed := 0;
      for i := 0 to cutoff
        invariant |messages| == |before|
        invariant forall k :: 0 <= k < |messages| ==> messages[k] == if k < i then DecayOne(before[k]) else before[k]
        invariant decayed == DecayCount(before, i)
      {
        var m := messages[i];
        if m.role != "tool" || |m.content| <= DECAY_MIN_CHARS {
          continue;
        }
        messages := messages[i := m.(content := Placeholder(m.content))];
        decayed := decayed + 1;
      }
      assert messages == Decayed(before);
    }

    /** `compact_with_summary`. `summary` is what the summarizer gave, if it gave anything usable.
        Decay comes first; when that is not enough, the middle is summarized if it is long enough
        and a summary was given; the drop comes last. `None` means nothing was over budget. */
    method CompactWithSummary(budget: nat, summary: Option<string>) returns (decayed: Option<nat>)
      modifies this
      ensures decayed.None? <==> MessagesTokens(old(messages)) <= budget
      ensures decayed.None? ==> messages == old(messages)
      ensures decayed.Some? ==> decayed.value == DecayCount(old(messages), Cutoff(|old(messages)|))
      ensures decayed.Some? ==> PipelineResult(Decayed(old(messages)), budget, summary, messages)
    {
      if MessagesTokens(messages) <= budget {
        return None;
      }
      var count := DecayToolResults();
      if MessagesTokens(messages) <= budget {
        return Some(count);
      }
      var keepTail := if KEEP_TAIL < |messages| then KEEP_TAIL else if |messages| > 0 then |messages| - 1 else 0;
      var cut := |messages| - keepTail;
      if cut > 3 && summary.Some? {
        messages := messages[..1] + [SummaryMessage(summary.value)] + messages[cut..];
      }
      Compact(budget);
      return Some(count);
    }
  }

  function SummaryMessage(text: string): ChatMessage {
    ChatMessage("system", "（早前对话的压缩摘要）\n" + text, None, [], None)
  }

  /** The history whose middle is replaced by a summary, when one is given and at least three
      messages lie between the first and the last six. */
  function Summarized(ms: seq<ChatMessage>, summary: Option<string>): seq<ChatMessage> {
    if summary.Some? && |ms| > KEEP_TAIL + 3
    then ms[..1] + [SummaryMessage(summary.value)] + ms[|ms| - KEEP_TAIL..]
    else ms
  }

  /** What the pipeline makes of a decayed history. */
  ghost predicate PipelineResult(decayed: seq<ChatMessage>, budget: nat, summary: Option<string>, out: seq<ChatMessage>) {
    if MessagesTokens(decayed) <= budget then out == decayed
    else IsCompacted(Summarized(decayed, summary), budget, out)
  }

  /** After a summary one message may be dropped: the summary itself. It stays exactly when the
      whole fits with it. */
  lemma SummaryIsDroppedFirst(decayed: seq<ChatMessage>, budget: nat, summary: string, out: seq<ChatMessage>)
    requires |decayed| > KEEP_TAIL + 3 && MessagesTokens(decayed) > budget
    requires PipelineResult(decayed, budget, Some(summary), out)
    ensures var staged := Summarized(decayed, Some(summary));
            out == (if MessagesTokens(staged) <= budget then staged else Core(decayed))
  {
    hide Sum, Costs, Summarized, AfterDrop, Core;
    var staged := Summarized(decayed, Some(summary));
    WithoutSummary(decayed, summary);
    if MessagesTokens(staged) > budget {
      var n: nat :| IsShortestDrop(Costs(staged), budget, n) && out == AfterDrop(staged, n);
      assert |Costs(staged)| == KEEP_TAIL + 2 && AfterDrop(Costs(staged), 0) == Costs(staged);
      assert n == 1;
    }
  }

  /** One message may be dropped after a summary, and then the core is left. */
  lemma WithoutSummary(decayed: seq<ChatMessage>, summary: string)
    requires |decayed| > KEEP_TAIL + 3
    ensures var staged := Summarized(decayed, Some(summary));
            |staged| == KEEP_TAIL + 2 && AfterDrop(staged, 1) == Core(decayed) && AfterDrop(Costs(staged), 0) == Costs(staged)
  {
  }

  /** The summary stands second, as a system message that ends with what the summarizer said. */
  lemma SummaryStandsSecond(decayed: seq<ChatMessage>, budget: nat, summary: string, out: seq<ChatMessage>)
    requires |decayed| > 9 && MessagesTokens(decayed) > budget
    requires PipelineResult(decayed, budget, Some(summary), out) && |out| == 8
    ensures out[0] == decayed[0] && out[2..] == decayed[|decayed| - 6..]
    ensures out[1].role == "system" && out[1].reasoning.None? && out[1].toolCalls == [] && out[1].toolCallId.None?
            && |out[1].content| > |summary|
            && out[1].content[|out[1].content| - |summary|..] == summary
  {
    SummaryIsDroppedFirst(decayed, budget, summary, out);
    WithoutSummary(decayed, summary);
  }
}
