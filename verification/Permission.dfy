/**
 Tool permission rules: the `*` wildcard matcher, rule patterns, first-match evaluation and
 the gate every tool call passes through.
 */
module Permission {
  import opened Wrappers
  import opened Text

  // ---- what a wildcard means ----

  /** Character-level meaning of a wildcard: `*` stands for any run of characters, every other
      character for itself. The matcher below never looks at a glob this way. */
  ghost predicate Matches(glob: string, text: string)
    decreases |glob|
  {
    if glob == "" then text == ""
    else if glob[0] == '*' then exists k :: 0 <= k <= |text| && Matches(glob[1..], text[k..])
    else text != "" && text[0] == glob[0] && Matches(glob[1..], text[1..])
  }

  /** The parts from index `i` on, each with the star before it. */
  ghost function Rest(parts: seq<string>, i: nat): string
    requires i <= |parts|
    decreases |parts| - i
  {
    if i == |parts| then "" else "*" + parts[i] + Rest(parts, i + 1)
  }

  lemma {:induction false} RestOfJoin(parts: seq<string>, i: nat)
    requires i < |parts|
    ensures Join(parts[i..], '*') == parts[i] + Rest(parts, i + 1)
    decreases |parts| - i
  {
    if i + 1 < |parts| {
      RestOfJoin(parts, i + 1);
      assert parts[i..][1..] == parts[i + 1..];
      StarBetween(parts[i], parts[i + 1], Rest(parts, i + 2));
    }
  }

  lemma StarBetween(a: string, b: string, c: string)
    ensures a + ['*'] + (b + c) == a + ("*" + b + c)
  {
  }

  lemma {:induction false} LiteralPrefix(p: string, rest: string, text: string)
    requires '*' !in p
    ensures Matches(p + rest, text) <==> (OccursAt(text, p, 0) && Matches(rest, text[|p|..]))
  {
    if p == "" {
      assert p + rest == rest && text[0..] == text;
    } else {
      assert (p + rest)[1..] == p[1..] + rest;
      if text != "" && text[0] == p[0] {
        LiteralPrefix(p[1..], rest, text[1..]);
        if OccursAt(text[1..], p[1..], 0) {
          assert text[1..][|p[1..]|..] == text[|p|..];
          assert p == [p[0]] + p[1..];
          assert text[..|p|] == [text[0]] + text[1..][..|p| - 1];
        }
        if OccursAt(text, p, 0) {
          assert text[1..][..|p| - 1] == text[..|p|][1..];
        }
      }
    }
  }

  /** Anything a glob starting with a star matches, it still matches with text put before. */
  lemma StarAbsorbs(rest: string, text: string, k: nat)
    requires k <= |text| && Matches("*" + rest, text[k..])
    ensures Matches("*" + rest, text)
  {
    assert ("*" + rest)[1..] == rest;
    var j :| 0 <= j <= |text[k..]| && Matches(rest, text[k..][j..]);
    assert text[k..][j..] == text[k + j..];
  }

  lemma StarUnfold(rest: string, text: string, k: nat)
    requires k <= |text| && Matches(rest, text[k..])
    ensures Matches("*" + rest, text)
  {
    assert ("*" + rest)[1..] == rest;
  }

  lemma StarStar(rest: string, text: string)
    requires StartsWith(rest, "*")
    ensures Matches("*" + rest, text) <==> Matches(rest, text)
  {
    assert rest == "*" + rest[1..];
    assert ("*" + rest)[1..] == rest;
    if Matches("*" + rest, text) {
      var k :| 0 <= k <= |text| && Matches(rest, text[k..]);
      StarAbsorbs(rest[1..], text, k);
    }
    if Matches(rest, text) {
      assert text[0..] == text;
      StarUnfold(rest, text, 0);
    }
  }

  lemma StarSplits(rest: string, text: string) returns (k: nat)
    requires Matches("*" + rest, text)
    ensures k <= |text| && Matches(rest, text[k..])
  {
    assert ("*" + rest)[1..] == rest;
    k :| 0 <= k <= |text| && Matches(rest, text[k..]);
  }

  /** Any match with a star puts the literal at or after its leftmost occurrence. */
  lemma LiteralComesLater(p: string, rest: string, text: string, at: nat)
    requires '*' !in p && StartsWith(rest, "*") && Matches("*" + (p + rest), text)
    requires OccursAt(text, p, at) && forall k :: 0 <= k < at ==> !OccursAt(text, p, k)
    ensures Matches(rest, text[at + |p|..])
  {
    hide Matches;
    var k := StarSplits(p + rest, text);
    LiteralPrefix(p, rest, text[k..]);
    assert text[k..][..|p|] == text[k..k + |p|];
    assert OccursAt(text, p, k);
    var tail := text[at + |p|..];
    assert text[k..][|p|..] == tail[k - at..];
    assert rest == "*" + rest[1..];
    StarAbsorbs(rest[1..], tail, k - at);
  }

  /** The exchange argument: if a star, a literal and another star match at all, they match
      with the literal at its leftmost occurrence. */
  lemma LeftmostSuffices(p: string, rest: string, text: string, at: nat)
    requires '*' !in p && StartsWith(rest, "*")
    requires OccursAt(text, p, at) && forall k :: 0 <= k < at ==> !OccursAt(text, p, k)
    ensures Matches("*" + (p + rest), text) <==> Matches(rest, text[at + |p|..])
  {
    hide Matches;
    if Matches("*" + (p + rest), text) {
      LiteralComesLater(p, rest, text, at);
    }
    if Matches(rest, text[at + |p|..]) {
      LiteralPrefix(p, rest, text[at..]);
      assert text[at..][..|p|] == text[at..at + |p|];
      assert text[at..][|p|..] == text[at + |p|..];
      StarUnfold(p + rest, text, at);
    }
  }

  lemma NoOccurrenceNoMatch(p: string, rest: string, text: string)
    requires '*' !in p && forall k :: 0 <= k ==> !OccursAt(text, p, k)
    ensures !Matches("*" + (p + rest), text)
  {
    assert ("*" + (p + rest))[1..] == p + rest;
    forall k | 0 <= k <= |text|
      ensures !Matches(p + rest, text[k..])
    {
      LiteralPrefix(p, rest, text[k..]);
      if OccursAt(text[k..], p, 0) {
        assert text[k..][..|p|] == text[k..k + |p|];
        assert OccursAt(text, p, k);
      }
    }
  }

  /** A star before the last literal means: the text ends with it. */
  lemma LastIsSuffix(p: string, text: string)
    requires '*' !in p
    ensures Matches("*" + (p + ""), text) <==> EndsWith(text, p)
  {
    assert ("*" + (p + ""))[1..] == p + "";
    if Matches("*" + (p + ""), text) {
      var k :| 0 <= k <= |text| && Matches(p + "", text[k..]);
      LiteralPrefix(p, "", text[k..]);
      assert text[k..][|p|..] == "";
      assert text[|text| - |p|..] == text[k..];
    }
    if EndsWith(text, p) {
      var k := |text| - |p|;
      LiteralPrefix(p, "", text[k..]);
      StarUnfold(p + "", text, k);
    }
  }

  // ---- the matcher ----

  lemma EmptyGlob()
    ensures forall text :: Matches("", text) <==> text == ""
  {
  }

  /** `glob_match`: one pass over the star-separated parts, each taken at its leftmost
      occurrence. It decides the declarative meaning exactly. */
  method GlobMatch(glob: string, text: string) returns (matched: bool)
    ensures matched <==> Matches(glob, text)
  {
    hide Matches;
    var parts := Split(glob, '*');
    SplitPieces(glob, '*');
    RestOfJoin(parts, 0);
    EmptyGlob();
    assert parts[0..] == parts;
    if |parts| == 1 {
      LiteralPrefix(parts[0], "", text);
      return glob == text;
    }
    var pos := 0;
    var i := 0;
    while i < |parts|
      invariant 0 <= i <= |parts| && 0 <= pos <= |text|
      invariant i == 0 ==> pos == 0
      invariant 0 < i < |parts| ==> (Matches(glob, text) <==> Matches(Rest(parts, i), text[pos..]))
      invariant i == |parts| ==> Matches(glob, text)
    {
      var part := parts[i];
      assert part in parts;
      var rest := Rest(parts, i + 1);
      assert Rest(parts, i) == "*" + (part + rest);
      if part == "" {
        assert "" + rest == rest;
        if i == 0 {
          assert text[0..] == text;
        } else if i == |parts| - 1 {
          LastIsSuffix("", text[pos..]);
        } else {
          StarStar(rest, text[pos..]);
        }
        i := i + 1;
        continue;
      }
      if i == 0 {
        LiteralPrefix(part, rest, text);
        if !StartsWith(text, part) {
          return false;
        }
        pos := |part|;
      } else if i == |parts| - 1 {
        LastIsSuffix(part, text[pos..]);
        return |text| >= pos && EndsWith(text[pos..], part);
      } else {
        match FindFrom(text[pos..], part, 0)
        case Some(found) =>
          LeftmostSuffices(part, rest, text[pos..], found);
          assert text[pos..][found + |part|..] == text[pos + found + |part|..];
          pos := pos + found + |part|;
        case None =>
          NoOccurrenceNoMatch(part, rest, text[pos..]);
          return false;
      }
      i := i + 1;
    }
    return true;
  }

  // ---- rules ----

  const WRITE_TOOLS: set<string> := {
    "write_file", "create_document", "delete_file", "str_replace_edit", "apply_patch", "run_command",
    "stop_command", "create_word_document", "create_presentation", "create_pdf", "edit_word_document",
    "edit_presentation"
  }

  datatype Rule = Rule(action: string, pattern: string)

  datatype Decision = Allow | Deny | Ask | Default

  function IndexOf(s: string, c: char): (r: Option<nat>)
    ensures r.Some? ==> r.value < |s| && s[r.value] == c && c !in s[..r.value]
    ensures r.None? ==> c !in s
  {
    if s == "" then None
    else if s[0] == c then Some(0)
    else
      match IndexOf(s[1..], c)
      case None => None
      case Some(k) => assert s[..k + 1] == [s[0]] + s[1..][..k]; Some(k + 1)
  }

  /** `tool` or `tool(arg glob)`; `None` on a malformed pattern. */
  function ParsePattern(pattern: string): Option<(string, Option<string>)> {
    var p := Trim(pattern);
    if p == "" then None
    else
      match IndexOf(p, '(')
      case None => Some((p, None))
      case Some(open) =>
        if p[|p| - 1] != ')' || open == 0 then None
        else Some((Trim(p[..open]), Some(Trim(p[open + 1..|p| - 1]))))
  }

  /** A printed rule reads back as its two globs, and nothing else is ever read: the name is
      never empty and both globs come back trimmed. */
  lemma PatternRoundTrip(name: string, arg: string)
    requires Trimmed(name) && name != "" && '(' !in name && Trimmed(arg)
    ensures ParsePattern(name) == Some((name, None))
    ensures ParsePattern(name + "(" + arg + ")") == Some((name, Some(arg)))
  {
    TrimTrims(name);
    TrimTrims(arg);
    var p := name + "(" + arg + ")";
    TrimTrims(p);
    assert p[|name|] == '(';
    var open := IndexOf(p, '(').value;
    assert open == |name|;
    assert p[..|name|] == name;
    assert p[|name| + 1..|p| - 1] == arg;
  }

  /** The name and the argument glob of a pattern, read off its trimmed text `p`: all of it, if it
      has no parenthesis; else what stands before the first one, which must not be the first
      character, and what stands between it and a closing one at the end, both trimmed. */
  ghost predicate Spells(p: string, name: string, arg: Option<string>) {
    match arg
    case None => p == name && p != "" && '(' !in p
    case Some(glob) => exists head, body :: SpellsParts(p, head, body) && name == Trim(head) && glob == Trim(body)
  }

  ghost predicate SpellsParts(p: string, head: string, body: string) {
    p == head + "(" + body + ")" && head != "" && '(' !in head
  }

  lemma ReadsWhatIsSpelled(pattern: string, name: string, arg: Option<string>)
    requires ParsePattern(pattern) == Some((name, arg))
    ensures Spells(Trim(pattern), name, arg)
  {
    hide Trim;
    var p := Trim(pattern);
    if arg.Some? {
      var open := IndexOf(p, '(').value;
      var head, body := p[..open], p[open + 1..|p| - 1];
      assert p == head + "(" + body + ")";
      assert SpellsParts(p, head, body);
    }
  }

  lemma SpelledIsRead(pattern: string, name: string, arg: Option<string>)
    requires Spells(Trim(pattern), name, arg)
    ensures ParsePattern(pattern) == Some((name, arg))
  {
    hide Trim;
    var p := Trim(pattern);
    if arg.Some? {
      var head, body :| SpellsParts(p, head, body) && name == Trim(head) && arg.value == Trim(body);
      assert p[|head|] == '(';
      FirstParenthesis(p, head, body, IndexOf(p, '(').value);
    }
  }

  /** A pattern reads as these globs exactly if it spells them; every other one is malformed. */
  lemma PatternReadsExactly(pattern: string, name: string, arg: Option<string>)
    ensures ParsePattern(pattern) == Some((name, arg)) <==> Spells(Trim(pattern), name, arg)
  {
    hide ParsePattern, Spells;
    if ParsePattern(pattern) == Some((name, arg)) {
      ReadsWhatIsSpelled(pattern, name, arg);
    }
    if Spells(Trim(pattern), name, arg) {
      SpelledIsRead(pattern, name, arg);
    }
  }

  lemma FirstParenthesis(p: string, head: string, body: string, open: nat)
    requires SpellsParts(p, head, body) && open < |p| && p[open] == '(' && '(' !in p[..open]
    ensures open == |head| && p[..open] == head && p[open + 1..|p| - 1] == body && p[|p| - 1] == ')'
  {
    assert p[|head|] == '(';
    assert forall i :: 0 <= i < |head| ==> p[i] in head;
    assert forall i :: 0 <= i < open ==> p[i] in p[..open];
  }

  lemma ParsedPatternIsTrimmed(pattern: string)
    requires ParsePattern(pattern).Some?
    ensures var (name, arg) := ParsePattern(pattern).value;
            name != "" && Trimmed(name) && '(' !in name && (arg.Some? ==> Trimmed(arg.value))
  {
    var p := Trim(pattern);
    TrimTrims(pattern);
    if IndexOf(p, '(').Some? {
      var open := IndexOf(p, '(').value;
      TrimTrims(p[..open]);
      TrimTrims(p[open + 1..|p| - 1]);
      FirstVisibleStays(p[..open]);
      TrimShrinks(p[..open]);
    }
  }

  /** When a rule applies to a call: its pattern parses and both globs match. */
  ghost predicate Applies(rule: Rule, tool: string, summary: string) {
    var parsed := ParsePattern(rule.pattern);
    parsed.Some? && Matches(parsed.value.0, tool)
    && (parsed.value.1.Some? ==> Matches(parsed.value.1.value, summary))
  }

  function ActionOf(action: string): Decision {
    match action
    case "allow" => Allow
    case "deny" => Deny
    case "ask" => Ask
    case _ => Default
  }

  ghost predicate FirstApplying(rules: seq<Rule>, i: nat, tool: string, summary: string) {
    i < |rules| && Applies(rules[i], tool, summary) && forall j :: 0 <= j < i ==> !Applies(rules[j], tool, summary)
  }

  /** What the rule list decides, stated without a search: the action of the one rule that
      applies with no applying rule before it, the default when none applies. */
  ghost predicate Decides(rules: seq<Rule>, tool: string, summary: string, d: Decision) {
    (forall i: nat :: FirstApplying(rules, i, tool, summary) ==>
       (d == Allow <==> rules[i].action == "allow") && (d == Deny <==> rules[i].action == "deny")
       && (d == Ask <==> rules[i].action == "ask"))
    && ((forall i :: 0 <= i < |rules| ==> !Applies(rules[i], tool, summary)) ==> d == Default)
  }

  /** `evaluate`: first match wins; malformed patterns are passed over. */
  method Evaluate(rules: seq<Rule>, tool: string, summary: string) returns (d: Decision)
    ensures Decides(rules, tool, summary, d)
  {
    for i := 0 to |rules|
      invariant forall j :: 0 <= j < i ==> !Applies(rules[j], tool, summary)
    {
      var parsed := ParsePattern(rules[i].pattern);
      if parsed.None? {
        continue;
      }
      var nameMatches := GlobMatch(parsed.value.0, tool);
      if !nameMatches {
        continue;
      }
      if parsed.value.1.Some? {
        var argMatches := GlobMatch(parsed.value.1.value, summary);
        if !argMatches {
          continue;
        }
      }
      assert FirstApplying(rules, i, tool, summary);
      return ActionOf(rules[i].action);
    }
    return Default;
  }

  lemma {:induction false} SomeRuleIsFirst(rules: seq<Rule>, k: nat, tool: string, summary: string) returns (i: nat)
    requires k < |rules| && Applies(rules[k], tool, summary)
    ensures i <= k && FirstApplying(rules, i, tool, summary)
  {
    if j :| 0 <= j < k && Applies(rules[j], tool, summary) {
      i := SomeRuleIsFirst(rules, j, tool, summary);
    } else {
      i := k;
    }
  }

  /** The rule list decides exactly one thing for every call. */
  lemma DecisionIsUnique(rules: seq<Rule>, tool: string, summary: string, d: Decision, e: Decision)
    requires Decides(rules, tool, summary, d) && Decides(rules, tool, summary, e)
    ensures d == e
  {
    if k :| 0 <= k < |rules| && Applies(rules[k], tool, summary) {
      var i := SomeRuleIsFirst(rules, k, tool, summary);
    }
  }

  // ---- the gate ----

  datatype Gate = Forbidden | NeedsApproval | Run

  /** `can_use_tool`, `evaluate` and `requires_approval` as every tool call meets them. */
  method GateCall(mode: string, rules: seq<Rule>, tool: string, summary: string) returns (gate: Gate)
    ensures mode == "plan" && tool in WRITE_TOOLS ==> gate == Forbidden
    ensures Decides(rules, tool, summary, Deny) ==> gate == Forbidden
    ensures Decides(rules, tool, summary, Ask) ==> gate != Run
    ensures gate == Run ==> Decides(rules, tool, summary, Allow)
                            || (Decides(rules, tool, summary, Default) && !(mode == "auto" && tool in WRITE_TOOLS))
    ensures gate == Forbidden ==> (mode == "plan" && tool in WRITE_TOOLS) || Decides(rules, tool, summary, Deny)
    ensures gate == NeedsApproval ==> Decides(rules, tool, summary, Ask)
                                      || (Decides(rules, tool, summary, Default) && mode == "auto" && tool in WRITE_TOOLS)
  {
    if mode == "plan" && tool in WRITE_TOOLS {
      return Forbidden;
    }
    var d := Evaluate(rules, tool, summary);
    forall e | Decides(rules, tool, summary, e)
      ensures e == d
    {
      DecisionIsUnique(rules, tool, summary, d, e);
    }
    match d
    case Deny => gate := Forbidden;
    case Allow => gate := Run;
    case Ask => gate := NeedsApproval;
    case Default => gate := if mode == "auto" && tool in WRITE_TOOLS then NeedsApproval else Run;
  }
}
