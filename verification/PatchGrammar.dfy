/**
 Which texts `apply_patch` accepts, and the answer to every other one, read off the lines: a text
 is a begin line, then blocks laid out one after the other, then what ends the reading.
 */
module PatchGrammar {
  import opened Wrappers
  import opened Text
  import opened Patch

  // ---- lines ----

  predicate PlusLine(l: string) {
    l != "" && l[0] == '+'
  }

  predicate LocatorLine(l: string) {
    "@@" <= l
  }

  /** A context, removed or added line; an empty line is an empty context line. */
  predicate EditLine(l: string) {
    l == "" || l[0] == ' ' || l[0] == '-' || l[0] == '+'
  }

  predicate BodyLine(l: string) {
    LocatorLine(l) || EditLine(l)
  }

  predicate EndLine(l: string) {
    Trim(l) == END
  }

  predicate BlankLine(l: string) {
    Trim(l) == ""
  }

  predicate Heads(l: string, prefix: string) {
    prefix <= TrimEnd(l) && !EndLine(l)
  }

  /** A body ends at the next mark, or with the text. */
  predicate Closed(after: seq<string>) {
    after == [] || MARK <= after[0]
  }

  // ---- blocks ----

  datatype Block =
    | Blank(head: string)
    | DeleteBlock(head: string)
    | AddBlock(head: string, body: seq<string>)
    | UpdateBlock(head: string, body: seq<string>)

  function Texts(b: Block): (r: seq<string>)
    ensures r != []
  {
    match b
    case Blank(head) => [head]
    case DeleteBlock(head) => [head]
    case AddBlock(head, body) => [head] + body
    case UpdateBlock(head, body) => [head] + body
  }

  /** An added file has lines marked `+`; an updated one has locators and edit lines, and of the
      latter at least one. */
  ghost predicate GoodBlock(b: Block) {
    match b
    case Blank(head) => BlankLine(head)
    case DeleteBlock(head) => Heads(head, DELETE)
    case AddBlock(head, body) => Heads(head, ADD) && forall l :: l in body ==> PlusLine(l)
    case UpdateBlock(head, body) =>
      Heads(head, UPDATE) && (forall l :: l in body ==> BodyLine(l)) && exists l :: l in body && !LocatorLine(l)
  }

  /** The lines are the blocks, one after the other, and then the rest; a body goes on up to the
      next mark. */
  ghost predicate Layout(lines: seq<string>, bs: seq<Block>, rest: seq<string>)
    decreases |bs|
  {
    if bs == [] then lines == rest
    else
      var n := |Texts(bs[0])|;
      n <= |lines| && lines[..n] == Texts(bs[0]) && GoodBlock(bs[0])
      && (bs[0].AddBlock? || bs[0].UpdateBlock? ==> Closed(lines[n..]))
      && Layout(lines[n..], bs[1..], rest)
  }

  // ---- their meaning ----

  function PathOf(head: string, prefix: string): string
    requires prefix <= TrimEnd(head)
  {
    Trim(TrimEnd(head)[|prefix|..])
  }

  function AddedText(body: seq<string>): string
    requires forall l :: l in body ==> PlusLine(l)
  {
    if body == [] then ""
    else
      assert body[0] in body && PlusLine(body[0]);
      body[0][1..] + "\n" + AddedText(body[1..])
  }

  function Sought(l: string): seq<string> {
    if l == "" then [""] else if l[0] == ' ' || l[0] == '-' then [l[1..]] else []
  }

  function PutThere(l: string): seq<string> {
    if l == "" then [""] else if l[0] == ' ' || l[0] == '+' then [l[1..]] else []
  }

  function GroupHunk(group: seq<string>): Hunk {
    if group == [] then Hunk([], [])
    else
      var later := GroupHunk(group[1..]);
      Hunk(Sought(group[0]) + later.find, PutThere(group[0]) + later.replace)
  }

  /** The stretches between locator lines. */
  function Groups(body: seq<string>): (r: seq<seq<string>>)
    ensures r != []
  {
    if body == [] then [[]]
    else
      var later := Groups(body[1..]);
      if LocatorLine(body[0]) then [[]] + later else [[body[0]] + later[0]] + later[1..]
  }

  function GroupHunks(groups: seq<seq<string>>): seq<Hunk> {
    if groups == [] then [] else (if groups[0] == [] then [] else [GroupHunk(groups[0])]) + GroupHunks(groups[1..])
  }

  function HunksIn(body: seq<string>): seq<Hunk> {
    GroupHunks(Groups(body))
  }

  function OpOf(b: Block): seq<FileOp>
    requires GoodBlock(b)
  {
    match b
    case Blank(_) => []
    case DeleteBlock(head) => [Delete(PathOf(head, DELETE))]
    case AddBlock(head, body) => [Add(PathOf(head, ADD), AddedText(body))]
    case UpdateBlock(head, body) => [Update(PathOf(head, UPDATE), HunksIn(body))]
  }

  function OpsOf(bs: seq<Block>): seq<FileOp>
    requires forall b :: b in bs ==> GoodBlock(b)
  {
    if bs == [] then [] else OpOf(bs[0]) + OpsOf(bs[1..])
  }

  lemma {:induction false} LaidAreGood(lines: seq<string>, bs: seq<Block>, rest: seq<string>)
    requires Layout(lines, bs, rest)
    ensures forall b :: b in bs ==> GoodBlock(b)
    decreases |bs|
  {
    if bs != [] {
      LaidAreGood(lines[|Texts(bs[0])|..], bs[1..], rest);
      assert bs == [bs[0]] + bs[1..];
    }
  }

  // ---- what ends the reading ----

  /** After a head, the lines up to the k-th are of a kind, and that one is not, nor a mark. */
  ghost predicate Breaks(rest: seq<string>, k: nat, good: string -> bool) {
    1 <= k < |rest| && (forall i :: 1 <= i < k ==> good(rest[i])) && !good(rest[k]) && !(MARK <= rest[k])
  }

  /** After a head come k - 1 locators and then the end of the body. */
  ghost predicate OnlyLocators(rest: seq<string>, k: nat) {
    1 <= k <= |rest| && (forall i :: 1 <= i < k ==> LocatorLine(rest[i])) && Closed(rest[k..])
  }

  predicate Unknown(l: string) {
    !EndLine(l) && !BlankLine(l) && !Heads(l, ADD) && !Heads(l, DELETE) && !Heads(l, UPDATE)
  }

  /** The answer r when the operations so far are followed by the rest. */
  ghost predicate Answers(rest: seq<string>, ops: seq<FileOp>, r: Result<seq<FileOp>, PatchError>) {
    if rest == [] then r == Err(MissingEnd)
    else if EndLine(rest[0]) then r == if ops == [] then Err(NoOperations) else Ok(ops)
    else if Heads(rest[0], ADD) then exists k: nat :: Breaks(rest, k, PlusLine) && r == Err(BadAddLine(rest[k]))
    else if Heads(rest[0], UPDATE) then
      (exists k: nat :: Breaks(rest, k, BodyLine) && r == Err(BadHunkLine(rest[k])))
      || (exists k: nat :: OnlyLocators(rest, k) && r == Err(NoHunks(TrimEnd(rest[0])[|UPDATE|..])))
    else Unknown(rest[0]) && r == Err(UnknownDirective(TrimEnd(rest[0])))
  }

  // ---- trimming ----

  lemma {:induction false} TrimEndCons(c: char, t: string)
    ensures TrimEnd([c] + t) == if TrimEnd(t) == "" && IsSpace(c) then "" else [c] + TrimEnd(t)
    decreases |t|
  {
    if t == "" {
      assert [c] + t == [c] && [c][..0] == "";
    } else {
      var n := |t| - 1;
      assert ([c] + t)[..|t|] == [c] + t[..n];
      if IsSpace(t[n]) {
        TrimEndCons(c, t[..n]);
      }
    }
  }

  lemma {:induction false} TrimsCommute(l: string)
    ensures TrimStart(TrimEnd(l)) == TrimEnd(TrimStart(l))
  {
    if l != "" {
      assert l == [l[0]] + l[1..];
      TrimEndCons(l[0], l[1..]);
      if IsSpace(l[0]) {
        TrimsCommute(l[1..]);
        assert TrimEnd(l[1..]) != "" ==> ([l[0]] + TrimEnd(l[1..]))[1..] == TrimEnd(l[1..]);
      }
    }
  }

  lemma TrimOfTrimEnd(l: string)
    ensures Trim(TrimEnd(l)) == Trim(l)
  {
    TrimsCommute(l);
    TrimEndShape(TrimStart(l));
  }

  // ---- the parser reads bodies so ----

  lemma PlusLineIs(l: string)
    ensures PlusLine(l) <==> StartsWith(l, "+")
    ensures PlusLine(l) ==> l != ""
    ensures PlusLine(l) ==> !StartsWith(l, MARK)
  {
  }

  lemma BodyLineIs(l: string, st: HunkState)
    ensures BodyLine(l) ==> !StartsWith(l, MARK)
    ensures HunkLine(l, st)
            == if LocatorLine(l) then Ok(st.Flush()) else if EditLine(l) then Ok(st.Push(Sought(l), PutThere(l))) else Err(BadHunkLine(l))
  {
    FirstCharIs(l, ' ');
    FirstCharIs(l, '-');
    FirstCharIs(l, '+');
    assert LocatorLine(l) ==> l != "" && l[0] == '@';
    assert st.find + [] == st.find && st.replace + [] == st.replace;
  }

  lemma FirstCharIs(l: string, c: char)
    ensures StartsWith(l, [c]) <==> l != "" && l[0] == c
    ensures c != '*' && StartsWith(l, [c]) ==> !StartsWith(l, MARK)
  {
  }

  lemma {:induction false} AddBodyReads(body: seq<string>, after: seq<string>, content: string)
    requires forall l :: l in body ==> PlusLine(l)
    ensures AddBody(body + after, content) == AddBody(after, content + AddedText(body))
    decreases |body|
  {
    hide StartsWith, PlusLine;
    if body == [] {
      assert body + after == after && content + "" == content;
    } else {
      var all := body + after;
      assert all[0] == body[0] && all[1..] == body[1..] + after;
      assert body[0] in body && forall l :: l in body[1..] ==> l in body;
      PlusLineIs(body[0]);
      AddBodyReads(body[1..], after, content + body[0][1..] + "\n");
      assert content + body[0][1..] + "\n" + AddedText(body[1..]) == content + AddedText(body);
    }
  }

  /** The hunks of a body whose first group goes on a hunk begun before it. */
  function HunksFrom(find: seq<string>, replace: seq<string>, groups: seq<seq<string>>): seq<Hunk>
    requires groups != []
  {
    var h := GroupHunk(groups[0]);
    var first := Hunk(find + h.find, replace + h.replace);
    (if first.find == [] && first.replace == [] then [] else [first]) + GroupHunks(groups[1..])
  }

  lemma {:induction false} EditsShow(group: seq<string>)
    requires forall l :: l in group ==> EditLine(l)
    ensures group == [] <==> GroupHunk(group) == Hunk([], [])
  {
    if group != [] {
      assert group[0] in group;
    }
  }

  lemma {:induction false} GroupsHoldEdits(body: seq<string>)
    requires forall l :: l in body ==> BodyLine(l)
    ensures forall g, l :: g in Groups(body) && l in g ==> EditLine(l)
  {
    if body != [] {
      assert body[0] in body && forall l :: l in body[1..] ==> l in body;
      GroupsHoldEdits(body[1..]);
      var later := Groups(body[1..]);
      assert later[0] in later && forall g :: g in later[1..] ==> g in later;
    }
  }

  lemma FreshHunks(groups: seq<seq<string>>)
    requires groups != [] && forall l :: l in groups[0] ==> EditLine(l)
    ensures HunksFrom([], [], groups) == GroupHunks(groups)
  {
    EditsShow(groups[0]);
    var h := GroupHunk(groups[0]);
    assert [] + h.find == h.find && [] + h.replace == h.replace;
  }

  lemma FlushSays(st: HunkState, groups: seq<seq<string>>)
    requires groups != [] && forall l :: l in groups[0] ==> EditLine(l)
    ensures st.Flush().done + HunksFrom(st.Flush().find, st.Flush().replace, groups)
            == st.done + HunksFrom(st.find, st.replace, [[]] + groups)
  {
    FreshHunks(groups);
    assert ([[]] + groups)[1..] == groups && st.find + [] == st.find && st.replace + [] == st.replace;
    var own := if st.find == [] && st.replace == [] then [] else [Hunk(st.find, st.replace)];
    Assoc(st.done, own, GroupHunks(groups));
    if own == [] {
      assert st.done + [] == st.done;
    }
  }

  lemma PushSays(st: HunkState, l: string, later: seq<seq<string>>)
    requires later != []
    ensures HunksFrom(st.find + Sought(l), st.replace + PutThere(l), later)
            == HunksFrom(st.find, st.replace, [[l] + later[0]] + later[1..])
  {
    var groups := [[l] + later[0]] + later[1..];
    assert groups[1..] == later[1..] && groups[0][1..] == later[0];
    var h := GroupHunk(later[0]);
    Assoc(st.find, Sought(l), h.find);
    Assoc(st.replace, PutThere(l), h.replace);
  }

  lemma {:induction false} UpdateBodyReads(body: seq<string>, after: seq<string>, st: HunkState)
    requires (forall l :: l in body ==> BodyLine(l)) && Closed(after)
    ensures UpdateBody(body + after, st) == Ok((st.done + HunksFrom(st.find, st.replace, Groups(body)), after))
    decreases |body|
  {
    hide HunkLine, StartsWith, HunksFrom, LocatorLine, EditLine;
    if body == [] {
      assert body + after == after;
      NoBody(after, st);
    } else {
      var all, l, later := body + after, body[0], Groups(body[1..]);
      assert all[0] == l && all[1..] == body[1..] + after;
      assert l in body && forall x :: x in body[1..] ==> x in body;
      BodyLineIs(l, st);
      GroupsHoldEdits(body[1..]);
      assert later[0] in later;
      if LocatorLine(l) {
        UpdateBodyReads(body[1..], after, st.Flush());
        FlushSays(st, later);
      } else {
        UpdateBodyReads(body[1..], after, st.Push(Sought(l), PutThere(l)));
        PushSays(st, l, later);
      }
    }
  }

  lemma NoBody(after: seq<string>, st: HunkState)
    requires Closed(after)
    ensures UpdateBody(after, st) == Ok((st.done + HunksFrom(st.find, st.replace, Groups([])), after))
  {
    var one: seq<seq<string>> := [[]];
    var own := if st.find == [] && st.replace == [] then [] else [Hunk(st.find, st.replace)];
    assert Groups([]) == one && own + [] == own;
    assert one[1..] == [] && st.find + [] == st.find && st.replace + [] == st.replace && st.done + [] == st.done;
  }

  lemma {:induction false} UpdateBodyBreaks(body: seq<string>, bad: string, more: seq<string>, st: HunkState)
    requires (forall l :: l in body ==> BodyLine(l)) && !BodyLine(bad) && !(MARK <= bad)
    ensures UpdateBody(body + ([bad] + more), st) == Err(BadHunkLine(bad))
    decreases |body|
  {
    var all := body + ([bad] + more);
    if body == [] {
      BodyLineIs(bad, st);
      assert all[0] == bad;
    } else {
      assert all[0] == body[0] && all[1..] == body[1..] + ([bad] + more);
      assert body[0] in body && forall x :: x in body[1..] ==> x in body;
      BodyLineIs(body[0], st);
      UpdateBodyBreaks(body[1..], bad, more, HunkLine(body[0], st).value);
    }
  }

  lemma {:induction false} NoHunksIn(body: seq<string>)
    requires forall l :: l in body ==> BodyLine(l)
    ensures HunksIn(body) == [] <==> forall l :: l in body ==> LocatorLine(l)
    ensures (forall l :: l in body ==> LocatorLine(l)) ==> Groups(body)[0] == []
    decreases |body|
  {
    if body != [] {
      var later := Groups(body[1..]);
      assert body[0] in body && (forall l :: l in body[1..] ==> l in body) && forall l :: l in body ==> l == body[0] || l in body[1..];
      NoHunksIn(body[1..]);
      if LocatorLine(body[0]) {
        assert ([[]] + later)[1..] == later && [] + GroupHunks(later) == GroupHunks(later);
      } else {
        assert ([[body[0]] + later[0]] + later[1..])[0] != [];
      }
    }
  }

  // ---- the parser reads blocks so ----

  lemma HeadsExclude(l: string)
    requires Heads(l, ADD) || Heads(l, DELETE) || Heads(l, UPDATE)
    ensures !BlankLine(l)
    ensures Heads(l, ADD) ==> !Heads(l, DELETE) && !Heads(l, UPDATE)
    ensures Heads(l, DELETE) ==> !Heads(l, UPDATE)
  {
    TrimsCommute(l);
    var t := TrimEnd(l);
    assert t[0] == '*';
    assert Heads(l, ADD) ==> t[4] == ADD[4];
    assert Heads(l, DELETE) ==> t[4] == DELETE[4];
    assert Heads(l, UPDATE) ==> t[4] == UPDATE[4];
    TrimEndShape(TrimStart(l));
  }

  lemma BlankHasNoHead(l: string)
    requires BlankLine(l)
    ensures !EndLine(l) && !Heads(l, ADD) && !Heads(l, DELETE) && !Heads(l, UPDATE)
  {
    if Heads(l, ADD) || Heads(l, DELETE) || Heads(l, UPDATE) {
      HeadsExclude(l);
    }
  }

  /** One line of the outer loop, by its kind. */
  lemma LineReads(lines: seq<string>, ops: seq<FileOp>)
    requires lines != []
    ensures var l, line := lines[0], TrimEnd(lines[0]);
            ParseOps(lines, ops)
            == if EndLine(l) then (if ops == [] then Err(NoOperations) else Ok(ops))
               else if Heads(l, ADD) then
                 match AddBody(lines[1..], "")
                 case Err(e) => Err(e)
                 case Ok((content, rest)) => ParseOps(rest, ops + [Add(PathOf(l, ADD), content)])
               else if Heads(l, DELETE) then ParseOps(lines[1..], ops + [Delete(PathOf(l, DELETE))])
               else if Heads(l, UPDATE) then
                 match UpdateBody(lines[1..], HunkState([], [], []))
                 case Err(e) => Err(e)
                 case Ok((hunks, rest)) =>
                   if hunks == [] then Err(NoHunks(line[|UPDATE|..])) else ParseOps(rest, ops + [Update(PathOf(l, UPDATE), hunks)])
               else if BlankLine(l) then ParseOps(lines[1..], ops)
               else Err(UnknownDirective(line))
  {
    hide Trim, TrimEnd, AddBody, UpdateBody;
    TrimOfTrimEnd(lines[0]);
  }

  lemma BlockReads(b: Block, after: seq<string>, ops: seq<FileOp>)
    requires GoodBlock(b) && (b.AddBlock? || b.UpdateBlock? ==> Closed(after))
    ensures ParseOps(Texts(b) + after, ops) == ParseOps(after, ops + OpOf(b))
  {
    hide ParseOps, Heads, BlankLine, EndLine, PathOf, HunksIn, PlusLine, BodyLine, LocatorLine;
    var all := Texts(b) + after;
    LineReads(all, ops);
    match b
    case Blank(head) =>
      assert all[1..] == after && ops + [] == ops;
      BlankHasNoHead(head);
    case DeleteBlock(head) =>
      assert all[1..] == after;
      DeleteHead(head);
    case AddBlock(head, body) =>
      assert all[1..] == body + after;
      AddHead(head);
      AddBodyReads(body, after, "");
      assert "" + AddedText(body) == AddedText(body);
      AddBodyEnds(after, AddedText(body));
    case UpdateBlock(head, body) =>
      assert all[1..] == body + after;
      UpdateHead(head);
      UpdateBodyReads(body, after, HunkState([], [], []));
      GroupsHoldEdits(body);
      assert Groups(body)[0] in Groups(body);
      FreshHunks(Groups(body));
      NoHunksIn(body);
      HunksAreGroups(body);
      assert [] + GroupHunks(Groups(body)) == GroupHunks(Groups(body));
  }

  lemma HunksAreGroups(body: seq<string>)
    ensures HunksIn(body) == GroupHunks(Groups(body))
  {
  }

  lemma AddBodyEnds(after: seq<string>, content: string)
    requires Closed(after)
    ensures AddBody(after, content) == Ok((content, after))
  {
  }

  lemma AddHead(l: string)
    requires Heads(l, ADD)
    ensures !EndLine(l)
  {
  }

  lemma DeleteHead(l: string)
    requires Heads(l, DELETE)
    ensures !EndLine(l) && !Heads(l, ADD)
  {
    HeadsExclude(l);
  }

  lemma UpdateHead(l: string)
    requires Heads(l, UPDATE)
    ensures !EndLine(l) && !Heads(l, ADD) && !Heads(l, DELETE)
  {
    HeadsExclude(l);
  }

  // ---- the parser ends so ----

  lemma AddBreaks(rest: seq<string>, k: nat, ops: seq<FileOp>)
    requires Breaks(rest, k, PlusLine) && Heads(rest[0], ADD)
    ensures ParseOps(rest, ops) == Err(BadAddLine(rest[k]))
  {
    hide ParseOps, Heads, BlankLine, EndLine, PathOf;
    var body, more := rest[1..k], rest[k..];
    LineReads(rest, ops);
    AddHead(rest[0]);
    assert rest[1..] == body + more;
    forall l | l in body
      ensures PlusLine(l)
    {
      var i :| 0 <= i < |body| && body[i] == l;
      assert rest[i + 1] == l;
    }
    AddBodyReads(body, more, "");
    PlusLineIs(rest[k]);
    assert more[0] == rest[k];
  }

  lemma UpdateBreaks(rest: seq<string>, k: nat, ops: seq<FileOp>)
    requires Breaks(rest, k, BodyLine) && Heads(rest[0], UPDATE)
    ensures ParseOps(rest, ops) == Err(BadHunkLine(rest[k]))
  {
    hide ParseOps, Heads, BlankLine, EndLine, PathOf;
    var body, more := rest[1..k], rest[k + 1..];
    LineReads(rest, ops);
    UpdateHead(rest[0]);
    assert rest[1..] == body + ([rest[k]] + more);
    forall l | l in body
      ensures BodyLine(l)
    {
      var i :| 0 <= i < |body| && body[i] == l;
      assert rest[i + 1] == l;
    }
    UpdateBodyBreaks(body, rest[k], more, HunkState([], [], []));
  }

  lemma LocatorsGiveNothing(rest: seq<string>, k: nat, ops: seq<FileOp>)
    requires OnlyLocators(rest, k) && Heads(rest[0], UPDATE)
    ensures ParseOps(rest, ops) == Err(NoHunks(TrimEnd(rest[0])[|UPDATE|..]))
  {
    hide ParseOps, BlankLine, EndLine, PathOf;
    var body, after := rest[1..k], rest[k..];
    LineReads(rest, ops);
    UpdateHead(rest[0]);
    assert rest[1..] == body + after;
    forall l | l in body
      ensures LocatorLine(l) && BodyLine(l)
    {
      var i :| 0 <= i < |body| && body[i] == l;
      assert rest[i + 1] == l;
    }
    UpdateBodyReads(body, after, HunkState([], [], []));
    GroupsHoldEdits(body);
    assert Groups(body)[0] in Groups(body);
    FreshHunks(Groups(body));
    NoHunksIn(body);
    assert [] + GroupHunks(Groups(body)) == [];
  }

  lemma AnswersSo(rest: seq<string>, ops: seq<FileOp>, r: Result<seq<FileOp>, PatchError>)
    requires Answers(rest, ops, r)
    ensures ParseOps(rest, ops) == r
  {
    hide Heads, EndLine, BlankLine, PathOf, AddBody, UpdateBody, ParseOps;
    if rest == [] {
      NothingLeft(ops);
    } else {
      LineReads(rest, ops);
      if EndLine(rest[0]) {
      } else if Heads(rest[0], ADD) {
        var k: nat :| Breaks(rest, k, PlusLine) && r == Err(BadAddLine(rest[k]));
        AddBreaks(rest, k, ops);
      } else if Heads(rest[0], UPDATE) {
        if k: nat :| Breaks(rest, k, BodyLine) && r == Err(BadHunkLine(rest[k])) {
          UpdateBreaks(rest, k, ops);
        } else {
          HeadHasPrefix(rest[0]);
          var k: nat :| OnlyLocators(rest, k) && r == Err(NoHunks(TrimEnd(rest[0])[|UPDATE|..]));
          LocatorsGiveNothing(rest, k, ops);
        }
      }
    }
  }

  lemma NothingLeft(ops: seq<FileOp>)
    ensures ParseOps([], ops) == Err(MissingEnd)
  {
  }

  /** Blocks laid out before an ending: the parser's answer is the ending's. */
  lemma {:induction false} LayoutReads(lines: seq<string>, bs: seq<Block>, rest: seq<string>, ops: seq<FileOp>)
    requires Layout(lines, bs, rest)
    ensures (forall b :: b in bs ==> GoodBlock(b)) && ParseOps(lines, ops) == ParseOps(rest, ops + OpsOf(bs))
    decreases |bs|
  {
    hide GoodBlock, OpOf, ParseOps, Closed;
    LaidAreGood(lines, bs, rest);
    if bs == [] {
      assert ops + [] == ops;
    } else {
      var n := |Texts(bs[0])|;
      assert lines == Texts(bs[0]) + lines[n..];
      BlockReads(bs[0], lines[n..], ops);
      LayoutReads(lines[n..], bs[1..], rest, ops + OpOf(bs[0]));
      Assoc(ops, OpOf(bs[0]), OpsOf(bs[1..]));
    }
  }

  // ---- every text is laid out ----

  /** How many lines from the k-th on are of a kind. */
  function Stretch(lines: seq<string>, k: nat, good: string -> bool): (n: nat)
    requires k <= |lines|
    ensures k <= n <= |lines| && (n < |lines| ==> !good(lines[n])) && forall i :: k <= i < n ==> good(lines[i])
    decreases |lines| - k
  {
    if k == |lines| || !good(lines[k]) then k else Stretch(lines, k + 1, good)
  }

  ghost predicate Answerable(rest: seq<string>, ops: seq<FileOp>) {
    exists r :: Answers(rest, ops, r)
  }

  /** A layout of the lines, and the answer its rest calls for. */
  ghost predicate Laid(lines: seq<string>, bs: seq<Block>, rest: seq<string>) {
    Layout(lines, bs, rest) && forall ops :: Answerable(rest, ops)
  }

  lemma LaidCons(b: Block, lines: seq<string>, bs: seq<Block>, rest: seq<string>)
    requires GoodBlock(b) && |Texts(b)| <= |lines| && lines[..|Texts(b)|] == Texts(b)
    requires (b.AddBlock? || b.UpdateBlock? ==> Closed(lines[|Texts(b)|..])) && Laid(lines[|Texts(b)|..], bs, rest)
    ensures Laid(lines, [b] + bs, rest)
  {
    assert ([b] + bs)[1..] == bs;
  }

  lemma EndsAtOnce(lines: seq<string>)
    requires forall ops :: Answerable(lines, ops)
    ensures Laid(lines, [], lines)
  {
  }

  lemma {:induction false} EveryTextIsLaid(lines: seq<string>) returns (bs: seq<Block>, rest: seq<string>)
    ensures Laid(lines, bs, rest)
    decreases |lines|
  {
    hide Laid, Heads, EndLine, BlankLine;
    if lines == [] || EndLine(lines[0]) {
      bs, rest := [], lines;
      PlainEnding(lines);
    } else if Heads(lines[0], ADD) {
      bs, rest := AddIsLaid(lines);
    } else if Heads(lines[0], UPDATE) {
      bs, rest := UpdateIsLaid(lines);
    } else if Heads(lines[0], DELETE) {
      bs, rest := EveryTextIsLaid(lines[1..]);
      LaidCons(DeleteBlock(lines[0]), lines, bs, rest);
      bs := [DeleteBlock(lines[0])] + bs;
    } else if BlankLine(lines[0]) {
      bs, rest := EveryTextIsLaid(lines[1..]);
      LaidCons(Blank(lines[0]), lines, bs, rest);
      bs := [Blank(lines[0])] + bs;
    } else {
      bs, rest := [], lines;
      PlainEnding(lines);
    }
  }

  lemma PlainEnding(lines: seq<string>)
    requires lines == [] || EndLine(lines[0]) || Unknown(lines[0])
    ensures Laid(lines, [], lines)
  {
    hide Heads, EndLine, BlankLine;
    forall ops
      ensures Answerable(lines, ops)
    {
      if lines == [] {
        assert Answers(lines, ops, Err(MissingEnd));
      } else if EndLine(lines[0]) {
        assert Answers(lines, ops, if ops == [] then Err(NoOperations) else Ok(ops));
      } else {
        assert Answers(lines, ops, Err(UnknownDirective(TrimEnd(lines[0]))));
      }
    }
  }

  lemma AddIsLaid(lines: seq<string>) returns (bs: seq<Block>, rest: seq<string>)
    requires lines != [] && Heads(lines[0], ADD)
    ensures Laid(lines, bs, rest)
    decreases |lines|, 0
  {
    hide Laid, Heads, EndLine, PlusLine;
    var k := Stretch(lines, 1, PlusLine);
    var body := lines[1..k];
    forall l | l in body
      ensures PlusLine(l)
    {
      var i :| 0 <= i < |body| && body[i] == l;
      assert lines[i + 1] == l;
    }
    if Closed(lines[k..]) {
      bs, rest := EveryTextIsLaid(lines[k..]);
      assert lines[..k] == [lines[0]] + body;
      LaidCons(AddBlock(lines[0], body), lines, bs, rest);
      bs := [AddBlock(lines[0], body)] + bs;
    } else {
      bs, rest := [], lines;
      AddHead(lines[0]);
      forall ops
        ensures Answerable(lines, ops)
      {
        assert Breaks(lines, k, PlusLine);
        assert Answers(lines, ops, Err(BadAddLine(lines[k])));
      }
      EndsAtOnce(lines);
    }
  }

  lemma UpdateIsLaid(lines: seq<string>) returns (bs: seq<Block>, rest: seq<string>)
    requires lines != [] && Heads(lines[0], UPDATE)
    ensures Laid(lines, bs, rest)
    decreases |lines|, 0
  {
    hide Laid, Heads, EndLine, BodyLine, LocatorLine;
    var k := Stretch(lines, 1, BodyLine);
    var body := lines[1..k];
    UpdateHead(lines[0]);
    forall l | l in body
      ensures BodyLine(l)
    {
      var i :| 0 <= i < |body| && body[i] == l;
      assert lines[i + 1] == l;
    }
    if !Closed(lines[k..]) {
      bs, rest := [], lines;
      forall ops
        ensures Answerable(lines, ops)
      {
        assert Breaks(lines, k, BodyLine);
        assert Answers(lines, ops, Err(BadHunkLine(lines[k])));
      }
      EndsAtOnce(lines);
    } else if l :| l in body && !LocatorLine(l) {
      bs, rest := EveryTextIsLaid(lines[k..]);
      assert lines[..k] == [lines[0]] + body;
      LaidCons(UpdateBlock(lines[0], body), lines, bs, rest);
      bs := [UpdateBlock(lines[0], body)] + bs;
    } else {
      bs, rest := [], lines;
      LocatorsEnd(lines, k);
      EndsAtOnce(lines);
    }
  }

  lemma LocatorsEnd(lines: seq<string>, k: nat)
    requires 1 <= k <= |lines| && Heads(lines[0], UPDATE) && Closed(lines[k..]) && forall l :: l in lines[1..k] ==> LocatorLine(l)
    ensures forall ops :: Answerable(lines, ops)
  {
    hide Heads, EndLine, LocatorLine;
    UpdateHead(lines[0]);
    forall i | 1 <= i < k
      ensures LocatorLine(lines[i])
    {
      assert lines[1..k][i - 1] == lines[i];
    }
    assert OnlyLocators(lines, k);
    forall ops
      ensures Answerable(lines, ops)
    {
      HeadHasPrefix(lines[0]);
      assert Answers(lines, ops, Err(NoHunks(TrimEnd(lines[0])[|UPDATE|..])));
    }
  }

  lemma HeadHasPrefix(l: string)
    requires Heads(l, UPDATE)
    ensures |UPDATE| <= |TrimEnd(l)|
  {
  }

  // ---- the theorems ----

  predicate Begins(lines: seq<string>) {
    lines != [] && Trim(lines[0]) == BEGIN
  }

  /** Blocks behind the begin line, and the answer called for after them. */
  ghost predicate Answered(lines: seq<string>, bs: seq<Block>, rest: seq<string>, r: Result<seq<FileOp>, PatchError>)
    requires lines != []
  {
    Layout(lines[1..], bs, rest)
    && (forall b :: b in bs ==> GoodBlock(b))
    && Answers(rest, OpsOf(bs), r)
  }

  /** The parser's answer to every text: without a begin line that error; else what the ending
      behind some layout of blocks calls for, with the operations of the blocks. */
  lemma ParsesExactly(text: string, r: Result<seq<FileOp>, PatchError>)
    ensures var lines := Lines(Trim(text));
            Parse(text) == r
            <==> if Begins(lines) then exists bs, rest :: Answered(lines, bs, rest, r) else r == Err(MissingBegin)
  {
    hide Layout, Answers, OpsOf, ParseOps, Lines, Trim;
    var lines := Lines(Trim(text));
    if Begins(lines) {
      if bs, rest :| Answered(lines, bs, rest, r) {
        LayoutReads(lines[1..], bs, rest, []);
        assert [] + OpsOf(bs) == OpsOf(bs);
        AnswersSo(rest, OpsOf(bs), r);
      }
      if Parse(text) == r {
        var bs, rest := EveryTextIsLaid(lines[1..]);
        LayoutReads(lines[1..], bs, rest, []);
        assert [] + OpsOf(bs) == OpsOf(bs);
        assert Answerable(rest, OpsOf(bs));
        var answer :| Answers(rest, OpsOf(bs), answer);
        AnswersSo(rest, OpsOf(bs), answer);
        assert Answered(lines, bs, rest, r);
      }
    }
  }

  predicate SomethingToDo(bs: seq<Block>) {
    exists b :: b in bs && !b.Blank?
  }

  /** A text is accepted exactly if it has a begin line, then blocks of which one is not blank,
      then an end line; what follows that is not looked at. */
  lemma AcceptedExactly(text: string)
    ensures var lines := Lines(Trim(text));
            Parse(text).Ok?
            <==> Begins(lines)
                 && exists bs, rest :: Layout(lines[1..], bs, rest) && rest != [] && EndLine(rest[0]) && SomethingToDo(bs)
  {
    hide Layout, OpsOf, Lines, Trim, EndLine, ParseOps;
    var lines := Lines(Trim(text));
    if Parse(text).Ok? {
      ParsesExactly(text, Parse(text));
      var bs, rest :| Answered(lines, bs, rest, Parse(text));
      SomeOperation(bs);
    }
    if Begins(lines) && exists bs, rest :: Layout(lines[1..], bs, rest) && rest != [] && EndLine(rest[0]) && SomethingToDo(bs) {
      var bs, rest :| Layout(lines[1..], bs, rest) && rest != [] && EndLine(rest[0]) && SomethingToDo(bs);
      LaidAreGood(lines[1..], bs, rest);
      SomeOperation(bs);
      assert Answered(lines, bs, rest, Ok(OpsOf(bs)));
      ParsesExactly(text, Ok(OpsOf(bs)));
    }
  }

  lemma {:induction false} SomeOperation(bs: seq<Block>)
    requires forall b :: b in bs ==> GoodBlock(b)
    ensures OpsOf(bs) == [] <==> forall b :: b in bs ==> b.Blank?
  {
    if bs != [] {
      assert bs[0] in bs && (forall b :: b in bs[1..] ==> b in bs) && forall b :: b in bs ==> b == bs[0] || b in bs[1..];
      SomeOperation(bs[1..]);
    }
  }

  /** For one: a patch cut off before its end mark is refused. */
  lemma CutOffIsRefused()
    ensures Parse("*** Begin Patch\n*** Delete File: a") == Err(MissingEnd)
  {
    hide ParseOps, Lines, Trim;
    TwoLines();
    OneDelete();
    NothingLeft([Delete("a")]);
  }

  lemma TwoLines()
    ensures Lines(Trim("*** Begin Patch\n*** Delete File: a")) == [BEGIN, "*** Delete File: a"] && Trim(BEGIN) == BEGIN
  {
    hide Trim, Lines;
    var last := "*** Delete File: a";
    BeginIsPlain();
    BeginAndDelete();
    NothingToTrim(BEGIN + "\n" + last);
    LinesCons(BEGIN, last);
    OneLine(last);
  }

  lemma BeginAndDelete()
    ensures BEGIN + "\n" + "*** Delete File: a" == "*** Begin Patch\n*** Delete File: a"
  {
  }

  lemma BeginIsPlain()
    ensures Trim(BEGIN) == BEGIN && StripCr(BEGIN) == BEGIN && '\n' !in BEGIN
  {
    hide Trim;
    TrimTrims(BEGIN);
  }

  lemma NothingToTrim(text: string)
    requires text != "" && text[0] == '*' && text[|text| - 1] == 'a'
    ensures Trim(text) == text
  {
    hide Trim;
    TrimTrims(text);
  }

  lemma OneLine(l: string)
    requires l != "" && '\n' !in l
    ensures Lines(l) == [l]
  {
    SplitPlain(l, '\n');
  }

  lemma OneDelete()
    ensures ParseOps(["*** Delete File: a"], []) == ParseOps([], [Delete("a")])
  {
    hide ParseOps;
    var l := "*** Delete File: a";
    TrimTrims(l);
    TrimTrims("a");
    assert l[|l| - 1] == 'a' && TrimEnd(l) == l && l[|DELETE|..] == "a";
    LineReads([l], []);
    DeleteHead(l);
    assert [l][1..] == [] && [] + [Delete("a")] == [Delete("a")];
  }
}
