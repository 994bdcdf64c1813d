/**
 A printer for the whole concrete syntax of `apply_patch`, and the theorems that tie it to the
 parser: everything printed parses to its meaning, and the parser's results are exactly the
 well-formed operation lists.
 */
module PatchRoundTrip {
  import opened Wrappers
  import opened Text
  import opened Patch

  // ---- the concrete syntax ----

  /** One line of a hunk as written. `Blank` is the context line without its leading space. */
  datatype EditLine = Context(text: string) | Blank | Removed(text: string) | Added(text: string)

  /** A hunk as written: an `@@ locator` line and its edit lines. */
  datatype Script = Script(locator: string, edits: seq<EditLine>)

  datatype Section =
    | AddSection(path: string, lines: seq<string>)
    | DeleteSection(path: string)
    | UpdateSection(path: string, scripts: seq<Script>)

  function EditText(e: EditLine): string {
    match e
    case Context(t) => " " + t
    case Blank => ""
    case Removed(t) => "-" + t
    case Added(t) => "+" + t
  }

  function EditTexts(edits: seq<EditLine>): (r: seq<string>) {
    if edits == [] then [] else [EditText(edits[0])] + EditTexts(edits[1..])
  }

  function ScriptTexts(scripts: seq<Script>): seq<string> {
    if scripts == [] then []
    else ["@@" + scripts[0].locator] + (EditTexts(scripts[0].edits) + ScriptTexts(scripts[1..]))
  }

  function Plussed(lines: seq<string>): seq<string> {
    if lines == [] then [] else ["+" + lines[0]] + Plussed(lines[1..])
  }

  function SectionTexts(s: Section): seq<string> {
    match s
    case AddSection(path, lines) => [ADD + path] + Plussed(lines)
    case DeleteSection(path) => [DELETE + path]
    case UpdateSection(path, scripts) => [UPDATE + path] + ScriptTexts(scripts)
  }

  function BodyTexts(doc: seq<Section>): seq<string> {
    if doc == [] then [END] else SectionTexts(doc[0]) + BodyTexts(doc[1..])
  }

  function DocTexts(doc: seq<Section>): seq<string> {
    [BEGIN] + BodyTexts(doc)
  }

  /** The patch text, with `\n` or `\r\n` between the lines. */
  function Print(doc: seq<Section>, crlf: bool): string {
    Render(DocTexts(doc), crlf)
  }

  function Render(lines: seq<string>, crlf: bool): string {
    if lines == [] then ""
    else if |lines| == 1 then lines[0]
    else lines[0] + (if crlf then "\r\n" else "\n") + Render(lines[1..], crlf)
  }

  // ---- its meaning ----

  function Sought(e: EditLine): seq<string> {
    match e
    case Context(t) => [t]
    case Blank => [""]
    case Removed(t) => [t]
    case Added(_) => []
  }

  function Put(e: EditLine): seq<string> {
    match e
    case Context(t) => [t]
    case Blank => [""]
    case Removed(_) => []
    case Added(t) => [t]
  }

  /** The lines a script looks for: context and removed lines, in order. */
  function Before(edits: seq<EditLine>): seq<string> {
    if edits == [] then [] else Sought(edits[0]) + Before(edits[1..])
  }

  /** The lines a script puts there: context and added lines, in order. */
  function After(edits: seq<EditLine>): seq<string> {
    if edits == [] then [] else Put(edits[0]) + After(edits[1..])
  }

  function HunksOf(scripts: seq<Script>): seq<Hunk> {
    if scripts == [] then []
    else [Hunk(Before(scripts[0].edits), After(scripts[0].edits))] + HunksOf(scripts[1..])
  }

  function Terminated(lines: seq<string>): string {
    if lines == [] then "" else lines[0] + "\n" + Terminated(lines[1..])
  }

  function Meaning(s: Section): FileOp {
    match s
    case AddSection(path, lines) => Add(path, Terminated(lines))
    case DeleteSection(path) => Delete(path)
    case UpdateSection(path, scripts) => Update(path, HunksOf(scripts))
  }

  function Meanings(doc: seq<Section>): seq<FileOp> {
    if doc == [] then [] else [Meaning(doc[0])] + Meanings(doc[1..])
  }

  // ---- what may be written ----

  predicate GoodPath(path: string) {
    path != "" && Trimmed(path) && '\n' !in path
  }

  ghost predicate OneLiners(lines: seq<string>) {
    forall l :: l in lines ==> '\n' !in l
  }

  ghost predicate GoodSection(s: Section) {
    GoodPath(s.path) && OneLiners(SectionTexts(s))
    && (s.UpdateSection? ==> s.scripts != [] && forall sc :: sc in s.scripts ==> sc.edits != [])
  }

  ghost predicate GoodDoc(doc: seq<Section>) {
    doc != [] && forall s :: s in doc ==> GoodSection(s)
  }

  // ---- parsing what was printed, line by line ----

  /** Body lines are told apart by their first character, directives by their fifth. */
  lemma NoPrefix(s: string, prefix: string, k: nat)
    requires k < |prefix| && (k < |s| ==> s[k] != prefix[k])
    ensures !StartsWith(s, prefix)
  {
    if StartsWith(s, prefix) {
      PrefixChar(s, prefix, k);
    }
  }

  lemma EditLineReads(e: EditLine, st: HunkState)
    ensures !StartsWith(EditText(e), MARK)
    ensures HunkLine(EditText(e), st) == Ok(st.Push(Sought(e), Put(e)))
  {
    var line := EditText(e);
    NoPrefix(line, MARK, 0);
    NoPrefix(line, "@@", 0);
    assert e.Blank? || line[1..] == e.text;
    match e
    case Context(_) => assert StartsWith(line, " ");
    case Blank =>
      NoPrefix(line, " ", 0);
      NoPrefix(line, "-", 0);
      NoPrefix(line, "+", 0);
    case Removed(_) => NoPrefix(line, " ", 0);
    case Added(_) =>
      NoPrefix(line, " ", 0);
      NoPrefix(line, "-", 0);
  }

  /** The lines after a section: there are some, and the first starts with the mark. */
  predicate AtMark(rest: seq<string>) {
    rest != [] && StartsWith(rest[0], MARK)
  }

  lemma PlusLine(line: string)
    ensures StartsWith("+" + line, "+") && !StartsWith("+" + line, MARK) && ("+" + line)[1..] == line
  {
    NoPrefix("+" + line, MARK, 0);
  }

  lemma {:induction false} AddBodyOfPrinted(lines: seq<string>, rest: seq<string>, content: string)
    requires AtMark(rest)
    ensures AddBody(Plussed(lines) + rest, content) == Ok((content + Terminated(lines), rest))
  {
    if lines == [] {
      assert Plussed(lines) + rest == rest;
      assert content + "" == content;
    } else {
      hide StartsWith;
      var all := Plussed(lines) + rest;
      assert all[0] == "+" + lines[0] && all[1..] == Plussed(lines[1..]) + rest;
      PlusLine(lines[0]);
      AddBodyOfPrinted(lines[1..], rest, content + lines[0] + "\n");
      assert content + lines[0] + "\n" + Terminated(lines[1..]) == content + Terminated(lines);
    }
  }

  /** A line of a hunk section is taken in and the next ones follow. */
  lemma UpdateBodyStep(line: string, rest: seq<string>, st: HunkState, next: HunkState)
    requires !StartsWith(line, MARK) && HunkLine(line, st) == Ok(next)
    ensures UpdateBody([line] + rest, st) == UpdateBody(rest, next)
  {
    assert ([line] + rest)[1..] == rest;
  }

  lemma PushTwice(st: HunkState, a: seq<string>, b: seq<string>, c: seq<string>, d: seq<string>)
    ensures st.Push(a, b).Push(c, d) == st.Push(a + c, b + d)
  {
    assert st.find + a + c == st.find + (a + c);
    assert st.replace + b + d == st.replace + (b + d);
  }

  lemma {:induction false} EditsRead(edits: seq<EditLine>, rest: seq<string>, st: HunkState)
    ensures UpdateBody(EditTexts(edits) + rest, st) == UpdateBody(rest, st.Push(Before(edits), After(edits)))
  {
    if edits == [] {
      assert EditTexts(edits) + rest == rest;
      assert st.find + [] == st.find && st.replace + [] == st.replace;
    } else {
      var e, tail := edits[0], EditTexts(edits[1..]) + rest;
      assert EditTexts(edits) + rest == [EditText(e)] + tail;
      EditLineReads(e, st);
      UpdateBodyStep(EditText(e), tail, st, st.Push(Sought(e), Put(e)));
      EditsRead(edits[1..], rest, st.Push(Sought(e), Put(e)));
      PushTwice(st, Sought(e), Put(e), Before(edits[1..]), After(edits[1..]));
    }
  }

  lemma EditsLeaveTrace(edits: seq<EditLine>)
    requires edits != []
    ensures Before(edits) != [] || After(edits) != []
  {
  }

  /** A script starts a hunk of its own and leaves it open. */
  lemma ScriptReads(sc: Script, tail: seq<string>, st: HunkState)
    requires sc.edits != []
    ensures UpdateBody(["@@" + sc.locator] + (EditTexts(sc.edits) + tail), st)
            == UpdateBody(tail, HunkState(st.Flush().done, Before(sc.edits), After(sc.edits)))
  {
    var line := "@@" + sc.locator;
    NoPrefix(line, MARK, 0);
    UpdateBodyStep(line, EditTexts(sc.edits) + tail, st, st.Flush());
    EditsRead(sc.edits, tail, st.Flush());
    FlushedIsBare(st);
    assert [] + Before(sc.edits) == Before(sc.edits) && [] + After(sc.edits) == After(sc.edits);
  }

  lemma FlushedIsBare(st: HunkState)
    ensures st.Flush().find == [] && st.Flush().replace == []
  {
  }

  lemma FirstScript(scripts: seq<Script>, rest: seq<string>)
    requires scripts != []
    ensures ScriptTexts(scripts) + rest == ["@@" + scripts[0].locator] + (EditTexts(scripts[0].edits) + (ScriptTexts(scripts[1..]) + rest))
  {
    Assoc(["@@" + scripts[0].locator], EditTexts(scripts[0].edits) + ScriptTexts(scripts[1..]), rest);
    Assoc(EditTexts(scripts[0].edits), ScriptTexts(scripts[1..]), rest);
  }

  lemma {:induction false} ScriptsRead(scripts: seq<Script>, rest: seq<string>, st: HunkState)
    requires AtMark(rest) && forall i :: 0 <= i < |scripts| ==> scripts[i].edits != []
    ensures UpdateBody(ScriptTexts(scripts) + rest, st) == Ok((st.Flush().done + HunksOf(scripts), rest))
  {
    if scripts == [] {
      assert ScriptTexts(scripts) + rest == rest;
      assert st.Flush().done + [] == st.Flush().done;
    } else {
      var sc := scripts[0];
      FirstScript(scripts, rest);
      ScriptReads(sc, ScriptTexts(scripts[1..]) + rest, st);
      EditsLeaveTrace(sc.edits);
      var done, hunk := st.Flush().done, Hunk(Before(sc.edits), After(sc.edits));
      ScriptsRead(scripts[1..], rest, HunkState(done, hunk.find, hunk.replace));
      Assoc(done, [hunk], HunksOf(scripts[1..]));
    }
  }

  /** A directive line survives both trims, and gives its path back. */
  lemma DirectiveReads(prefix: string, path: string)
    requires prefix in {ADD, DELETE, UPDATE} && GoodPath(path)
    ensures TrimEnd(prefix + path) == prefix + path && Trim(prefix + path) == prefix + path
    ensures Trim((prefix + path)[|prefix|..]) == path
  {
    TrimTrims(prefix + path);
    TrimTrims(path);
    assert (prefix + path)[|prefix|..] == path;
  }

  lemma SectionReads(s: Section, rest: seq<string>, ops: seq<FileOp>)
    requires GoodSection(s) && AtMark(rest)
    ensures ParseOps(SectionTexts(s) + rest, ops) == ParseOps(rest, ops + [Meaning(s)])
  {
    match s
    case AddSection(path, lines) => AddSectionReads(path, lines, rest, ops);
    case DeleteSection(path) => DeleteSectionReads(path, rest, ops);
    case UpdateSection(path, scripts) => UpdateSectionReads(path, scripts, rest, ops);
  }

  lemma AddSectionReads(path: string, lines: seq<string>, rest: seq<string>, ops: seq<FileOp>)
    requires GoodPath(path) && AtMark(rest)
    ensures ParseOps([ADD + path] + Plussed(lines) + rest, ops) == ParseOps(rest, ops + [Add(path, Terminated(lines))])
  {
    var line := ADD + path;
    var all := [line] + Plussed(lines) + rest;
    DirectiveReads(ADD, path);
    assert line[4] != END[4];
    assert all[0] == line && all[1..] == Plussed(lines) + rest;
    AddBodyOfPrinted(lines, rest, "");
    assert "" + Terminated(lines) == Terminated(lines);
  }

  lemma DeleteSectionReads(path: string, rest: seq<string>, ops: seq<FileOp>)
    requires GoodPath(path)
    ensures ParseOps([DELETE + path] + rest, ops) == ParseOps(rest, ops + [Delete(path)])
  {
    var line := DELETE + path;
    var all := [line] + rest;
    DirectiveReads(DELETE, path);
    assert line[4] != END[4];
    NoPrefix(line, ADD, 4);
    assert all[0] == line && all[1..] == rest;
  }

  /** One update directive with a readable body. */
  lemma ParseUpdate(line: string, lines: seq<string>, ops: seq<FileOp>, hunks: seq<Hunk>, rest: seq<string>)
    requires TrimEnd(line) == line && Trim(line) == line && line != END
    requires StartsWith(line, UPDATE) && !StartsWith(line, ADD) && !StartsWith(line, DELETE)
    requires UpdateBody(lines, HunkState([], [], [])) == Ok((hunks, rest)) && hunks != []
    ensures ParseOps([line] + lines, ops) == ParseOps(rest, ops + [Update(Trim(line[|UPDATE|..]), hunks)])
  {
    assert ([line] + lines)[1..] == lines;
  }

  /** An update directive is taken for nothing else. */
  lemma UpdateLine(path: string)
    requires GoodPath(path)
    ensures var line := UPDATE + path;
            TrimEnd(line) == line && Trim(line) == line && line != END && StartsWith(line, UPDATE)
            && !StartsWith(line, ADD) && !StartsWith(line, DELETE) && Trim(line[|UPDATE|..]) == path
  {
    var line := UPDATE + path;
    DirectiveReads(UPDATE, path);
    assert line[4] != END[4];
    NoPrefix(line, ADD, 4);
    NoPrefix(line, DELETE, 4);
  }

  lemma UpdateSectionReads(path: string, scripts: seq<Script>, rest: seq<string>, ops: seq<FileOp>)
    requires GoodPath(path) && AtMark(rest) && scripts != [] && forall i :: 0 <= i < |scripts| ==> scripts[i].edits != []
    ensures ParseOps([UPDATE + path] + ScriptTexts(scripts) + rest, ops) == ParseOps(rest, ops + [Update(path, HunksOf(scripts))])
  {
    var line, hunks := UPDATE + path, HunksOf(scripts);
    UpdateLine(path);
    ScriptsRead(scripts, rest, HunkState([], [], []));
    assert HunkState([], [], []).Flush().done + hunks == hunks;
    Assoc([line], ScriptTexts(scripts), rest);
    ParseUpdate(line, ScriptTexts(scripts) + rest, ops, hunks, rest);
  }

  lemma BodyAtMark(doc: seq<Section>)
    ensures AtMark(BodyTexts(doc))
  {
  }

  lemma {:induction false} BodyReads(doc: seq<Section>, ops: seq<FileOp>)
    requires forall s :: s in doc ==> GoodSection(s)
    requires doc != [] || ops != []
    ensures ParseOps(BodyTexts(doc), ops) == Ok(ops + Meanings(doc))
  {
    if doc == [] {
      TrimTrims(END);
      TrimEndShape(END);
      assert Trim(TrimEnd(END)) == END;
      assert ops + [] == ops;
    } else {
      BodyAtMark(doc[1..]);
      SectionReads(doc[0], BodyTexts(doc[1..]), ops);
      BodyReads(doc[1..], ops + [Meaning(doc[0])]);
      assert ops + [Meaning(doc[0])] + Meanings(doc[1..]) == ops + Meanings(doc);
    }
  }

  // ---- from lines to text ----

  /** Printed lines come back: always when printed with `\r\n`, and with `\n` when none ends in
      a carriage return. */
  lemma {:induction false} LinesOfRender(lines: seq<string>, crlf: bool)
    requires lines != [] && OneLiners(lines) && lines[|lines| - 1] != ""
    requires crlf || forall l :: l in lines ==> StripCr(l) == l
    ensures Lines(Render(lines, crlf)) == lines
  {
    if |lines| == 1 {
      SplitPlain(lines[0], '\n');
    } else {
      var line, rest := lines[0], Render(lines[1..], crlf);
      LinesOfRender(lines[1..], crlf);
      if crlf {
        assert line + "\r\n" + rest == (line + "\r") + "\n" + rest;
        assert (line + "\r")[..|line|] == line;
        LinesCons(line + "\r", rest);
      } else {
        LinesCons(line, rest);
      }
    }
  }

  lemma {:induction false} RenderEnds(lines: seq<string>, crlf: bool)
    requires lines != [] && lines[|lines| - 1] != ""
    ensures var r, last := Render(lines, crlf), lines[|lines| - 1];
            r != "" && lines[0] <= r && r[|r| - 1] == last[|last| - 1]
  {
    if |lines| > 1 {
      RenderEnds(lines[1..], crlf);
    }
  }

  lemma {:induction false} BodyIsOneLiners(doc: seq<Section>)
    requires forall s :: s in doc ==> GoodSection(s)
    ensures OneLiners(BodyTexts(doc)) && BodyTexts(doc)[|BodyTexts(doc)| - 1] == END
  {
    if doc != [] {
      assert doc[0] in doc;
      BodyIsOneLiners(doc[1..]);
      var head, tail := SectionTexts(doc[0]), BodyTexts(doc[1..]);
      forall l | l in head + tail
        ensures '\n' !in l
      {
        assert l in head || l in tail;
      }
    }
  }

  /** The round trip: parsing a printed patch yields its meaning. */
  lemma PrintParses(doc: seq<Section>, crlf: bool)
    requires GoodDoc(doc)
    requires crlf || forall l :: l in DocTexts(doc) ==> StripCr(l) == l
    ensures Parse(Print(doc, crlf)) == Ok(Meanings(doc))
  {
    PrintedLines(doc, crlf);
    BodyReads(doc, []);
    AcceptedAfterBegin(Print(doc, crlf), BodyTexts(doc));
    assert [] + Meanings(doc) == Meanings(doc);
  }

  lemma AcceptedAfterBegin(text: string, body: seq<string>)
    requires Lines(Trim(text)) == [BEGIN] + body
    ensures Parse(text) == ParseOps(body, [])
  {
    TrimTrims(BEGIN);
    assert ([BEGIN] + body)[1..] == body;
  }

  lemma PrintedLines(doc: seq<Section>, crlf: bool)
    requires GoodDoc(doc)
    requires crlf || forall l :: l in DocTexts(doc) ==> StripCr(l) == l
    ensures Lines(Trim(Print(doc, crlf))) == DocTexts(doc)
  {
    DocTextsAreLines(doc);
    RenderedLines(DocTexts(doc), crlf);
  }

  /** Lines whose text starts and ends visibly come back, the text being trimmed already. */
  lemma RenderedLines(lines: seq<string>, crlf: bool)
    requires lines != [] && OneLiners(lines)
    requires Visible(lines[0]) && Visible(lines[|lines| - 1])
    requires crlf || forall l :: l in lines ==> StripCr(l) == l
    ensures Lines(Trim(Render(lines, crlf))) == lines
  {
    var text := Render(lines, crlf);
    RenderEnds(lines, crlf);
    PrefixChar(text, lines[0], 0);
    assert Trimmed(text);
    TrimTrims(text);
    LinesOfRender(lines, crlf);
  }

  predicate Visible(line: string) {
    line != "" && !IsSpace(line[0]) && !IsSpace(line[|line| - 1])
  }

  lemma DocTextsAreLines(doc: seq<Section>)
    requires GoodDoc(doc)
    ensures var lines := DocTexts(doc);
            OneLiners(lines) && lines != [] && Visible(lines[0]) && Visible(lines[|lines| - 1])
  {
    hide GoodSection, OneLiners;
    BodyIsOneLiners(doc);
    assert BodyTexts(doc) != [];
    OneLinersCons(BEGIN, BodyTexts(doc));
    assert Visible(BEGIN) && Visible(END);
  }

  lemma OneLinersCons(head: string, tail: seq<string>)
    requires '\n' !in head && OneLiners(tail) && tail != []
    ensures OneLiners([head] + tail) && ([head] + tail)[|tail|] == tail[|tail| - 1]
  {
  }

  // ---- what the parser can return ----

  ghost predicate GoodHunk(h: Hunk) {
    (h.find != [] || h.replace != []) && OneLiners(h.find) && OneLiners(h.replace)
  }

  ghost predicate GoodOp(op: FileOp) {
    GoodPath(op.path)
    && match op
       case Add(_, content) => content == "" || content[|content| - 1] == '\n'
       case Delete(_) => true
       case Update(_, hunks) => hunks != [] && forall h :: h in hunks ==> GoodHunk(h)
  }

  ghost predicate GoodOps(ops: seq<FileOp>) {
    ops != [] && forall op :: op in ops ==> GoodOp(op)
  }

  lemma {:induction false} AddBodyIsGood(lines: seq<string>, content: string)
    requires content == "" || content[|content| - 1] == '\n'
    requires AddBody(lines, content).Ok? && OneLiners(lines)
    ensures var (c, rest) := AddBody(lines, content).value;
            (c == "" || c[|c| - 1] == '\n') && OneLiners(rest)
  {
    if lines != [] && !StartsWith(lines[0], MARK) {
      AddBodyIsGood(lines[1..], content + lines[0][1..] + "\n");
    }
  }

  ghost predicate GoodState(st: HunkState) {
    OneLiners(st.find) && OneLiners(st.replace) && forall h :: h in st.done ==> GoodHunk(h)
  }

  lemma {:induction false} UpdateBodyIsGood(lines: seq<string>, st: HunkState)
    requires UpdateBody(lines, st).Ok? && OneLiners(lines) && GoodState(st)
    ensures var (hunks, rest) := UpdateBody(lines, st).value;
            (forall h :: h in hunks ==> GoodHunk(h)) && OneLiners(rest)
  {
    if lines != [] && !StartsWith(lines[0], MARK) {
      var next := HunkLine(lines[0], st).value;
      assert '\n' !in lines[0];
      assert GoodState(next);
      UpdateBodyIsGood(lines[1..], next);
    }
  }

  /** What a line that ends visibly has after its first n characters, trimmed, is a path. */
  lemma PathOfLine(line: string, n: nat)
    requires n < |line| && !IsSpace(line[|line| - 1]) && '\n' !in line
    ensures GoodPath(Trim(line[n..]))
  {
    var path := line[n..];
    TrimTrims(path);
    TrimShrinks(path);
    LastVisibleStays(path);
  }

  lemma ParsedPathIsGood(raw: string, prefix: string)
    requires prefix in {ADD, DELETE, UPDATE} && '\n' !in raw && StartsWith(TrimEnd(raw), prefix)
    ensures GoodPath(Trim(TrimEnd(raw)[|prefix|..]))
  {
    var line := TrimEnd(raw);
    TrimEndShape(raw);
    PrefixChar(line, prefix, |prefix| - 1);
    assert line[|prefix| - 1] == ' ';
    PathOfLine(line, |prefix|);
  }

  /** Trimming cannot empty a string whose last character is visible. */
  lemma {:induction false} LastVisibleStays(s: string)
    requires s != "" && !IsSpace(s[|s| - 1])
    ensures Trim(s) != ""
  {
    if IsSpace(s[0]) {
      LastVisibleStays(s[1..]);
    } else {
      FirstVisibleStays(s);
    }
  }

  lemma {:induction false} ParsedOpsAreGood(lines: seq<string>, ops: seq<FileOp>)
    requires ParseOps(lines, ops).Ok? && OneLiners(lines) && forall op :: op in ops ==> GoodOp(op)
    ensures GoodOps(ParseOps(lines, ops).value)
    decreases |lines|
  {
    var line := TrimEnd(lines[0]);
    assert '\n' !in lines[0];
    if Trim(line) == END {
    } else if StartsWith(line, ADD) {
      var (content, rest) := AddBody(lines[1..], "").value;
      AddBodyIsGood(lines[1..], "");
      ParsedPathIsGood(lines[0], ADD);
      ParsedOpsAreGood(rest, ops + [Add(Trim(line[|ADD|..]), content)]);
    } else if StartsWith(line, DELETE) {
      ParsedPathIsGood(lines[0], DELETE);
      ParsedOpsAreGood(lines[1..], ops + [Delete(Trim(line[|DELETE|..]))]);
    } else if StartsWith(line, UPDATE) {
      var (hunks, rest) := UpdateBody(lines[1..], HunkState([], [], [])).value;
      UpdateBodyIsGood(lines[1..], HunkState([], [], []));
      ParsedPathIsGood(lines[0], UPDATE);
      ParsedOpsAreGood(rest, ops + [Update(Trim(line[|UPDATE|..]), hunks)]);
    } else {
      ParsedOpsAreGood(lines[1..], ops);
    }
  }

  // ---- every well-formed operation list can be written ----

  function AllRemoved(lines: seq<string>): seq<EditLine> {
    if lines == [] then [] else [Removed(lines[0])] + AllRemoved(lines[1..])
  }

  function AllAdded(lines: seq<string>): seq<EditLine> {
    if lines == [] then [] else [Added(lines[0])] + AllAdded(lines[1..])
  }

  function HunkScript(h: Hunk): Script {
    Script("", AllRemoved(h.find) + AllAdded(h.replace))
  }

  function HunkScripts(hunks: seq<Hunk>): seq<Script> {
    if hunks == [] then [] else [HunkScript(hunks[0])] + HunkScripts(hunks[1..])
  }

  function OpSection(op: FileOp): Section {
    match op
    case Add(path, content) => var parts := Split(content, '\n'); AddSection(path, parts[..|parts| - 1])
    case Delete(path) => DeleteSection(path)
    case Update(path, hunks) => UpdateSection(path, HunkScripts(hunks))
  }

  function OpSections(ops: seq<FileOp>): seq<Section> {
    if ops == [] then [] else [OpSection(ops[0])] + OpSections(ops[1..])
  }

  lemma {:induction false} AddedScript(lines: seq<string>)
    requires OneLiners(lines)
    ensures Before(AllAdded(lines)) == [] && After(AllAdded(lines)) == lines
    ensures OneLiners(EditTexts(AllAdded(lines))) && |AllAdded(lines)| == |lines|
  {
    if lines != [] {
      assert lines[0] in lines;
      AddedScript(lines[1..]);
    }
  }

  lemma {:induction false} RemovedScript(lines: seq<string>)
    requires OneLiners(lines)
    ensures Before(AllRemoved(lines)) == lines && After(AllRemoved(lines)) == []
    ensures OneLiners(EditTexts(AllRemoved(lines))) && |AllRemoved(lines)| == |lines|
  {
    if lines != [] {
      assert lines[0] in lines;
      RemovedScript(lines[1..]);
    }
  }

  lemma {:induction false} BeforeConcat(a: seq<EditLine>, b: seq<EditLine>)
    ensures Before(a + b) == Before(a) + Before(b)
  {
    if a == [] {
      assert a + b == b && [] + Before(b) == Before(b);
    } else {
      BeforeConcat(a[1..], b);
      assert (a + b)[1..] == a[1..] + b;
      Assoc(Sought(a[0]), Before(a[1..]), Before(b));
    }
  }

  lemma {:induction false} AfterConcat(a: seq<EditLine>, b: seq<EditLine>)
    ensures After(a + b) == After(a) + After(b)
  {
    if a == [] {
      assert a + b == b && [] + After(b) == After(b);
    } else {
      AfterConcat(a[1..], b);
      assert (a + b)[1..] == a[1..] + b;
      Assoc(Put(a[0]), After(a[1..]), After(b));
    }
  }

  lemma {:induction false} TextsConcat(a: seq<EditLine>, b: seq<EditLine>)
    ensures EditTexts(a + b) == EditTexts(a) + EditTexts(b)
  {
    if a == [] {
      assert a + b == b && [] + EditTexts(b) == EditTexts(b);
    } else {
      TextsConcat(a[1..], b);
      assert (a + b)[1..] == a[1..] + b;
      Assoc([EditText(a[0])], EditTexts(a[1..]), EditTexts(b));
    }
  }

  lemma HunkScriptMeans(find: seq<string>, replace: seq<string>)
    requires OneLiners(find) && OneLiners(replace)
    ensures var edits := AllRemoved(find) + AllAdded(replace);
            Before(edits) == find && After(edits) == replace && OneLiners(EditTexts(edits)) && |edits| == |find| + |replace|
  {
    RemovedScript(find);
    AddedScript(replace);
    BeforeConcat(AllRemoved(find), AllAdded(replace));
    AfterConcat(AllRemoved(find), AllAdded(replace));
    TextsConcat(AllRemoved(find), AllAdded(replace));
    assert find + [] == find && [] + replace == replace;
  }

  lemma {:induction false} HunkScriptsMean(hunks: seq<Hunk>)
    requires forall h :: h in hunks ==> GoodHunk(h)
    ensures HunksOf(HunkScripts(hunks)) == hunks && OneLiners(ScriptTexts(HunkScripts(hunks)))
    ensures |HunkScripts(hunks)| == |hunks| && forall sc :: sc in HunkScripts(hunks) ==> sc.edits != []
  {
    if hunks != [] {
      var h := hunks[0];
      assert h in hunks;
      HunkScriptMeans(h.find, h.replace);
      HunkScriptsMean(hunks[1..]);
    }
  }

  lemma {:induction false} TerminatedParts(parts: seq<string>)
    requires parts != []
    ensures Terminated(parts[..|parts| - 1]) + parts[|parts| - 1] == Join(parts, '\n')
  {
    if |parts| > 1 {
      TerminatedParts(parts[1..]);
      assert parts[..|parts| - 1][1..] == parts[1..][..|parts| - 2];
    }
  }

  lemma AddSectionMeans(path: string, content: string)
    requires content == "" || content[|content| - 1] == '\n'
    ensures Meaning(OpSection(Add(path, content))) == Add(path, content)
    ensures OneLiners(Split(content, '\n'))
  {
    var parts := Split(content, '\n');
    SplitPieces(content, '\n');
    TerminatedParts(parts);
    var last := parts[|parts| - 1];
    assert last in parts;
    assert last == "";
  }

  lemma {:induction false} PlussedIsOneLiners(lines: seq<string>)
    requires OneLiners(lines)
    ensures OneLiners(Plussed(lines))
  {
    if lines != [] {
      assert lines[0] in lines;
      PlussedIsOneLiners(lines[1..]);
    }
  }

  lemma OpSectionMeans(op: FileOp)
    requires GoodOp(op)
    ensures GoodSection(OpSection(op)) && Meaning(OpSection(op)) == op
  {
    hide Split, Plussed, OneLiners, GoodPath, HunkScripts, HunksOf, ScriptTexts, Terminated;
    match op
    case Add(path, content) =>
      AddSectionMeans(path, content);
      var lines := OpSection(op).lines;
      AllButLast(Split(content, '\n'));
      PlussedIsOneLiners(lines);
      DirectiveTexts(ADD, path, Plussed(lines));
    case Delete(path) =>
      NoLines();
      DirectiveTexts(DELETE, path, []);
    case Update(path, hunks) =>
      HunkScriptsMean(hunks);
      DirectiveTexts(UPDATE, path, ScriptTexts(HunkScripts(hunks)));
  }

  lemma AllButLast(lines: seq<string>)
    requires lines != [] && OneLiners(lines)
    ensures OneLiners(lines[..|lines| - 1])
  {
  }

  lemma NoLines()
    ensures OneLiners([])
  {
  }

  /** A directive with the lines below it. */
  lemma DirectiveTexts(prefix: string, path: string, tail: seq<string>)
    requires prefix in {ADD, DELETE, UPDATE} && GoodPath(path) && OneLiners(tail)
    ensures OneLiners([prefix + path] + tail) && [prefix + path] + [] == [prefix + path]
  {
    hide Trim;
    forall c | c in prefix + path
      ensures c != '\n'
    {
      assert c in prefix || c in path;
    }
  }

  lemma {:induction false} OpSectionsMean(ops: seq<FileOp>)
    requires forall op :: op in ops ==> GoodOp(op)
    ensures Meanings(OpSections(ops)) == ops && |OpSections(ops)| == |ops|
    ensures forall s :: s in OpSections(ops) ==> GoodSection(s)
  {
    hide GoodOp, GoodSection, OpSection, Meaning;
    if ops != [] {
      assert ops[0] in ops;
      OpSectionMeans(ops[0]);
      OpSectionsMean(ops[1..]);
    }
  }

  /** The parser's results are exactly the well-formed operation lists, and every one of them is
      reached by printing it. */
  lemma ParserImage(ops: seq<FileOp>)
    ensures GoodOps(ops) <==> exists text :: Parse(text) == Ok(ops)
    ensures GoodOps(ops) ==> Parse(Print(OpSections(ops), true)) == Ok(ops)
  {
    if GoodOps(ops) {
      OpSectionsMean(ops);
      PrintParses(OpSections(ops), true);
    }
    forall text | Parse(text) == Ok(ops)
      ensures GoodOps(ops)
    {
      var lines := Lines(Trim(text));
      LinesHaveNoNewline(Trim(text));
      ParsedOpsAreGood(lines[1..], []);
    }
  }
}
