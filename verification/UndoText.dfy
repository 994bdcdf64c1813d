/**
 Undoing hunks on whole texts: when the text written out from the edited lines reads back as those
 lines, so that the reversed list of swapped hunks gives the old text again, and when it does not.
 */
module UndoText {
  import opened Text
  import opened Patch
  import opened Hunks

  // ---- lines written out and read back ----

  lemma CrFree(lines: seq<string>)
    requires forall l :: l in lines ==> StripCr(l) == l
    ensures StripCrs(lines) == lines
  {
    assert forall i :: 0 <= i < |lines| ==> lines[i] in lines;
  }

  lemma {:induction false} JoinSnoc(lines: seq<string>)
    requires lines != []
    ensures Join(lines + [""], '\n') == Join(lines, '\n') + "\n"
  {
    if |lines| > 1 {
      JoinSnoc(lines[1..]);
      assert (lines + [""])[1..] == lines[1..] + [""];
    } else {
      assert (lines + [""])[1..] == [""];
    }
  }

  ghost predicate HasCrLf(s: string) {
    exists i :: 0 <= i < |s| - 1 && s[i] == '\r' && s[i + 1] == '\n'
  }

  lemma {:induction false} PartBeforeNewline(parts: seq<string>, i: nat)
    requires i + 1 < |parts| && StripCr(parts[i]) != parts[i]
    ensures HasCrLf(Join(parts, '\n'))
  {
    var s := Join(parts, '\n');
    if i == 0 {
      var k := |parts[0]| - 1;
      assert s[k] == '\r' && s[k + 1] == '\n';
    } else {
      PartBeforeNewline(parts[1..], i - 1);
      var t := Join(parts[1..], '\n');
      var k :| 0 <= k < |t| - 1 && t[k] == '\r' && t[k + 1] == '\n';
      var off := |parts[0]| + 1;
      assert s[off + k] == '\r' && s[off + k + 1] == '\n';
    }
  }

  lemma {:induction false} NewlineAfterPart(parts: seq<string>)
    requires parts != [] && (forall p :: p in parts ==> '\n' !in p) && forall i :: 0 <= i < |parts| - 1 ==> StripCr(parts[i]) == parts[i]
    ensures !HasCrLf(Join(parts, '\n'))
  {
    var s, first := Join(parts, '\n'), parts[0];
    assert first in parts;
    assert forall k :: 0 <= k < |first| ==> s[k] == first[k] && first[k] in first;
    if |parts| > 1 {
      NewlineAfterPart(parts[1..]);
      var t := Join(parts[1..], '\n');
      assert forall k :: 0 <= k < |t| ==> s[|first| + 1 + k] == t[k];
      forall k | 0 <= k < |s| - 1 && s[k] == '\r'
        ensures s[k + 1] != '\n'
      {
        if k > |first| {
          assert s[k] == t[k - |first| - 1] && s[k + 1] == t[k - |first|];
        }
      }
    }
  }

  /** A text holds `\r\n` exactly if a part that ends at a newline ends with a carriage return. */
  lemma CrLfExactly(parts: seq<string>)
    requires parts != [] && forall p :: p in parts ==> '\n' !in p
    ensures HasCrLf(Join(parts, '\n')) <==> exists i :: 0 <= i < |parts| - 1 && StripCr(parts[i]) != parts[i]
  {
    if i :| 0 <= i < |parts| - 1 && StripCr(parts[i]) != parts[i] {
      PartBeforeNewline(parts, i);
    } else {
      NewlineAfterPart(parts);
    }
  }

  lemma {:induction false} LastChar(parts: seq<string>)
    requires parts != [] && forall p :: p in parts ==> '\n' !in p
    ensures HadTrailingNewline(Join(parts, '\n')) <==> parts[|parts| - 1] == ""
  {
    if |parts| > 1 {
      LastChar(parts[1..]);
      var t := Join(parts[1..], '\n');
      assert t == "" ==> Join(parts, '\n')[|parts[0]|] == '\n';
    } else {
      assert parts[0] in parts;
      assert parts[0] != "" ==> parts[0][|parts[0]| - 1] in parts[0];
    }
  }

  /** Text whose parts are known, read by lines. */
  lemma LinesOfParts(parts: seq<string>)
    requires parts != [] && forall p :: p in parts ==> '\n' !in p
    ensures var text := Join(parts, '\n');
            Lines(text) == StripCrs(parts[..|parts| - 1]) + if HadTrailingNewline(text) then [] else [parts[|parts| - 1]]
  {
    SplitJoin(parts, '\n');
    LastChar(parts);
  }

  /** The parts a text is written out from. */
  function PartsOf(lines: seq<string>, trailing: bool): seq<string> {
    if lines == [] then [""] else if trailing && lines != [""] then lines + [""] else lines
  }

  lemma {:induction false} EmptyJoin(lines: seq<string>)
    ensures Join(lines, '\n') == "" <==> lines == [] || lines == [""]
  {
  }

  lemma ContentParts(lines: seq<string>, trailing: bool)
    ensures Content(lines, trailing) == Join(PartsOf(lines, trailing), '\n') && PartsOf(lines, trailing) != []
  {
    EmptyJoin(lines);
    if lines != [] {
      JoinSnoc(lines);
    }
  }

  /** Lines without newlines are read back, if no `\r\n` and no other end of text came about. */
  lemma ReadsBack(lines: seq<string>, trailing: bool)
    requires forall l :: l in lines ==> '\n' !in l
    requires var text := Content(lines, trailing); !HasCrLf(text) && HadTrailingNewline(text) == trailing
    requires trailing ==> lines != [""]
    ensures Lines(Content(lines, trailing)) == lines
  {
    var parts := PartsOf(lines, trailing);
    ContentParts(lines, trailing);
    LinesOfParts(parts);
    CrLfExactly(parts);
    LastChar(parts);
    var most := parts[..|parts| - 1];
    assert forall l :: l in most ==> StripCr(l) == l by {
      assert forall i :: 0 <= i < |most| ==> most[i] == parts[i];
    }
    CrFree(most);
  }

  /** Content without `\r\n` and other than a single newline is what its lines write out. */
  lemma ContentOfLines(content: string)
    requires !HasCrLf(content) && content != "\n"
    ensures Content(Lines(content), HadTrailingNewline(content)) == content
  {
    SplitPieces(content, '\n');
    var parts := Split(content, '\n');
    var most, last := parts[..|parts| - 1], parts[|parts| - 1];
    assert parts == most + [last];
    LastChar(parts);
    CrLfExactly(parts);
    assert forall i :: 0 <= i < |most| ==> most[i] == parts[i];
    CrFree(most);
    assert forall l :: l in most ==> StripCr(l) == l;
    assert most + [] == most;
    if last != "" {
      assert Lines(content) == parts;
    } else {
      assert Lines(content) == most;
      EmptyJoin(most);
      if most != [] {
        JoinSnoc(most);
        assert content == Join(most, '\n') + "\n";
      }
    }
  }

  // ---- the length of a text through its lines ----

  /** The characters of the lines, each with an end of line. */
  function Weight(lines: seq<string>): nat {
    if lines == [] then 0 else |lines[0]| + 1 + Weight(lines[1..])
  }

  lemma {:induction false} WeightConcat(a: seq<string>, b: seq<string>)
    ensures Weight(a + b) == Weight(a) + Weight(b)
  {
    if a == [] {
      assert a + b == b;
    } else {
      assert (a + b)[1..] == a[1..] + b;
      WeightConcat(a[1..], b);
    }
  }

  lemma {:induction false} JoinLength(lines: seq<string>)
    requires lines != []
    ensures |Join(lines, '\n')| == Weight(lines) - 1
  {
    if |lines| > 1 {
      JoinLength(lines[1..]);
    }
  }

  function WeightDelta(hunks: seq<Hunk>): int {
    if hunks == [] then 0 else Weight(hunks[0].replace) - Weight(hunks[0].find) + WeightDelta(hunks[1..])
  }

  lemma OneHunkWeighs(lines: seq<string>, h: Hunk, i: nat)
    requires ApplyOne(lines, h, i).Applied?
    ensures Weight(ApplyOne(lines, h, i).value) == Weight(lines) + Weight(h.replace) - Weight(h.find)
  {
    hide Weight;
    var next := ApplyOne(lines, h, i).value;
    NoWeight();
    if h.find == [] {
      WeightConcat(lines, h.replace);
    } else {
      HunkMeaning(lines, h, i, next);
      var at: nat :| OnlyAt(lines, h.find, at) && next == Splice(lines, at, |h.find|, h.replace);
      var end := at + |h.find|;
      assert lines == lines[..at] + h.find + lines[end..];
      WeightConcat(lines[..at], h.find);
      WeightConcat(lines[..at] + h.find, lines[end..]);
      WeightConcat(lines[..at], h.replace);
      WeightConcat(lines[..at] + h.replace, lines[end..]);
    }
  }

  lemma NoWeight()
    ensures Weight([]) == 0
  {
  }

  lemma {:induction false} HunksWeigh(lines: seq<string>, hunks: seq<Hunk>, i: nat)
    requires ApplyLines(lines, hunks, i).Applied?
    ensures Weight(ApplyLines(lines, hunks, i).value) == Weight(lines) + WeightDelta(hunks)
    decreases |hunks|
  {
    hide Weight, ApplyOne;
    if hunks != [] {
      OneHunkWeighs(lines, hunks[0], i);
      HunksWeigh(ApplyOne(lines, hunks[0], i).value, hunks[1..], i + 1);
    }
  }

  lemma {:induction false} DeltaSnoc(hunks: seq<Hunk>, h: Hunk)
    ensures WeightDelta(hunks + [h]) == WeightDelta(hunks) + Weight(h.replace) - Weight(h.find)
  {
    hide Weight;
    if hunks == [] {
      assert [h][1..] == [];
      assert [] + [h] == [h];
    } else {
      assert (hunks + [h])[1..] == hunks[1..] + [h];
      DeltaSnoc(hunks[1..], h);
    }
  }

  lemma {:induction false} UndoWeighsBack(hunks: seq<Hunk>)
    ensures WeightDelta(Undo(hunks)) == -WeightDelta(hunks)
  {
    if hunks != [] {
      UndoWeighsBack(hunks[1..]);
      DeltaSnoc(Undo(hunks[1..]), Swap(hunks[0]));
    }
  }

  lemma {:induction false} StripWeighs(lines: seq<string>)
    ensures Weight(StripCrs(lines)) <= Weight(lines)
    ensures Weight(StripCrs(lines)) == Weight(lines) <==> forall i :: 0 <= i < |lines| ==> StripCr(lines[i]) == lines[i]
  {
    if lines != [] {
      StripWeighs(lines[1..]);
      assert StripCrs(lines)[1..] == StripCrs(lines[1..]);
      assert forall i :: 0 < i < |lines| ==> lines[i] == lines[1..][i - 1];
      assert forall i :: 0 <= i < |lines| - 1 ==> lines[1..][i] == lines[i + 1];
    }
  }

  function Open(text: string): nat {
    if HadTrailingNewline(text) then 0 else 1
  }

  /** Reading a text by lines loses length exactly if it holds `\r\n`. */
  lemma LinesWeigh(text: string)
    ensures Weight(Lines(text)) <= |text| + Open(text)
    ensures Weight(Lines(text)) == |text| + Open(text) <==> !HasCrLf(text)
  {
    SplitPieces(text, '\n');
    var parts := Split(text, '\n');
    var most, last := parts[..|parts| - 1], parts[|parts| - 1];
    assert parts == most + [last];
    LinesOfParts(parts);
    LastChar(parts);
    CrLfExactly(parts);
    JoinLength(parts);
    StripWeighs(most);
    WeightConcat(most, [last]);
    WeightConcat(StripCrs(most), if HadTrailingNewline(text) then [] else [last]);
    assert forall i :: 0 <= i < |most| ==> most[i] == parts[i];
  }

  /** Writing lines out loses length if they are a single empty line. */
  lemma ContentWeighs(lines: seq<string>, trailing: bool)
    ensures trailing ==> HadTrailingNewline(Content(lines, trailing))
                         && |Content(lines, trailing)| == Weight(lines) - (if lines == [""] then 1 else 0)
    ensures !trailing && lines != [] ==> |Content(lines, trailing)| == Weight(lines) - 1
  {
    EmptyJoin(lines);
    if lines != [] {
      JoinLength(lines);
    }
  }

  // ---- undoing on texts ----

  /** No new line holds a newline, as in every hunk that was parsed. */
  ghost predicate NewLinesWhole(hunks: seq<Hunk>) {
    forall h, l :: h in hunks && l in h.replace ==> '\n' !in l
  }

  lemma {:induction false} EditedLinesWhole(lines: seq<string>, hunks: seq<Hunk>, i: nat)
    requires (forall l :: l in lines ==> '\n' !in l) && NewLinesWhole(hunks) && ApplyLines(lines, hunks, i).Applied?
    ensures forall l :: l in ApplyLines(lines, hunks, i).value ==> '\n' !in l
    decreases |hunks|
  {
    if hunks != [] {
      var h := hunks[0];
      var next := ApplyOne(lines, h, i).value;
      if h.find != [] {
        HunkMeaning(lines, h, i, next);
      }
      forall l | l in next
        ensures '\n' !in l
      {
        assert l in lines || l in h.replace;
      }
      EditedLinesWhole(next, hunks[1..], i + 1);
    }
  }

  /** The text between keeps what it must: it holds no `\r\n`, has the same kind of end, and is not
      the empty text for a single empty line. */
  ghost predicate Faithful(lines: seq<string>, trailing: bool) {
    var text := Content(lines, trailing);
    !HasCrLf(text) && HadTrailingNewline(text) == trailing && (trailing ==> lines != [""])
  }

  /** A reversible edit of a text is undone by the reversed list of swapped hunks exactly if the
      old text holds no `\r\n` and is no single newline, and the edited lines are written out
      faithfully. */
  lemma UndoRestoresText(content: string, hunks: seq<Hunk>)
    requires Reversible(Lines(content), hunks) && NewLinesWhole(hunks)
    ensures Apply(content, hunks).Applied?
    ensures Apply(Apply(content, hunks).value, Undo(hunks)) == Applied(content)
            <==> !HasCrLf(content) && content != "\n"
                 && Faithful(ApplyLines(Lines(content), hunks, 0).value, HadTrailingNewline(content))
  {
    hide Content, Lines, HasCrLf, HadTrailingNewline;
    var trailing := HadTrailingNewline(content);
    UndoRestores(Lines(content), hunks, 0, 0);
    var lines := ApplyLines(Lines(content), hunks, 0).value;
    if !HasCrLf(content) && content != "\n" && Faithful(lines, trailing) {
      LinesHaveNoNewline(content);
      EditedLinesWhole(Lines(content), hunks, 0);
      ReadsBack(lines, trailing);
      ContentOfLines(content);
    } else {
      var again := ApplyLines(Lines(Content(lines, trailing)), Undo(hunks), 0);
      if again.Applied? {
        HunksWeigh(Lines(content), hunks, 0);
        HunksWeigh(Lines(Content(lines, trailing)), Undo(hunks), 0);
        UndoWeighsBack(hunks);
        LossShows(content, lines, again.value, WeightDelta(hunks));
      }
    }
  }

  /** What is lost on the way shows in the length of the text, or in its end. */
  lemma LossShows(content: string, lines: seq<string>, back: seq<string>, delta: int)
    requires var trailing := HadTrailingNewline(content);
             Weight(lines) == Weight(Lines(content)) + delta && Weight(back) == Weight(Lines(Content(lines, trailing))) - delta
             && (HasCrLf(content) || content == "\n" || !Faithful(lines, trailing))
    ensures var text := Content(lines, HadTrailingNewline(content)); Content(back, HadTrailingNewline(text)) != content
  {
    hide Weight, Lines, HasCrLf;
    var text := Content(lines, HadTrailingNewline(content));
    LinesWeigh(content);
    LinesWeigh(text);
    ContentWeighs(lines, HadTrailingNewline(content));
    ContentWeighs(back, HadTrailingNewline(text));
  }

  /** For one: a last line left empty in a text without a final newline reads back as the end of the
      line before, and undoing seeks more lines than are left. */
  lemma BlankLastLineIsNotUndone()
    ensures var hunks := [Hunk(["a"], ["b", ""])];
            Reversible(Lines("a"), hunks) && Apply("a", hunks) == Applied("b\n")
            && Apply("b\n", Undo(hunks)) == SliceOutOfRange(0)
  {
    hide ApplyOne, Lines;
    var h := Hunk(["a"], ["b", ""]);
    ReadAandB();
    ReplacesA(h, 0);
    OneHunk(["a"], h);
    assert Undo([]) + [Swap(h)] == [Swap(h)] && [h][1..] == [];
    OneHunk(["b"], Swap(h));
    SeeksTwo(Swap(h));
  }

  lemma ReadAandB()
    ensures Lines("a") == ["a"] && Lines("b\n") == ["b"]
    ensures Content(["b", ""], false) == "b\n" && !HadTrailingNewline("a")
  {
    SplitPlain("a", '\n');
    SplitAfter("b", "", '\n');
    assert "b" + ['\n'] + "" == "b\n";
    assert ["a"][..0] == [] && ["b", ""][..1] == ["b"] && ["b", ""][1..] == [""];
  }

  lemma ReplacesA(h: Hunk, i: nat)
    requires h == Hunk(["a"], ["b", ""])
    ensures ApplyOne(["a"], h, i) == Applied(["b", ""]) && OneWayBack(["a"], h, ["b", ""])
  {
    assert ["a"][0..1] == ["a"] && ["a"][..0] + ["b", ""] + ["a"][1..] == ["b", ""];
    assert OnlyAt(["a"], ["a"], 0);
    HunkMeaning(["a"], h, i, ["b", ""]);
    assert ["b", ""][0..2] == ["b", ""];
    assert OnlyAt(["b", ""], ["b", ""], 0);
  }

  lemma SeeksTwo(h: Hunk)
    requires h == Hunk(["b", ""], ["a"])
    ensures ApplyOne(["b"], h, 0) == SliceOutOfRange(0)
  {
  }

  lemma OneHunk(lines: seq<string>, h: Hunk)
    ensures ApplyLines(lines, [h], 0) == ApplyOne(lines, h, 0)
    ensures ApplyOne(lines, h, 0).Applied? && OneWayBack(lines, h, ApplyOne(lines, h, 0).value) ==> Reversible(lines, [h])
  {
    hide ApplyOne;
    assert [h][1..] == [];
  }

  /** The single newline is lost even by an empty edit, so it cannot be restored. */
  lemma SingleNewlineIsLost()
    ensures Apply("\n", []) == Applied("")
  {
    assert Split("\n", '\n') == ["", ""];
    assert ["", ""][..1] == [""];
    assert Lines("\n") == [""];
  }
}
