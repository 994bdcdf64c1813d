/**
 Applying edits to file text: `apply_hunks`, which splices line blocks that must occur exactly
 once, and `str_replace`, which replaces an exact substring.
 */
module Hunks {
  import opened Wrappers
  import opened Text
  import opened Patch

  // ---- blocks of lines ----

  predicate BlockAt(lines: seq<string>, block: seq<string>, at: nat) {
    at + |block| <= |lines| && lines[at..at + |block|] == block
  }

  /** The block occurs at `at` and nowhere else. */
  ghost predicate OnlyAt(lines: seq<string>, block: seq<string>, at: nat) {
    BlockAt(lines, block, at) && forall k: nat :: BlockAt(lines, block, k) ==> k == at
  }

  function Splice(lines: seq<string>, at: nat, n: nat, block: seq<string>): seq<string>
    requires at + n <= |lines|
  {
    lines[..at] + block + lines[at + n..]
  }

  /** How applying stops: with the edited text, with the error naming the hunk, or with a slice
      out of range, which aborts the caller. */
  datatype Outcome<T> =
    | Applied(value: T)
    | NotFound(hunk: nat)
    | Ambiguous(hunk: nat, count: nat)
    | SliceOutOfRange(hunk: nat)

  /** All places from `from` on where the block occurs, ascending. */
  function Places(lines: seq<string>, block: seq<string>, from: nat): (r: seq<nat>)
    requires |block| <= |lines| && from <= |lines| - |block| + 1
    ensures forall k :: k in r ==> k + |block| <= |lines|
    decreases |lines| + 1 - from
  {
    if from == |lines| - |block| + 1 then []
    else (if BlockAt(lines, block, from) then [from] else []) + Places(lines, block, from + 1)
  }

  lemma {:induction false} PlacesAreAll(lines: seq<string>, block: seq<string>, from: nat)
    requires |block| <= |lines| && from <= |lines| - |block| + 1
    ensures forall k: nat :: k in Places(lines, block, from) <==> from <= k && BlockAt(lines, block, k)
    ensures var ps := Places(lines, block, from); ps != [] ==> from <= ps[0] && BlockAt(lines, block, ps[0])
    decreases |lines| + 1 - from
  {
    if from <= |lines| - |block| {
      PlacesAreAll(lines, block, from + 1);
    }
  }

  lemma {:induction false} SinglePlace(lines: seq<string>, block: seq<string>, from: nat, at: nat)
    requires |block| <= |lines| && from <= at && BlockAt(lines, block, at)
    requires forall k: nat :: from <= k && BlockAt(lines, block, k) ==> k == at
    ensures Places(lines, block, from) == [at]
    decreases |lines| + 1 - from
  {
    if from < at {
      SinglePlace(lines, block, from + 1, at);
    } else {
      PlacesAreAll(lines, block, from + 1);
    }
  }

  /** There is one place exactly when the block occurs in one place only. */
  lemma OnePlace(lines: seq<string>, block: seq<string>, at: nat)
    requires |block| <= |lines|
    ensures OnlyAt(lines, block, at) <==> Places(lines, block, 0) == [at]
  {
    PlacesAreAll(lines, block, 0);
    if OnlyAt(lines, block, at) {
      SinglePlace(lines, block, 0, at);
    }
    if Places(lines, block, 0) == [at] {
      assert at in Places(lines, block, 0);
    }
  }

  function ApplyOne(lines: seq<string>, h: Hunk, i: nat): Outcome<seq<string>> {
    if h.find == [] then Applied(lines + h.replace)
    else if |h.find| > |lines| then SliceOutOfRange(i)
    else
      var ps := Places(lines, h.find, 0);
      if |ps| == 0 then NotFound(i)
      else if |ps| == 1 then assert ps[0] in ps; Applied(Splice(lines, ps[0], |h.find|, h.replace))
      else Ambiguous(i, |ps|)
  }

  /** Hunks are applied in order, numbered from `i`, each to the result of the one before. */
  function ApplyLines(lines: seq<string>, hunks: seq<Hunk>, i: nat): Outcome<seq<string>>
    decreases |hunks|
  {
    if hunks == [] then Applied(lines)
    else
      match ApplyOne(lines, hunks[0], i)
      case Applied(next) => ApplyLines(next, hunks[1..], i + 1)
      case NotFound(k) => NotFound(k)
      case Ambiguous(k, n) => Ambiguous(k, n)
      case SliceOutOfRange(k) => SliceOutOfRange(k)
  }

  predicate HadTrailingNewline(content: string) {
    content == "" || content[|content| - 1] == '\n'
  }

  function Content(lines: seq<string>, trailing: bool): string {
    var out := Join(lines, '\n');
    if trailing && out != "" then out + "\n" else out
  }

  function Apply(content: string, hunks: seq<Hunk>): Outcome<string> {
    match ApplyLines(Lines(content), hunks, 0)
    case Applied(lines) => Applied(Content(lines, HadTrailingNewline(content)))
    case NotFound(k) => NotFound(k)
    case Ambiguous(k, n) => Ambiguous(k, n)
    case SliceOutOfRange(k) => SliceOutOfRange(k)
  }

  /** `apply_hunks`: the line vector is edited in place, hunk after hunk. The slice taken at
      each start is out of range when the block is longer than the file; that is the
      `SliceOutOfRange` outcome. */
  method ApplyHunks(content: string, hunks: seq<Hunk>) returns (r: Outcome<string>)
    ensures r == Apply(content, hunks)
  {
    var lines := Lines(content);
    var i := 0;
    while i < |hunks|
      invariant 0 <= i <= |hunks|
      invariant ApplyLines(lines, hunks[i..], i) == ApplyLines(Lines(content), hunks, 0)
    {
      var hunk := hunks[i];
      assert hunks[i..][1..] == hunks[i + 1..];
      if hunk.find == [] {
        lines := lines + hunk.replace;
        i := i + 1;
        continue;
      }
      if |hunk.find| > |lines| {
        return SliceOutOfRange(i);
      }
      var positions := FindPlaces(lines, hunk.find);
      PlacesAreAll(lines, hunk.find, 0);
      if |positions| == 0 {
        return NotFound(i);
      } else if |positions| == 1 {
        assert positions[0] in positions;
        lines := Splice(lines, positions[0], |hunk.find|, hunk.replace);
      } else {
        return Ambiguous(i, |positions|);
      }
      i := i + 1;
    }
    assert hunks[i..] == [];
    return Applied(Content(lines, HadTrailingNewline(content)));
  }

  lemma NextPlace(lines: seq<string>, block: seq<string>, start: nat, positions: seq<nat>)
    requires |block| <= |lines| && start <= |lines| - |block|
    ensures positions + Places(lines, block, start)
            == (if BlockAt(lines, block, start) then positions + [start] else positions) + Places(lines, block, start + 1)
  {
    hide BlockAt;
    Assoc(positions, if BlockAt(lines, block, start) then [start] else [], Places(lines, block, start + 1));
    assert [] + Places(lines, block, start + 1) == Places(lines, block, start + 1);
  }

  method FindPlaces(lines: seq<string>, block: seq<string>) returns (positions: seq<nat>)
    requires |block| <= |lines|
    ensures positions == Places(lines, block, 0)
  {
    hide BlockAt, Places;
    positions := [];
    var start := 0;
    assert [] + Places(lines, block, 0) == Places(lines, block, 0);
    while start < |lines| - |block| + 1
      invariant 0 <= start <= |lines| - |block| + 1
      invariant positions + Places(lines, block, start) == Places(lines, block, 0)
    {
      NextPlace(lines, block, start, positions);
      if BlockAt(lines, block, start) {
        positions := positions + [start];
      }
      start := start + 1;
    }
    NoMorePlaces(lines, block);
    assert positions + [] == positions;
  }

  lemma NoMorePlaces(lines: seq<string>, block: seq<string>)
    requires |block| <= |lines|
    ensures Places(lines, block, |lines| - |block| + 1) == []
  {
  }

  // ---- what one hunk does ----

  /** A hunk with something to find succeeds exactly when its block occurs in one place, and
      then it replaces that block and leaves every other line as it was. */
  lemma HunkMeaning(lines: seq<string>, h: Hunk, i: nat, next: seq<string>)
    requires h.find != []
    ensures ApplyOne(lines, h, i) == Applied(next)
            <==> exists at: nat :: OnlyAt(lines, h.find, at) && next == Splice(lines, at, |h.find|, h.replace)
  {
    if |h.find| <= |lines| {
      forall at: nat
        ensures OnlyAt(lines, h.find, at) <==> Places(lines, h.find, 0) == [at]
      {
        OnePlace(lines, h.find, at);
      }
      var ps := Places(lines, h.find, 0);
      if |ps| == 1 {
        assert ps == [ps[0]];
        assert OnlyAt(lines, h.find, ps[0]);
      }
    }
  }

  function LineDelta(hunks: seq<Hunk>): int {
    if hunks == [] then 0 else |hunks[0].replace| - |hunks[0].find| + LineDelta(hunks[1..])
  }

  lemma {:induction false} PlacesCount(lines: seq<string>, block: seq<string>, from: nat, all: set<nat>)
    requires |block| <= |lines| && from <= |lines| - |block| + 1
    requires forall k: nat :: k in all <==> from <= k && BlockAt(lines, block, k)
    ensures |Places(lines, block, from)| == |all|
    decreases |lines| + 1 - from
  {
    if from <= |lines| - |block| {
      PlacesCount(lines, block, from + 1, all - {from});
      assert from in all ==> |all - {from}| == |all| - 1;
      assert from !in all ==> all - {from} == all;
    } else {
      assert all == {};
    }
  }

  /** What becomes of a hunk, by the places where its block occurs: one that seeks nothing is added at
      the end; none is `NotFound`, more than one `Ambiguous` with their number; and a block longer
      than the text aborts. */
  lemma HunkFails(lines: seq<string>, h: Hunk, i: nat, all: set<nat>)
    requires forall k: nat :: k in all <==> BlockAt(lines, h.find, k)
    ensures ApplyOne(lines, h, i).Applied? <==> h.find == [] || |all| == 1
    ensures h.find == [] ==> ApplyOne(lines, h, i) == Applied(lines + h.replace)
    ensures ApplyOne(lines, h, i) == SliceOutOfRange(i) <==> |h.find| > |lines|
    ensures ApplyOne(lines, h, i) == NotFound(i) <==> h.find != [] && |h.find| <= |lines| && all == {}
    ensures forall n: nat :: ApplyOne(lines, h, i) == Ambiguous(i, n) <==> h.find != [] && n == |all| && n > 1
  {
    if h.find != [] {
      if |h.find| <= |lines| {
        PlacesCount(lines, h.find, 0, all);
      } else {
        assert all == {};
      }
    }
  }

  lemma OneLineCount(lines: seq<string>, h: Hunk, i: nat)
    requires ApplyOne(lines, h, i).Applied?
    ensures |ApplyOne(lines, h, i).value| == |lines| + |h.replace| - |h.find|
  {
    if h.find != [] {
      HunkMeaning(lines, h, i, ApplyOne(lines, h, i).value);
    }
  }

  /** The line count changes by exactly what the hunks add and remove. */
  lemma {:induction false} LineCount(lines: seq<string>, hunks: seq<Hunk>, i: nat)
    requires ApplyLines(lines, hunks, i).Applied?
    ensures |ApplyLines(lines, hunks, i).value| == |lines| + LineDelta(hunks)
    decreases |hunks|
  {
    if hunks != [] {
      OneLineCount(lines, hunks[0], i);
      LineCount(ApplyOne(lines, hunks[0], i).value, hunks[1..], i + 1);
    }
  }

  lemma {:induction false} ApplyInTwoParts(lines: seq<string>, first: seq<Hunk>, second: seq<Hunk>, i: nat)
    ensures var mid := ApplyLines(lines, first, i);
            ApplyLines(lines, first + second, i)
            == if mid.Applied? then ApplyLines(mid.value, second, i + |first|) else mid
    decreases |first|
  {
    if first == [] {
      assert first + second == second;
    } else {
      assert (first + second)[1..] == first[1..] + second;
      var one := ApplyOne(lines, first[0], i);
      if one.Applied? {
        ApplyInTwoParts(one.value, first[1..], second, i + 1);
      }
    }
  }

  /** The documented contract has only two errors, but a third ending exists. It is reached at
      hunk `k` exactly when the hunks before it apply and its block has more lines than the
      file then has, a count known from the hunks alone. */
  lemma AbortsExactly(lines: seq<string>, hunks: seq<Hunk>, k: nat)
    ensures ApplyLines(lines, hunks, 0) == SliceOutOfRange(k)
            <==> k < |hunks| && ApplyLines(lines, hunks[..k], 0).Applied?
                 && |hunks[k].find| > 0 && |hunks[k].find| > |lines| + LineDelta(hunks[..k])
  {
    if k < |hunks| && ApplyLines(lines, hunks[..k], 0).Applied? {
      AtHunk(lines, hunks, k);
      LineCount(lines, hunks[..k], 0);
    }
    if ApplyLines(lines, hunks, 0) == SliceOutOfRange(k) {
      StopsInside(lines, hunks, 0, k);
    }
  }

  /** Once the first `k` hunks have applied, hunk `k` decides whether the slice at `k` is out of range. */
  lemma AtHunk(lines: seq<string>, hunks: seq<Hunk>, k: nat)
    requires k < |hunks| && ApplyLines(lines, hunks[..k], 0).Applied?
    ensures ApplyLines(lines, hunks, 0) == SliceOutOfRange(k)
            <==> ApplyOne(ApplyLines(lines, hunks[..k], 0).value, hunks[k], k) == SliceOutOfRange(k)
  {
    var mid := ApplyLines(lines, hunks[..k], 0).value;
    ApplyInTwoParts(lines, hunks[..k], hunks[k..], 0);
    assert hunks[..k] + hunks[k..] == hunks;
    var one := ApplyOne(mid, hunks[k], k);
    if one.Applied? {
      StopsFrom(one.value, hunks[k..][1..], k + 1);
    }
  }

  /** A failure names a hunk of the list it was reached in. */
  lemma {:induction false} StopsFrom(lines: seq<string>, hunks: seq<Hunk>, i: nat)
    ensures forall j: nat :: j < i ==> ApplyLines(lines, hunks, i) != SliceOutOfRange(j)
    decreases |hunks|
  {
    if hunks != [] && ApplyOne(lines, hunks[0], i).Applied? {
      StopsFrom(ApplyOne(lines, hunks[0], i).value, hunks[1..], i + 1);
    }
  }

  lemma {:induction false} StopsInside(lines: seq<string>, hunks: seq<Hunk>, i: nat, k: nat)
    requires ApplyLines(lines, hunks, i) == SliceOutOfRange(k)
    ensures i <= k < i + |hunks| && ApplyLines(lines, hunks[..k - i], i).Applied?
    decreases |hunks|
  {
    var one := ApplyOne(lines, hunks[0], i);
    if one.Applied? {
      StopsInside(one.value, hunks[1..], i + 1, k);
      assert hunks[..k - i][1..] == hunks[1..][..k - i - 1];
    }
  }

  // ---- undoing hunks ----

  function Swap(h: Hunk): Hunk {
    Hunk(h.replace, h.find)
  }

  function Undo(hunks: seq<Hunk>): seq<Hunk> {
    if hunks == [] then [] else Undo(hunks[1..]) + [Swap(hunks[0])]
  }

  /** The new block is unique in the new lines; or nothing is put in its place, and the block
      taken away, if any, stood at the end. */
  ghost predicate OneWayBack(lines: seq<string>, h: Hunk, next: seq<string>) {
    if h.replace != [] then exists at: nat :: OnlyAt(next, h.replace, at)
    else |h.find| <= |lines| && lines[|lines| - |h.find|..] == h.find
  }

  /** Swapping find and replace undoes a hunk, be it a replacement, an addition or a deletion,
      exactly when the new block is unique, or, for a hunk that only deletes, when the deleted
      block stood at the end. */
  lemma UndoOneExactly(lines: seq<string>, h: Hunk, i: nat, j: nat)
    requires ApplyOne(lines, h, i).Applied?
    ensures var next := ApplyOne(lines, h, i).value;
            ApplyOne(next, Swap(h), j) == Applied(lines) <==> OneWayBack(lines, h, next)
  {
    if h.find == [] {
      UndoAddition(lines, h, j);
    } else {
      hide ApplyOne, OnlyAt, Splice, OneWayBack;
      var next := ApplyOne(lines, h, i).value;
      HunkMeaning(lines, h, i, next);
      var at: nat :| OnlyAt(lines, h.find, at) && next == Splice(lines, at, |h.find|, h.replace);
      UndoFound(lines, h, at, j);
    }
  }

  lemma UndoFound(lines: seq<string>, h: Hunk, at: nat, j: nat)
    requires h.find != [] && OnlyAt(lines, h.find, at)
    ensures var next := Splice(lines, at, |h.find|, h.replace);
            ApplyOne(next, Swap(h), j) == Applied(lines) <==> OneWayBack(lines, h, next)
  {
    if h.replace != [] {
      assert BlockAt(lines, h.find, at);
      hide ApplyOne, OnlyAt, BlockAt;
      UndoReplacement(lines, h, at, j);
    } else {
      hide Places, OnlyAt;
      UndoDeletion(lines, h, at);
    }
  }

  lemma UndoAddition(lines: seq<string>, h: Hunk, j: nat)
    requires h.find == []
    ensures ApplyOne(lines + h.replace, Swap(h), j) == Applied(lines) <==> OneWayBack(lines, h, lines + h.replace)
  {
    var next := lines + h.replace;
    if h.replace == [] {
      assert next == lines && next + [] == lines;
    } else {
      HunkMeaning(next, Swap(h), j, lines);
      assert BlockAt(next, h.replace, |lines|);
      assert Splice(next, |lines|, |h.replace|, []) == lines;
    }
  }

  lemma UndoReplacement(lines: seq<string>, h: Hunk, at: nat, j: nat)
    requires h.replace != [] && BlockAt(lines, h.find, at)
    ensures var next := Splice(lines, at, |h.find|, h.replace);
            ApplyOne(next, Swap(h), j) == Applied(lines) <==> exists to: nat :: OnlyAt(next, h.replace, to)
  {
    var next := Splice(lines, at, |h.find|, h.replace);
    HunkMeaning(next, Swap(h), j, lines);
    assert BlockAt(next, h.replace, at);
    if to: nat :| OnlyAt(next, h.replace, to) {
      assert to == at;
      assert Splice(next, at, |h.replace|, h.find) == lines;
    }
  }

  lemma UndoDeletion(lines: seq<string>, h: Hunk, at: nat)
    requires h.find != [] && OnlyAt(lines, h.find, at)
    ensures Splice(lines, at, |h.find|, []) + h.find == lines <==> lines[|lines| - |h.find|..] == h.find
  {
    var next := Splice(lines, at, |h.find|, []);
    var last := |lines| - |h.find|;
    if lines[last..] == h.find {
      assert BlockAt(lines, h.find, last);
      assert next + h.find == lines;
    }
    if next + h.find == lines {
      assert (next + h.find)[last..] == h.find;
    }
  }

  /** Every hunk applies and can be undone. */
  ghost predicate Reversible(lines: seq<string>, hunks: seq<Hunk>)
    decreases |hunks|
  {
    hunks == []
    || (ApplyOne(lines, hunks[0], 0).Applied? && OneWayBack(lines, hunks[0], ApplyOne(lines, hunks[0], 0).value)
        && Reversible(ApplyOne(lines, hunks[0], 0).value, hunks[1..]))
  }

  lemma NumberingIsALabel(lines: seq<string>, h: Hunk, i: nat, j: nat)
    ensures ApplyOne(lines, h, i).Applied? <==> ApplyOne(lines, h, j).Applied?
    ensures ApplyOne(lines, h, i).Applied? ==> ApplyOne(lines, h, i) == ApplyOne(lines, h, j)
  {
  }

  /** The reversed list of swapped hunks restores the lines. */
  lemma {:induction false} UndoRestores(lines: seq<string>, hunks: seq<Hunk>, i: nat, j: nat)
    requires Reversible(lines, hunks)
    ensures ApplyLines(lines, hunks, i).Applied?
    ensures ApplyLines(ApplyLines(lines, hunks, i).value, Undo(hunks), j) == Applied(lines)
    decreases |hunks|
  {
    if hunks != [] {
      var next := ApplyOne(lines, hunks[0], 0).value;
      NumberingIsALabel(lines, hunks[0], 0, i);
      UndoRestores(next, hunks[1..], i + 1, j);
      var end := ApplyLines(lines, hunks, i).value;
      ApplyInTwoParts(end, Undo(hunks[1..]), [Swap(hunks[0])], j);
      UndoOneExactly(lines, hunks[0], 0, j + |Undo(hunks[1..])|);
    }
  }

  // ---- exact substring replacement ----

  /** The text cut at the non-overlapping occurrences of `needle`, found left to right. */
  function Pieces(text: string, needle: string): (r: seq<string>)
    requires needle != ""
    ensures r != []
    decreases |text|
  {
    match FindFrom(text, needle, 0)
    case None => [text]
    case Some(at) => [text[..at]] + Pieces(text[at + |needle|..], needle)
  }

  function Glue(pieces: seq<string>, between: string): string {
    if pieces == [] then ""
    else if |pieces| == 1 then pieces[0]
    else pieces[0] + between + Glue(pieces[1..], between)
  }

  datatype ReplaceError = EmptyOld | NothingToChange | Missing | NotUnique(count: nat)

  /** `str_replace`: the number of occurrences counted is one less than the number of pieces. */
  function StrReplace(content: string, needle: string, with: string, all: bool): Result<string, ReplaceError> {
    if needle == "" then Err(EmptyOld)
    else if needle == with then Err(NothingToChange)
    else
      var pieces := Pieces(content, needle);
      var count := |pieces| - 1;
      if count == 0 then Err(Missing)
      else if count > 1 && !all then Err(NotUnique(count))
      else if all then Ok(Glue(pieces, with))
      else Ok(pieces[0] + with + Glue(pieces[1..], needle))
  }

  /** Pieces hold no occurrence and, glued with the needle, give the content back; so replacing
      all touches nothing but counted occurrences. */
  lemma {:induction false} PiecesPartition(text: string, needle: string)
    requires needle != ""
    ensures Glue(Pieces(text, needle), needle) == text
    ensures forall p, k: nat :: p in Pieces(text, needle) ==> !OccursAt(p, needle, k)
    decreases |text|
  {
    match FindFrom(text, needle, 0)
    case None =>
    case Some(at) =>
      var rest := text[at + |needle|..];
      PiecesPartition(rest, needle);
      assert text == text[..at] + needle + rest;
      forall p, k: nat | p in Pieces(text, needle)
        ensures !OccursAt(p, needle, k)
      {
        if p == text[..at] {
          if OccursAt(p, needle, k) {
            assert text[..at][k..k + |needle|] == text[k..k + |needle|];
            assert OccursAt(text, needle, k);
          }
        } else {
          assert p in Pieces(rest, needle);
        }
      }
  }

  /** What the pieces are when the needle occurs: two exactly if it does not occur again. */
  lemma TwoPieces(content: string, needle: string, at: nat)
    requires needle != "" && FindFrom(content, needle, 0) == Some(at) && at + |needle| <= |content|
    ensures var rest := content[at + |needle|..];
            |Pieces(content, needle)| >= 2 && Pieces(content, needle)[0] == content[..at]
            && (|Pieces(content, needle)| == 2 <==> FindFrom(rest, needle, 0).None?)
            && (FindFrom(rest, needle, 0).None? ==> Pieces(content, needle)[1..] == [rest])
  {
    hide OccursAt;
    var rest := content[at + |needle|..];
    assert Pieces(content, needle) == [content[..at]] + Pieces(rest, needle);
    assert ([content[..at]] + Pieces(rest, needle))[1..] == Pieces(rest, needle);
  }

  /** The rest holds the needle exactly if the whole does at or after its start. */
  lemma FoundInRest(content: string, needle: string, end: nat)
    requires end <= |content|
    ensures FindFrom(content[end..], needle, 0).None? <==> forall k: nat :: OccursAt(content, needle, k) ==> k < end
  {
    var rest := content[end..];
    forall k: nat | end <= k
      ensures OccursAt(rest, needle, k - end) <==> OccursAt(content, needle, k)
    {
      OccursInTail(content, needle, end, k);
    }
    match FindFrom(rest, needle, 0)
    case Some(k) => OccursInTail(content, needle, end, end + k);
    case None =>
  }

  /** Without `replace_all` the edit goes through exactly when `needle` occurs and no occurrence
      starts after the leftmost one has ended; it then replaces that leftmost one. */
  lemma ReplaceOnceExactly(content: string, needle: string, with: string, at: nat)
    requires needle != "" && needle != with && FindFrom(content, needle, 0) == Some(at)
    ensures StrReplace(content, needle, with, false).Ok? <==> forall k: nat :: OccursAt(content, needle, k) ==> k < at + |needle|
    ensures StrReplace(content, needle, with, false).Ok?
            ==> StrReplace(content, needle, with, false).value == content[..at] + with + content[at + |needle|..]
  {
    hide FindFrom, Pieces;
    TwoPieces(content, needle, at);
    FoundInRest(content, needle, at + |needle|);
  }

  ghost predicate Leftmost(text: string, needle: string, at: nat) {
    OccursAt(text, needle, at) && forall k: nat :: k < at ==> !OccursAt(text, needle, k)
  }

  /** With `replace_all` the leftmost occurrence is replaced, what stands before it is kept, and
      what stands behind it is treated likewise; only a text without an occurrence is refused. */
  lemma ReplaceAllExactly(content: string, needle: string, with: string, at: nat)
    requires needle != "" && needle != with
    ensures (forall k: nat :: !OccursAt(content, needle, k)) <==> StrReplace(content, needle, with, true) == Err(Missing)
    ensures Leftmost(content, needle, at) ==>
              StrReplace(content, needle, with, true)
              == Ok(content[..at] + with
                    + match StrReplace(content[at + |needle|..], needle, with, true)
                      case Ok(rest) => rest
                      case Err(_) => content[at + |needle|..])
  {
    if Leftmost(content, needle, at) {
      FirstIsFound(content, needle, at);
      var rest := content[at + |needle|..];
      assert Pieces(content, needle) == [content[..at]] + Pieces(rest, needle);
      assert ([content[..at]] + Pieces(rest, needle))[1..] == Pieces(rest, needle);
      hide Pieces, OccursAt;
      assert StrReplace(content, needle, with, true) == Ok(content[..at] + with + Glue(Pieces(rest, needle), with));
      if |Pieces(rest, needle)| == 1 {
        PiecesPartition(rest, needle);
      }
    }
  }

  lemma FirstIsFound(content: string, needle: string, at: nat)
    requires Leftmost(content, needle, at)
    ensures FindFrom(content, needle, 0) == Some(at)
  {
  }

  /** How often the text was found to occur when it had to be unique. */
  function Found(r: Result<string, ReplaceError>): nat {
    match r
    case Ok(_) => 1
    case Err(NotUnique(count)) => count
    case Err(_) => 0
  }

  /** The count reported for a text that is not unique is that of its occurrences taken from left
      to right without overlap. */
  lemma CountedFromTheLeft(content: string, needle: string, with: string, at: nat)
    requires needle != "" && needle != with && Leftmost(content, needle, at)
    ensures var behind := Found(StrReplace(content[at + |needle|..], needle, with, false));
            Found(StrReplace(content, needle, with, false)) == behind + 1
            && (behind > 0 <==> StrReplace(content, needle, with, false) == Err(NotUnique(behind + 1)))
  {
    FirstIsFound(content, needle, at);
    var rest := content[at + |needle|..];
    assert Pieces(content, needle) == [content[..at]] + Pieces(rest, needle);
  }

  /** No proper suffix of the text is also a prefix of it. */
  ghost predicate Borderless(needle: string) {
    forall d :: 0 < d < |needle| ==> needle[d..] != needle[..|needle| - d]
  }

  /** The uniqueness check is exact for text that cannot overlap itself. */
  lemma UniquenessIsExact(content: string, needle: string, with: string)
    requires needle != "" && needle != with && Borderless(needle)
    ensures StrReplace(content, needle, with, false).Ok?
            <==> exists at: nat :: OccursAt(content, needle, at) && forall k: nat :: OccursAt(content, needle, k) ==> k == at
  {
    match FindFrom(content, needle, 0)
    case None =>
    case Some(at) =>
      ReplaceOnceExactly(content, needle, with, at);
      forall k: nat | OccursAt(content, needle, k) && at <= k < at + |needle|
        ensures k == at
      {
        OverlapIsBorder(content, needle, at, k);
      }
  }

  lemma OverlapIsBorder(text: string, needle: string, at: nat, k: nat)
    requires OccursAt(text, needle, at) && OccursAt(text, needle, k) && at <= k < at + |needle|
    ensures needle[k - at..] == needle[..|needle| - (k - at)]
  {
    assert needle[k - at..] == text[k..at + |needle|];
    assert needle[..|needle| - (k - at)] == text[k..k + |needle|][..|needle| - (k - at)];
  }

  /** Overlapping occurrences pass the check: two places match, one is replaced. */
  lemma OverlapIsAccepted()
    ensures OccursAt("aaa", "aa", 0) && OccursAt("aaa", "aa", 1)
    ensures StrReplace("aaa", "aa", "b", false) == Ok("ba")
  {
    var text, needle := "aaa", "aa";
    assert text[0..2] == needle && text[1..3] == needle;
    assert FindFrom(text, needle, 0) == Some(0);
    var rest := text[2..];
    assert |rest| == 1;
    assert forall k: nat :: !OccursAt(rest, needle, k);
    assert Pieces(rest, needle) == [rest];
    assert Pieces(text, needle) == [text[..0]] + [rest];
    assert [text[..0]] + [rest] == ["", "a"];
    assert ["", "a"][1..] == ["a"];
    assert Glue(["a"], needle) == "a";
    assert "" + "b" + "a" == "ba";
  }
}
