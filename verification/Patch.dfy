/**
 The `apply_patch` envelope and its line parser, as functions of the remaining lines and as the
 loops that compute them.
 */
module Patch {
  import opened Wrappers
  import opened Text

  datatype Hunk = Hunk(find: seq<string>, replace: seq<string>)

  datatype FileOp =
    | Add(path: string, content: string)
    | Delete(path: string)
    | Update(path: string, hunks: seq<Hunk>)

  datatype PatchError =
    | MissingBegin
    | NoOperations
    | BadAddLine(line: string)
    | BadHunkLine(line: string)
    | NoHunks(path: string)
    | UnknownDirective(line: string)
    | MissingEnd

  const BEGIN := "*** Begin Patch"
  const END := "*** End Patch"
  const ADD := "*** Add File: "
  const DELETE := "*** Delete File: "
  const UPDATE := "*** Update File: "
  const MARK := "*** "

  // ---- the parser as a function of the remaining lines ----

  /** The body of an `Add File` section: its content and the lines after it. */
  function AddBody(lines: seq<string>, content: string): (r: Result<(string, seq<string>), PatchError>)
    ensures r.Ok? ==> |r.value.1| <= |lines|
  {
    if lines == [] || StartsWith(lines[0], MARK) then Ok((content, lines))
    else if StartsWith(lines[0], "+") then AddBody(lines[1..], content + lines[0][1..] + "\n")
    else Err(BadAddLine(lines[0]))
  }

  /** The hunks finished so far and the one being read. */
  datatype HunkState = HunkState(done: seq<Hunk>, find: seq<string>, replace: seq<string>) {
    function Flush(): HunkState {
      if find != [] || replace != [] then HunkState(done + [Hunk(find, replace)], [], []) else this
    }

    function Push(f: seq<string>, r: seq<string>): HunkState {
      HunkState(done, find + f, replace + r)
    }
  }

  /** One line of an `Update File` section. */
  function HunkLine(line: string, st: HunkState): Result<HunkState, PatchError> {
    if StartsWith(line, "@@") then Ok(st.Flush())
    else if StartsWith(line, " ") then Ok(st.Push([line[1..]], [line[1..]]))
    else if StartsWith(line, "-") then Ok(st.Push([line[1..]], []))
    else if StartsWith(line, "+") then Ok(st.Push([], [line[1..]]))
    else if line == "" then Ok(st.Push([""], [""]))
    else Err(BadHunkLine(line))
  }

  function UpdateBody(lines: seq<string>, st: HunkState): (r: Result<(seq<Hunk>, seq<string>), PatchError>)
    ensures r.Ok? ==> |r.value.1| <= |lines|
  {
    if lines == [] || StartsWith(lines[0], MARK) then Ok((st.Flush().done, lines))
    else
      match HunkLine(lines[0], st)
      case Ok(next) => UpdateBody(lines[1..], next)
      case Err(e) => Err(e)
  }

  function ParseOps(lines: seq<string>, ops: seq<FileOp>): Result<seq<FileOp>, PatchError>
    decreases |lines|
  {
    if lines == [] then Err(MissingEnd)
    else
      var line := TrimEnd(lines[0]);
      if Trim(line) == END then (if ops == [] then Err(NoOperations) else Ok(ops))
      else if StartsWith(line, ADD) then
        match AddBody(lines[1..], "")
        case Err(e) => Err(e)
        case Ok((content, rest)) => ParseOps(rest, ops + [Add(Trim(line[|ADD|..]), content)])
      else if StartsWith(line, DELETE) then ParseOps(lines[1..], ops + [Delete(Trim(line[|DELETE|..]))])
      else if StartsWith(line, UPDATE) then
        match UpdateBody(lines[1..], HunkState([], [], []))
        case Err(e) => Err(e)
        case Ok((hunks, rest)) =>
          if hunks == [] then Err(NoHunks(line[|UPDATE|..]))
          else ParseOps(rest, ops + [Update(Trim(line[|UPDATE|..]), hunks)])
      else if Trim(line) == "" then ParseOps(lines[1..], ops)
      else Err(UnknownDirective(line))
  }

  function Parse(text: string): Result<seq<FileOp>, PatchError> {
    var lines := Lines(Trim(text));
    if lines == [] || Trim(lines[0]) != BEGIN then Err(MissingBegin) else ParseOps(lines[1..], [])
  }

  /** The inner loop of an `Add File` section, from line `start`. */
  method ReadAddBody(lines: seq<string>, start: nat) returns (r: Result<(string, nat), PatchError>)
    requires start <= |lines|
    ensures r.Err? ==> AddBody(lines[start..], "") == Err(r.error)
    ensures r.Ok? ==> start <= r.value.1 <= |lines| && AddBody(lines[start..], "") == Ok((r.value.0, lines[r.value.1..]))
  {
    var content, i := "", start;
    while i < |lines| && !StartsWith(lines[i], MARK)
      invariant start <= i <= |lines|
      invariant AddBody(lines[i..], content) == AddBody(lines[start..], "")
    {
      assert lines[i..][1..] == lines[i + 1..];
      if !StartsWith(lines[i], "+") {
        return Err(BadAddLine(lines[i]));
      }
      content := content + lines[i][1..] + "\n";
      i := i + 1;
    }
    return Ok((content, i));
  }

  /** The inner loop of an `Update File` section, from line `start`. */
  method ReadUpdateBody(lines: seq<string>, start: nat) returns (r: Result<(seq<Hunk>, nat), PatchError>)
    requires start <= |lines|
    ensures var spec := UpdateBody(lines[start..], HunkState([], [], []));
            && (r.Err? ==> spec == Err(r.error))
            && (r.Ok? ==> start <= r.value.1 <= |lines| && spec == Ok((r.value.0, lines[r.value.1..])))
  {
    var st, i := HunkState([], [], []), start;
    while i < |lines| && !StartsWith(lines[i], MARK)
      invariant start <= i <= |lines|
      invariant UpdateBody(lines[i..], st) == UpdateBody(lines[start..], HunkState([], [], []))
    {
      assert lines[i..][1..] == lines[i + 1..];
      var next := HunkLine(lines[i], st);
      if next.Err? {
        return Err(next.error);
      }
      st := next.value;
      i := i + 1;
    }
    return Ok((st.Flush().done, i));
  }

  /** `parse_patch`: one pass over the lines with a cursor; it ends on every input. */
  method ParsePatch(text: string) returns (r: Result<seq<FileOp>, PatchError>)
    ensures r == Parse(text)
  {
    var lines := Lines(Trim(text));
    if |lines| == 0 || Trim(lines[0]) != BEGIN {
      return Err(MissingBegin);
    }
    r := ParseFrom(lines, 1);
  }

  method ParseFrom(lines: seq<string>, start: nat) returns (r: Result<seq<FileOp>, PatchError>)
    requires start <= |lines|
    ensures r == ParseOps(lines[start..], [])
  {
    hide AddBody, UpdateBody, TrimEnd, TrimStart;
    var ops: seq<FileOp> := [];
    var i := start;
    while i < |lines|
      invariant start <= i <= |lines|
      invariant ParseOps(lines[i..], ops) == ParseOps(lines[start..], [])
    {
      assert lines[i..][0] == lines[i];
      assert lines[i..][1..] == lines[i + 1..];
      var line := TrimEnd(lines[i]);
      i := i + 1;
      if Trim(line) == END {
        return if ops == [] then Err(NoOperations) else Ok(ops);
      }
      if StartsWith(line, ADD) {
        var body := ReadAddBody(lines, i);
        if body.Err? {
          return Err(body.error);
        }
        ops := ops + [Add(Trim(line[|ADD|..]), body.value.0)];
        i := body.value.1;
      } else if StartsWith(line, DELETE) {
        ops := ops + [Delete(Trim(line[|DELETE|..]))];
      } else if StartsWith(line, UPDATE) {
        var body := ReadUpdateBody(lines, i);
        if body.Err? {
          return Err(body.error);
        }
        if body.value.0 == [] {
          return Err(NoHunks(line[|UPDATE|..]));
        }
        ops := ops + [Update(Trim(line[|UPDATE|..]), body.value.0)];
        i := body.value.1;
      } else if Trim(line) != "" {
        return Err(UnknownDirective(line));
      }
    }
    return Err(MissingEnd);
  }
}
