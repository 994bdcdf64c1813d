/**
 The writer's operations cut short: the two files of a session after each system call of an
 append, a deletion and a rewrite through a temporary file, and what a process that dies between
 any two of them leaves for the next one.
 */
module CrashLog {
  import opened Wrappers
  import opened Text
  import opened EventLog
  import opened EventStream

  /** The log of a session and the temporary file of a rewrite; `None` is no file. */
  datatype Files = Files(log: Option<string>, temp: Option<string>)

  function TextOf(file: Option<string>): string {
    if file.Some? then file.value else ""
  }

  /** The events a fresh process reads. */
  function Events(codec: Codec, f: Files): seq<Event> {
    Parse(codec, TextOf(f.log))
  }

  /** The events the temporary file holds. */
  function Pending(codec: Codec, f: Files): seq<Event> {
    Parse(codec, TextOf(f.temp))
  }

  /** An encoded event is not empty, and no part of it, short of all of it, is an event: a JSON
      object is closed by its last character. */
  ghost predicate PrefixFree(codec: Codec) {
    forall e: Event :: codec.encode(e) != "" && forall k :: 0 <= k < |codec.encode(e)| ==> codec.decode(TrimEnd(codec.encode(e)[..k])) == None
  }

  // ---- one operation, call by call ----

  /** What a truncation keeps, as the text it writes. */
  function KeptText(codec: Codec, f: Files, max: int): string {
    Encoded(codec, UpTo(Events(codec, f), max))
  }

  /** How many calls an operation makes: open and a write a character, remove, or open, a write a
      character, remove and rename. */
  function Calls(codec: Codec, f: Files, op: LogOp): nat {
    match op
    case AppendOp(e) => |codec.encode(e)| + 2
    case DeleteOp => 1
    case TruncateOp(max) => |KeptText(codec, f, max)| + 3
  }

  /** The files after the first n calls. */
  function AfterCalls(codec: Codec, f: Files, op: LogOp, n: nat): Files
    requires n <= Calls(codec, f, op)
  {
    if n == 0 then f
    else
      match op
      case AppendOp(e) => f.(log := Some(TextOf(f.log) + (codec.encode(e) + "\n")[..n - 1]))
      case DeleteOp => f.(log := None)
      case TruncateOp(max) =>
        var text := KeptText(codec, f, max);
        if n <= |text| + 1 then f.(temp := Some(text[..n - 1]))
        else if n == |text| + 2 then Files(None, Some(text))
        else Files(Some(text), None)
  }

  function Performed(codec: Codec, f: Files, op: LogOp): Files {
    AfterCalls(codec, f, op, Calls(codec, f, op))
  }

  /** The window of a truncation: the old log is removed and the new one not yet in its place. */
  predicate Between(codec: Codec, f: Files, op: LogOp, n: nat) {
    op.TruncateOp? && n == Calls(codec, f, op) - 1
  }

  /** A completed operation does to the events read what it does to the log of events. */
  lemma PerformedReads(codec: Codec, f: Files, op: LogOp)
    requires codec.Sound() && Terminated(TextOf(f.log))
    ensures Terminated(TextOf(Performed(codec, f, op).log))
    ensures Events(codec, Performed(codec, f, op)) == Perform(Events(codec, f), op)
  {
    match op
    case AppendOp(e) =>
      var line := codec.encode(e) + "\n";
      assert line[..|line|] == line;
      ParseAppend(codec, TextOf(f.log), e);
    case DeleteOp =>
      EmptyParses(codec);
    case TruncateOp(max) =>
      EncodedParses(codec, UpTo(Events(codec, f), max));
  }

  // ---- a torn append ----

  lemma NoNewlineInPart(codec: Codec, e: Event, k: nat)
    requires codec.Sound() && k <= |codec.encode(e)|
    ensures '\n' !in codec.encode(e)[..k] && (codec.encode(e) + "\n")[..k] == codec.encode(e)[..k]
  {
    assert forall c :: c in codec.encode(e)[..k] ==> c in codec.encode(e);
  }

  /** The text after the last newline is determined by the newline before it. */
  lemma {:induction false} TailIs(head: string, part: string)
    requires Terminated(head) && '\n' !in part
    ensures Tail(head + part) == part && Head(head + part) == head
    decreases |part|
  {
    hide Tail, Head;
    if part == "" {
      NoTail(head);
    } else {
      var n := |part| - 1;
      assert part == part[..n] + [part[n]];
      assert head + part == (head + part[..n]) + [part[n]];
      TailIs(head, part[..n]);
      TailSnoc(head + part[..n], part[n]);
    }
  }

  lemma NoTail(head: string)
    requires Terminated(head)
    ensures Tail(head + "") == "" && Head(head + "") == head
  {
    assert head + "" == head;
  }

  lemma TailSnoc(text: string, c: char)
    requires c != '\n'
    ensures Tail(text + [c]) == Tail(text) + [c] && Head(text + [c]) == Head(text)
  {
    assert (text + [c])[..|text|] == text;
    assert TailLength(text + [c]) == TailLength(text) + 1;
  }

  /** Of a line being appended nothing is read until its last character is there. */
  lemma TornReads(codec: Codec, text: string, e: Event, k: nat)
    requires codec.Sound() && PrefixFree(codec) && Terminated(text) && k <= |codec.encode(e)|
    ensures Parse(codec, text + codec.encode(e)[..k]) == Parse(codec, text) + if k == |codec.encode(e)| then [e] else []
  {
    hide Parse;
    NoNewlineInPart(codec, e, k);
    TailIs(text, codec.encode(e)[..k]);
    TailParses(codec, text + codec.encode(e)[..k]);
    assert codec.encode(e)[..|codec.encode(e)|] == codec.encode(e);
    assert Parse(codec, text) + [] == Parse(codec, text);
  }

  /** After a torn append the log no longer ends its last line, and the next event is read on top
      of what the crash left exactly if it was not the whole line that was torn and the part and
      the new event together decode to the new event. */
  lemma TornAppendThenAppend(codec: Codec, text: string, e: Event, k: nat, next: Event)
    requires codec.Sound() && PrefixFree(codec) && Terminated(text) && 0 < k <= |codec.encode(e)|
    ensures var torn := text + codec.encode(e)[..k];
            !Terminated(torn)
            && (Parse(codec, torn + (codec.encode(next) + "\n")) == Parse(codec, torn) + [next]
                <==> k < |codec.encode(e)| && codec.decode(TrimEnd(codec.encode(e)[..k] + codec.encode(next))) == Some(next))
            && IndexOf(codec, torn + (codec.encode(next) + "\n")) != Appended(codec, IndexOf(codec, torn), next)
  {
    hide Parse, IndexOf, Appended;
    var torn := text + codec.encode(e)[..k];
    NoNewlineInPart(codec, e, k);
    TailIs(text, codec.encode(e)[..k]);
    ParseAppendsExactly(codec, torn, next);
    AppendAgreesExactly(codec, torn, next);
    assert codec.encode(e)[..|codec.encode(e)|] == codec.encode(e);
  }

  // ---- a crash between any two calls ----

  /** What a process that dies after n calls of an operation leaves: the log from before it or
      from after it; only between removing the old log and renaming the new one there is no log,
      and the temporary file holds the one from after. */
  lemma CrashWithin(codec: Codec, f: Files, op: LogOp, n: nat)
    requires codec.Sound() && PrefixFree(codec) && Terminated(TextOf(f.log)) && n <= Calls(codec, f, op)
    ensures var g := AfterCalls(codec, f, op, n);
            if Between(codec, f, op, n) then g.log == None && Events(codec, g) == [] && Pending(codec, g) == Perform(Events(codec, f), op)
            else Events(codec, g) == Events(codec, f) || Events(codec, g) == Perform(Events(codec, f), op)
  {
    if n == Calls(codec, f, op) {
      PerformedReads(codec, f, op);
    } else if op.AppendOp? && n > 0 {
      TornAppend(codec, f, op.event, n - 1);
    } else if Between(codec, f, op, n) {
      WindowReads(codec, f, op.max);
    }
  }

  lemma TornAppend(codec: Codec, f: Files, e: Event, k: nat)
    requires codec.Sound() && PrefixFree(codec) && Terminated(TextOf(f.log)) && k <= |codec.encode(e)|
    ensures var left := Events(codec, AfterCalls(codec, f, AppendOp(e), k + 1));
            left == Events(codec, f) || left == Events(codec, f) + [e]
  {
    hide Parse, PrefixFree;
    NoNewlineInPart(codec, e, k);
    TornReads(codec, TextOf(f.log), e, k);
  }

  lemma WindowReads(codec: Codec, f: Files, max: int)
    requires codec.Sound()
    ensures var left := AfterCalls(codec, f, TruncateOp(max), |KeptText(codec, f, max)| + 2);
            left.log == None && Events(codec, left) == [] && Pending(codec, left) == UpTo(Events(codec, f), max)
  {
    hide UpTo;
    EmptyParses(codec);
    EncodedParses(codec, UpTo(Events(codec, f), max));
  }

  // ---- over whole runs ----

  /** The files after a run of the bus whose session started on the files f. */
  function RunFiles(codec: Codec, f: Files, cap: Option<nat>, ops: seq<Op>): Files
    decreases |ops|
  {
    if ops == [] then f
    else
      var before := ops[..|ops| - 1];
      var at := RunFiles(codec, f, cap, before);
      var st := RunBus(Opened(codec, f), cap, before);
      match ops[|ops| - 1]
      case DoWrite => if st.queue == [] then at else Performed(codec, at, st.queue[0])
      case DoRestart => PerformedAll(codec, at, st.queue)
      case _ => at
  }

  function PerformedAll(codec: Codec, f: Files, ops: seq<LogOp>): Files
    decreases |ops|
  {
    if ops == [] then f else PerformedAll(codec, Performed(codec, f, ops[0]), ops[1..])
  }

  /** A session on the files f, not touched yet. */
  function Opened(codec: Codec, f: Files): Session {
    Session(None, None, false, [], Events(codec, f))
  }

  lemma {:induction false} PerformedAllReads(codec: Codec, f: Files, ops: seq<LogOp>)
    requires codec.Sound() && Terminated(TextOf(f.log))
    ensures Terminated(TextOf(PerformedAll(codec, f, ops).log))
    ensures Events(codec, PerformedAll(codec, f, ops)) == PerformAll(Events(codec, f), ops)
    decreases |ops|
  {
    hide Performed, Perform, Events;
    if ops != [] {
      PerformedReads(codec, f, ops[0]);
      PerformedAllReads(codec, Performed(codec, f, ops[0]), ops[1..]);
    }
  }

  /** The file of a run holds the log of the run's session. */
  lemma {:induction false} RunFilesRead(codec: Codec, f: Files, cap: Option<nat>, ops: seq<Op>)
    requires codec.Sound() && Terminated(TextOf(f.log))
    ensures var at := RunFiles(codec, f, cap, ops);
            Terminated(TextOf(at.log)) && Events(codec, at) == RunBus(Opened(codec, f), cap, ops).log
    decreases |ops|
  {
    hide Performed, Perform, Events, TextOf, Terminated;
    if ops != [] {
      var before := ops[..|ops| - 1];
      RunFilesRead(codec, f, cap, before);
      var at, st := RunFiles(codec, f, cap, before), RunBus(Opened(codec, f), cap, before);
      match ops[|ops| - 1]
      case DoWrite =>
        if st.queue != [] {
          PerformedReads(codec, at, st.queue[0]);
        }
      case DoRestart => PerformedAllReads(codec, at, st.queue);
      case _ =>
    }
  }

  /** Crash consistency, call by call: a process that dies at any moment of any run, after any
      number of calls of the operation the writer is at, leaves a log that was the durable history
      at some earlier moment; except between removing the old log of a truncation and renaming the
      new one, when it leaves none and the once-true log is the one in the temporary file. */
  lemma CrashFindsOnceTrue(codec: Codec, f: Files, cap: Option<nat>, ops: seq<Op>, n: nat)
    requires codec.Sound() && PrefixFree(codec) && Terminated(TextOf(f.log))
    requires var st := RunBus(Opened(codec, f), cap, ops);
             st.queue != [] && n <= Calls(codec, RunFiles(codec, f, cap, ops), st.queue[0])
    ensures var at, op := RunFiles(codec, f, cap, ops), RunBus(Opened(codec, f), cap, ops).queue[0];
            var left := AfterCalls(codec, at, op, n);
            if Between(codec, at, op, n) then
              left.log == None && Events(codec, left) == [] && LogWasTrue(Pending(codec, left), Events(codec, f), cap, ops)
            else LogWasTrue(Events(codec, left), Events(codec, f), cap, ops)
  {
    hide LogWasTrue, AfterCalls, Calls, Perform, Events, Pending, Between;
    var st := RunBus(Opened(codec, f), cap, ops);
    var at := RunFiles(codec, f, cap, ops);
    RunFilesRead(codec, f, cap, ops);
    QueueStaysTrue(Events(codec, f), cap, ops);
    FirstOrNone(st.log, st.queue);
    assert LogWasTrue(PerformAll(st.log, st.queue[..0]), Events(codec, f), cap, ops);
    assert LogWasTrue(PerformAll(st.log, st.queue[..1]), Events(codec, f), cap, ops);
    CrashWithin(codec, at, st.queue[0], n);
  }

  lemma FirstOrNone(log: seq<Event>, queue: seq<LogOp>)
    requires queue != []
    ensures PerformAll(log, queue[..0]) == log && PerformAll(log, queue[..1]) == Perform(log, queue[0])
  {
    assert queue[..1][1..] == [];
  }

  lemma CutIsQueued(codec: Codec, f: Files)
    ensures RunBus(Opened(codec, f), None, [DoTruncate(1)]).queue == [TruncateOp(1)] && RunFiles(codec, f, None, [DoTruncate(1)]) == f
  {
    hide Scan;
    assert [DoTruncate(1)][..0] == [];
  }

  /** In the window the log can be one that never was: a truncation of two events to the first
      leaves none of them in the log, though no earlier moment had an empty history. */
  lemma WindowLosesTheLog(codec: Codec, f: Files, n: nat)
    requires codec.Sound() && PrefixFree(codec) && Terminated(TextOf(f.log)) && Between(codec, f, TruncateOp(1), n)
    requires |Events(codec, f)| == 2 && Events(codec, f)[0].num == 1 && Events(codec, f)[1].num == 2
    ensures var ops := [DoTruncate(1)];
            var left := AfterCalls(codec, f, TruncateOp(1), n);
            RunBus(Opened(codec, f), None, ops).queue == [TruncateOp(1)] && RunFiles(codec, f, None, ops) == f
            && Events(codec, left) == [] && Pending(codec, left) == Events(codec, f)[..1]
            && !LogWasTrue(Events(codec, left), Events(codec, f), None, ops)
  {
    hide Scan;
    var log := Events(codec, f);
    var ops := [DoTruncate(1)];
    CutIsQueued(codec, f);
    CrashWithin(codec, f, TruncateOp(1), n);
    FirstOfTwo(log);
    assert ops[..0] == [] && ops[..1] == ops;
  }

  lemma FirstOfTwo(log: seq<Event>)
    requires |log| == 2 && log[0].num == 1 && log[1].num == 2
    ensures UpTo(log, 1) == log[..1]
  {
    assert UpTo(log[1..][1..], 1) == [];
    assert UpTo(log[1..], 1) == [];
  }
}
