/**
 The append-only event log: one file a session, one event a line, and an index from sequence
 numbers to the byte offsets of the lines. File positions count characters, each one byte.
 */
module EventLog {
  import opened Wrappers
  import opened Text

  /** `num` is the event's sequence number, `run` the run it belongs to. */
  datatype Event = Event(id: string, session: string, num: int, run: Option<string>, body: string)

  /** The JSON encoding, left abstract. */
  datatype Codec = Codec(encode: Event -> string, decode: string -> Option<Event>) {
    /** What the log needs of it: one line an event, and decoding undoes encoding. */
    ghost predicate Sound() {
      forall e: Event :: '\n' !in encode(e) && decode(TrimEnd(encode(e))) == Some(e)
    }
  }

  // ---- a plain scan of a file ----

  /** The position of the first newline at or after `i`, or the end. */
  function NewlineFrom(file: string, i: nat): (r: nat)
    requires i <= |file|
    ensures i <= r <= |file| && (r < |file| ==> file[r] == '\n')
    ensures forall j :: i <= j < r ==> file[j] != '\n'
    decreases |file| - i
  {
    if i == |file| || file[i] == '\n' then i else NewlineFrom(file, i + 1)
  }

  /** The length of the first line, its newline included. */
  function LineLength(file: string): (n: nat)
    requires file != ""
    ensures 0 < n <= |file| && (n < |file| ==> file[n - 1] == '\n')
    ensures forall j :: 0 <= j < n - 1 ==> file[j] != '\n'
  {
    var k := NewlineFrom(file, 0);
    if k < |file| then k + 1 else k
  }

  /** The event on a line, if it parses, with the position the line starts at. */
  function Entry(codec: Codec, line: string, at: nat): (r: seq<(Event, nat)>)
    ensures |r| <= 1 && forall x :: x in r ==> x.1 == at
  {
    match codec.decode(TrimEnd(line))
    case Some(e) => [(e, at)]
    case None => []
  }

  /** The lines of a file, each with its newline. */
  function RawLines(file: string): seq<string>
    decreases |file|
  {
    if file == "" then [] else [file[..LineLength(file)]] + RawLines(file[LineLength(file)..])
  }

  function TotalLength(lines: seq<string>): nat {
    if lines == [] then 0 else |lines[0]| + TotalLength(lines[1..])
  }

  function ScanLines(codec: Codec, lines: seq<string>, base: nat): seq<(Event, nat)>
    decreases |lines|
  {
    if lines == [] then [] else Entry(codec, lines[0], base) + ScanLines(codec, lines[1..], base + |lines[0]|)
  }

  /** The events on the parsable lines of a file, each with the position its line starts at. */
  function Scan(codec: Codec, file: string): seq<(Event, nat)> {
    ScanLines(codec, RawLines(file), 0)
  }

  function EventsOf(entries: seq<(Event, nat)>): (r: seq<Event>)
    ensures |r| == |entries| && forall i :: 0 <= i < |r| ==> r[i] == entries[i].0
  {
    seq(|entries|, i requires 0 <= i < |entries| => entries[i].0)
  }

  function OffsetsOf(entries: seq<(Event, nat)>): (r: seq<(int, nat)>)
    ensures |r| == |entries| && forall i :: 0 <= i < |r| ==> r[i] == (entries[i].0.num, entries[i].1)
  {
    seq(|entries|, i requires 0 <= i < |entries| => (entries[i].0.num, entries[i].1))
  }

  /** All events of a file, as a full parse finds them. */
  function Parse(codec: Codec, file: string): seq<Event> {
    EventsOf(Scan(codec, file))
  }

  datatype SessionIndex = SessionIndex(offsets: seq<(int, nat)>, nextOffset: nat)

  /** The index a full scan would build. */
  function IndexOf(codec: Codec, file: string): SessionIndex {
    SessionIndex(OffsetsOf(Scan(codec, file)), |file|)
  }

  /** The index after an append, as the code updates it. */
  function Appended(codec: Codec, ix: SessionIndex, e: Event): SessionIndex {
    SessionIndex(ix.offsets + [(e.num, ix.nextOffset)], ix.nextOffset + |codec.encode(e) + "\n"|)
  }

  function After(events: seq<Event>, from: int): seq<Event> {
    if events == [] then []
    else (if events[0].num > from then [events[0]] else []) + After(events[1..], from)
  }

  function UpTo(events: seq<Event>, max: int): seq<Event> {
    if events == [] then []
    else (if events[0].num <= max then [events[0]] else []) + UpTo(events[1..], max)
  }

  predicate Terminated(file: string) {
    file == "" || file[|file| - 1] == '\n'
  }

  // ---- reading by lines ----

  function DecodeLines(codec: Codec, lines: seq<string>): seq<Event> {
    if lines == [] then [] else EventsOf(Entry(codec, lines[0], 0)) + DecodeLines(codec, lines[1..])
  }

  lemma TrimEndPastNewline(line: string)
    ensures TrimEnd(line + "\n") == TrimEnd(line) == TrimEnd(StripCr(line))
  {
    assert (line + "\n")[..|line|] == line;
  }

  /** The first of a file's lines, and the lines after it. */
  lemma FirstLine(file: string)
    requires file != ""
    ensures var n := LineLength(file);
            Lines(file) != [] && Lines(file)[1..] == Lines(file[n..]) && TrimEnd(Lines(file)[0]) == TrimEnd(file[..n])
  {
    var n := LineLength(file);
    var line, rest := file[..n - 1], file[n..];
    if file[n - 1] == '\n' {
      assert file == line + "\n" + rest && file[..n] == line + "\n";
      LinesCons(line, rest);
      TrimEndPastNewline(line);
    } else {
      assert file[..n] == file && rest == "" && file == line + [file[n - 1]];
      SplitPlain(file, '\n');
      assert Lines(file) == [file];
    }
  }

  /** `lines()` cuts `\r\n`, the scan keeps both; trimming makes the difference vanish. */
  lemma {:induction false} LinesTrimAlike(file: string)
    ensures |Lines(file)| == |RawLines(file)|
    ensures forall i :: 0 <= i < |Lines(file)| ==> TrimEnd(Lines(file)[i]) == TrimEnd(RawLines(file)[i])
    decreases |file|
  {
    if file != "" {
      FirstLine(file);
      LinesTrimAlike(file[LineLength(file)..]);
      var ls, rs := Lines(file), RawLines(file);
      assert forall i :: 1 <= i < |ls| ==> ls[i] == ls[1..][i - 1] && rs[i] == rs[1..][i - 1];
    } else {
      assert Lines(file) == [];
    }
  }

  lemma EntryAlike(codec: Codec, line: string, other: string, at: nat)
    requires TrimEnd(line) == TrimEnd(other)
    ensures EventsOf(Entry(codec, line, 0)) == EventsOf(Entry(codec, other, at))
  {
  }

  lemma {:induction false} DecodeTrimmed(codec: Codec, lines: seq<string>, raw: seq<string>, base: nat)
    requires |lines| == |raw| && forall i :: 0 <= i < |lines| ==> TrimEnd(lines[i]) == TrimEnd(raw[i])
    ensures DecodeLines(codec, lines) == EventsOf(ScanLines(codec, raw, base))
    decreases |lines|
  {
    hide Entry, TrimEnd;
    if lines != [] {
      EntryAlike(codec, lines[0], raw[0], base);
      DecodeTrimmed(codec, lines[1..], raw[1..], base + |raw[0]|);
      EventsConcat(Entry(codec, raw[0], base), ScanLines(codec, raw[1..], base + |raw[0]|));
    }
  }

  lemma EventsConcat(a: seq<(Event, nat)>, b: seq<(Event, nat)>)
    ensures EventsOf(a + b) == EventsOf(a) + EventsOf(b)
  {
  }

  // ---- seeking ----

  function FirstAfter(offsets: seq<(int, nat)>, from: int): (r: Option<nat>)
    ensures r.None? ==> forall i :: 0 <= i < |offsets| ==> offsets[i].0 <= from
    ensures r.Some? ==> r.value < |offsets| && offsets[r.value].0 > from
                        && forall i :: 0 <= i < r.value ==> offsets[i].0 <= from
  {
    if offsets == [] then None
    else if offsets[0].0 > from then Some(0)
    else
      match FirstAfter(offsets[1..], from)
      case None => None
      case Some(k) => Some(k + 1)
  }

  /** Entry `k` stands on some line, and scanning on from that line finds it and the later ones. */
  lemma {:induction false} EntryLine(codec: Codec, lines: seq<string>, base: nat, k: nat) returns (i: nat)
    requires k < |ScanLines(codec, lines, base)|
    ensures i < |lines|
    ensures var at := base + TotalLength(lines[..i]);
            ScanLines(codec, lines, base)[k].1 == at && ScanLines(codec, lines[i..], at) == ScanLines(codec, lines, base)[k..]
    decreases |lines|
  {
    hide Entry;
    var own, rest := Entry(codec, lines[0], base), ScanLines(codec, lines[1..], base + |lines[0]|);
    if k < |own| {
      i := 0;
      assert lines[0..] == lines && own[k] in own;
    } else {
      i := EntryLine(codec, lines[1..], base + |lines[0]|, k - |own|);
      assert lines[..i + 1][1..] == lines[1..][..i];
      assert lines[i + 1..] == lines[1..][i..];
      assert (own + rest)[k..] == rest[k - |own|..];
      i := i + 1;
    }
  }

  /** Where line `i` of a file starts. */
  function LineStart(file: string, i: nat): (at: nat)
    requires i <= |RawLines(file)|
    ensures at <= |file|
    decreases |file|
  {
    if i == 0 then 0 else LineLength(file) + LineStart(file[LineLength(file)..], i - 1)
  }

  lemma {:induction false} LineStartIsTotal(file: string, i: nat)
    requires i <= |RawLines(file)|
    ensures LineStart(file, i) == TotalLength(RawLines(file)[..i])
    decreases |file|
  {
    hide LineLength;
    if i > 0 {
      var rest := file[LineLength(file)..];
      LineStartIsTotal(rest, i - 1);
      assert RawLines(file)[..i][1..] == RawLines(rest)[..i - 1];
    }
  }

  /** What follows the first `i` lines. */
  function AfterLines(file: string, i: nat): string
    requires i <= |RawLines(file)|
    decreases |file|
  {
    if i == 0 then file else AfterLines(file[LineLength(file)..], i - 1)
  }

  lemma {:induction false} LinesAfter(file: string, i: nat)
    requires i <= |RawLines(file)|
    ensures RawLines(AfterLines(file, i)) == RawLines(file)[i..]
    decreases |file|
  {
    if i > 0 {
      var rest := file[LineLength(file)..];
      LinesAfter(rest, i - 1);
      DropTwice(RawLines(file), 1, i - 1);
      assert RawLines(file)[1..] == RawLines(rest);
    }
  }

  lemma {:induction false} AfterLinesIsTail(file: string, i: nat)
    requires i <= |RawLines(file)|
    ensures AfterLines(file, i) == file[LineStart(file, i)..]
    decreases |file|
  {
    if i > 0 {
      var n := LineLength(file);
      var rest := file[n..];
      var m := LineStart(rest, i - 1);
      AfterLinesIsTail(rest, i - 1);
      assert AfterLines(file, i) == rest[m..] && LineStart(file, i) == n + m;
      DropTwice(file, n, m);
    }
  }

  lemma DropTwice<T>(s: seq<T>, n: nat, m: nat)
    requires n + m <= |s|
    ensures s[n..][m..] == s[n + m..]
  {
  }

  lemma {:induction false} LineStartsAfterNewline(file: string, i: nat)
    requires 0 < i < |RawLines(file)|
    ensures 0 < LineStart(file, i) <= |file| && file[LineStart(file, i) - 1] == '\n'
    decreases |file|
  {
    var n := LineLength(file);
    if i == 1 {
      assert file[n..] != "";
    } else {
      LineStartsAfterNewline(file[n..], i - 1);
    }
  }

  lemma {:induction false} AfterSkips(events: seq<Event>, k: nat, from: int)
    requires k <= |events| && forall i :: 0 <= i < k ==> events[i].num <= from
    ensures After(events[k..], from) == After(events, from)
  {
    if k > 0 {
      AfterSkips(events[1..], k - 1, from);
      assert events[1..][k - 1..] == events[k..];
    } else {
      assert events[k..] == events;
    }
  }

  /** Seeking to the first offset past `from` loses nothing, even when numbers are out of order. */
  lemma SeekEqualsScan(codec: Codec, file: string, from: int)
    ensures match FirstAfter(IndexOf(codec, file).offsets, from)
            case None => After(Parse(codec, file), from) == []
            case Some(k) =>
              var at := IndexOf(codec, file).offsets[k].1;
              at <= |file| && After(DecodeLines(codec, Lines(file[at..])), from) == After(Parse(codec, file), from)
  {
    var entries := Scan(codec, file);
    match FirstAfter(OffsetsOf(entries), from)
    case None =>
      AfterSkips(EventsOf(entries), |entries|, from);
      assert EventsOf(entries)[|entries|..] == [];
    case Some(k) =>
      TailFromOffset(codec, file, k);
      AfterSkips(EventsOf(entries), k, from);
  }

  /** Reading the lines from entry `k`'s offset on gives the events from `k` on. */
  lemma TailFromOffset(codec: Codec, file: string, k: nat)
    requires k < |Scan(codec, file)|
    ensures var at := Scan(codec, file)[k].1;
            at <= |file| && DecodeLines(codec, Lines(file[at..])) == EventsOf(Scan(codec, file))[k..]
  {
    var i := EntryLine(codec, RawLines(file), 0, k);
    LineStartIsTotal(file, i);
    AfterLinesIsTail(file, i);
    TailEntries(codec, file, i, k);
  }

  lemma TailEntries(codec: Codec, file: string, i: nat, k: nat)
    requires i <= |RawLines(file)| && k <= |Scan(codec, file)|
    requires ScanLines(codec, RawLines(file)[i..], LineStart(file, i)) == Scan(codec, file)[k..]
    ensures DecodeLines(codec, Lines(AfterLines(file, i))) == EventsOf(Scan(codec, file))[k..]
  {
    LinesAfter(file, i);
    DecodeText(codec, AfterLines(file, i), LineStart(file, i));
    EventsDrop(Scan(codec, file), k);
  }

  lemma DecodeText(codec: Codec, text: string, base: nat)
    ensures DecodeLines(codec, Lines(text)) == EventsOf(ScanLines(codec, RawLines(text), base))
  {
    LinesTrimAlike(text);
    DecodeTrimmed(codec, Lines(text), RawLines(text), base);
  }

  lemma EventsDrop(entries: seq<(Event, nat)>, k: nat)
    requires k <= |entries|
    ensures EventsOf(entries[k..]) == EventsOf(entries)[k..]
  {
  }

  // ---- appending ----

  lemma SameFirstLine(file: string, more: string)
    requires file != "" && Terminated(file)
    ensures LineLength(file + more) == LineLength(file)
  {
    var n, whole := LineLength(file), file + more;
    assert whole[n - 1] == file[n - 1] == '\n';
    assert forall j :: 0 <= j < n - 1 ==> whole[j] == file[j];
  }

  /** A line appended to a newline-terminated file stays a line of its own. */
  lemma {:induction false} RawAppend(file: string, line: string)
    requires Terminated(file) && line != "" && LineLength(line) == |line|
    ensures RawLines(file + line) == RawLines(file) + [line]
    decreases |file|
  {
    if file == "" {
      assert file + line == line;
      OneRawLine(line);
    } else {
      var n := LineLength(file);
      RawAppend(file[n..], line);
      RawStep(file, line);
    }
  }

  lemma OneRawLine(line: string)
    requires line != "" && LineLength(line) == |line|
    ensures RawLines(line) == [line]
  {
    assert line[..|line|] == line && line[|line|..] == "";
  }

  lemma RawStep(file: string, line: string)
    requires file != "" && Terminated(file)
    ensures RawLines(file + line) == [file[..LineLength(file)]] + RawLines(file[LineLength(file)..] + line)
    ensures Terminated(file[LineLength(file)..])
  {
    var n, whole := LineLength(file), file + line;
    SameFirstLine(file, line);
    assert whole[..n] == file[..n] && whole[n..] == file[n..] + line;
  }

  lemma {:induction false} RawLength(file: string)
    ensures TotalLength(RawLines(file)) == |file|
    decreases |file|
  {
    if file != "" {
      RawLength(file[LineLength(file)..]);
      assert RawLines(file)[1..] == RawLines(file[LineLength(file)..]);
    }
  }

  lemma {:induction false} ScanSnoc(codec: Codec, lines: seq<string>, line: string, base: nat)
    ensures ScanLines(codec, lines + [line], base)
            == ScanLines(codec, lines, base) + Entry(codec, line, base + TotalLength(lines))
    decreases |lines|
  {
    hide Entry;
    if lines == [] {
      assert [line][1..] == [];
    } else {
      assert (lines + [line])[1..] == lines[1..] + [line];
      ScanSnoc(codec, lines[1..], line, base + |lines[0]|);
    }
  }

  lemma EncodedLine(codec: Codec, e: Event)
    requires codec.Sound()
    ensures var line := codec.encode(e) + "\n";
            LineLength(line) == |line| && forall at: nat :: Entry(codec, line, at) == [(e, at)]
  {
    var text := codec.encode(e);
    var line := text + "\n";
    assert forall j :: 0 <= j < |text| ==> line[j] == text[j] && text[j] in text;
    assert LineLength(line) == |line|;
    TrimEndPastNewline(text);
  }

  lemma ScanAppend(codec: Codec, file: string, e: Event)
    requires codec.Sound() && Terminated(file)
    ensures Scan(codec, file + (codec.encode(e) + "\n")) == Scan(codec, file) + [(e, |file|)]
  {
    var line := codec.encode(e) + "\n";
    EncodedLine(codec, e);
    RawAppend(file, line);
    RawLength(file);
    ScanSnoc(codec, RawLines(file), line, 0);
    assert Entry(codec, line, |file|) == [(e, |file|)];
  }

  lemma ParseAppend(codec: Codec, file: string, e: Event)
    requires codec.Sound() && Terminated(file)
    ensures Parse(codec, file + (codec.encode(e) + "\n")) == Parse(codec, file) + [e]
  {
    ScanAppend(codec, file, e);
    EventsConcat(Scan(codec, file), [(e, |file|)]);
  }

  /** How much of a file follows its last newline. */
  function TailLength(file: string): (n: nat)
    ensures n <= |file|
    decreases |file|
  {
    if Terminated(file) then 0 else TailLength(file[..|file| - 1]) + 1
  }

  function Tail(file: string): string {
    file[|file| - TailLength(file)..]
  }

  function Head(file: string): string {
    file[..|file| - TailLength(file)]
  }

  lemma {:induction false} TailShape(file: string)
    ensures file == Head(file) + Tail(file) && '\n' !in Tail(file) && Terminated(Head(file))
    ensures Tail(file) == "" <==> Terminated(file)
    decreases |file|
  {
    if !Terminated(file) {
      var n := |file| - 1;
      TailShape(file[..n]);
      assert Tail(file) == Tail(file[..n]) + [file[n]];
      assert Head(file) == Head(file[..n]);
    }
  }

  lemma NoNewlineOneLine(line: string)
    requires line != "" && '\n' !in line
    ensures LineLength(line) == |line|
  {
    assert forall j :: 0 <= j < |line| ==> line[j] in line;
  }

  /** What a last line adds to the parse. */
  lemma LastLineParses(codec: Codec, head: string, line: string)
    requires Terminated(head) && line != "" && LineLength(line) == |line|
    ensures Parse(codec, head + line) == Parse(codec, head) + EventsOf(Entry(codec, line, 0))
  {
    RawAppend(head, line);
    ScanSnoc(codec, RawLines(head), line, 0);
    EventsConcat(Scan(codec, head), Entry(codec, line, TotalLength(RawLines(head))));
    assert EventsOf(Entry(codec, line, TotalLength(RawLines(head)))) == EventsOf(Entry(codec, line, 0));
  }

  lemma TailParses(codec: Codec, file: string)
    ensures Parse(codec, file)
            == if Terminated(file) then Parse(codec, Head(file)) else Parse(codec, Head(file)) + EventsOf(Entry(codec, Tail(file), 0))
  {
    hide Parse, EventsOf;
    TailShape(file);
    if !Terminated(file) {
      NoNewlineOneLine(Tail(file));
      LastLineParses(codec, Head(file), Tail(file));
    } else {
      assert Head(file) == file;
    }
  }

  lemma OneLine(text: string)
    requires '\n' !in text
    ensures LineLength(text + "\n") == |text + "\n"|
  {
    var line := text + "\n";
    assert forall j :: 0 <= j < |text| ==> line[j] == text[j] && text[j] in text;
  }

  lemma Rejoined(head: string, tail: string, text: string)
    ensures head + tail + (text + "\n") == head + (tail + text + "\n")
  {
  }

  lemma EntryPastNewline(codec: Codec, text: string)
    ensures Entry(codec, text + "\n", 0) == Entry(codec, text, 0)
  {
    TrimEndPastNewline(text);
  }

  /** An appended event shares its line with what follows the last newline. */
  lemma AppendJoinsTail(codec: Codec, file: string, e: Event)
    requires codec.Sound()
    ensures Parse(codec, file + (codec.encode(e) + "\n"))
            == Parse(codec, Head(file)) + EventsOf(Entry(codec, Tail(file) + codec.encode(e), 0))
  {
    hide Parse, Entry, EventsOf, LineLength;
    var text := Tail(file) + codec.encode(e);
    TailShape(file);
    OneLine(text);
    Rejoined(Head(file), Tail(file), codec.encode(e));
    LastLineParses(codec, Head(file), text + "\n");
    EntryPastNewline(codec, text);
  }

  /** An append adds its event to what a scan finds exactly if the file ended with a newline (or
      was empty), or what follows the last newline parses to nothing by itself and to the new
      event together with it. Otherwise the event is lost to the line before it, or takes that
      line's event away. */
  lemma ParseAppendsExactly(codec: Codec, file: string, e: Event)
    requires codec.Sound()
    ensures Parse(codec, file + (codec.encode(e) + "\n")) == Parse(codec, file) + [e]
            <==> Terminated(file)
                 || (codec.decode(TrimEnd(Tail(file))) == None && codec.decode(TrimEnd(Tail(file) + codec.encode(e))) == Some(e))
  {
    hide Parse;
    if Terminated(file) {
      ParseAppend(codec, file, e);
    } else {
      AppendJoinsTail(codec, file, e);
      TailParses(codec, file);
      var own, joined := Entry(codec, Tail(file), 0), Entry(codec, Tail(file) + codec.encode(e), 0);
      SameHead(Parse(codec, Head(file)), EventsOf(joined), EventsOf(own), e);
      OneMore(own, joined, e);
    }
  }

  lemma OneMore(own: seq<(Event, nat)>, joined: seq<(Event, nat)>, e: Event)
    requires |own| <= 1 && |joined| <= 1
    ensures EventsOf(joined) == EventsOf(own) + [e] <==> own == [] && joined != [] && joined[0].0 == e
  {
  }

  lemma SameHead<T>(head: seq<T>, joined: seq<T>, own: seq<T>, x: T)
    ensures head + joined == head + own + [x] <==> joined == own + [x]
  {
    assert (head + joined)[|head|..] == joined;
    assert (head + own + [x])[|head|..] == own + [x];
    assert head + own + [x] == head + (own + [x]);
  }

  /** The index an append writes is the index of the new file exactly when the old file ended
      with a newline (or was empty). Otherwise the new event shares a line with the old tail,
      and the recorded offset starts no line. */
  lemma AppendAgreesExactly(codec: Codec, file: string, e: Event)
    requires codec.Sound()
    ensures IndexOf(codec, file + (codec.encode(e) + "\n")) == Appended(codec, IndexOf(codec, file), e) <==> Terminated(file)
  {
    var line := codec.encode(e) + "\n";
    var ix := IndexOf(codec, file);
    var entries := Scan(codec, file + line);
    if Terminated(file) {
      ScanAppend(codec, file, e);
      assert OffsetsOf(entries) == ix.offsets + [(e.num, |file|)];
    } else if |entries| > 0 {
      EntriesStartLines(codec, file + line, |entries| - 1, |file|);
    }
  }

  /** No entry starts where no line does. */
  lemma EntriesStartLines(codec: Codec, text: string, k: nat, at: nat)
    requires k < |Scan(codec, text)| && 0 < at <= |text| && text[at - 1] != '\n'
    ensures Scan(codec, text)[k].1 != at
  {
    hide ScanLines, RawLines, LineStart, TotalLength;
    var i := EntryLine(codec, RawLines(text), 0, k);
    if i > 0 {
      LineStartsAfterNewline(text, i);
    } else {
      StartsAtZero(text);
    }
    LineStartIsTotal(text, i);
  }

  lemma StartsAtZero(text: string)
    ensures LineStart(text, 0) == 0
  {
  }

  // ---- rewriting ----

  function Encoded(codec: Codec, events: seq<Event>): string {
    if events == [] then "" else Encoded(codec, events[..|events| - 1]) + (codec.encode(events[|events| - 1]) + "\n")
  }

  lemma EmptyParses(codec: Codec)
    ensures Parse(codec, "") == []
  {
    assert RawLines("") == [];
  }

  lemma {:induction false} EncodedParses(codec: Codec, events: seq<Event>)
    requires codec.Sound()
    ensures Terminated(Encoded(codec, events)) && Parse(codec, Encoded(codec, events)) == events
  {
    hide Parse;
    if events == [] {
      EmptyParses(codec);
    } else {
      var most, last := events[..|events| - 1], events[|events| - 1];
      EncodedParses(codec, most);
      ParseAppend(codec, Encoded(codec, most), last);
      assert Parse(codec, Encoded(codec, events)) == most + [last];
    }
  }
}
