/**
 The event log store: the files of all sessions, and the in-memory index of those touched.
 */
module Jsonl {
  import opened Wrappers
  import opened Text
  import opened EventLog

  /** A session without a file reads as an empty file. */
  function FileIn(files: map<string, string>, session: string): string {
    if session in files then files[session] else ""
  }

  /** Files are newline-terminated, and every index is the one a full scan would build. */
  ghost predicate Consistent(codec: Codec, files: map<string, string>, index: map<string, SessionIndex>) {
    codec.Sound()
    && (forall s :: s in files ==> Terminated(files[s]))
    && (forall s :: s in index ==> index[s] == IndexOf(codec, FileIn(files, s)))
  }

  class JsonlStore {
    const codec: Codec
    /** The log directory. */
    var files: map<string, string>
    var index: map<string, SessionIndex>

    ghost predicate Valid()
      reads this
    {
      Consistent(codec, files, index)
    }

    function File(session: string): string
      reads this
    {
      FileIn(files, session)
    }

    /** The session's events as a full parse of its file finds them. */
    function Log(session: string): seq<Event>
      reads this
    {
      Parse(codec, File(session))
    }

    /** A store over an existing directory; nothing is indexed yet. */
    constructor (codec: Codec, files: map<string, string>)
      ensures this.codec == codec && this.files == files && index == map[]
    {
      this.codec := codec;
      this.files := files;
      index := map[];
    }

    /** `ensure_index`: one pass over the lines of a session not indexed yet. */
    method EnsureIndex(session: string)
      modifies this`index
      ensures index == if session in old(index) then old(index) else old(index)[session := IndexOf(codec, File(session))]
    {
      if session in index {
        return;
      }
      var built := BuildIndex(codec, File(session));
      index := index[session := built];
    }

    /** `append`: one line at the end of the file, one entry at the end of the index. */
    method Append(session: string, e: Event)
      modifies this
      ensures files == old(files)[session := old(File(session)) + (codec.encode(e) + "\n")]
      ensures var ix := if session in old(index) then old(index)[session] else IndexOf(codec, old(File(session)));
              index == old(index)[session := Appended(codec, ix, e)]
      ensures old(Valid()) ==> Valid() && Log(session) == old(Log(session)) + [e]
    {
      hide Parse, IndexOf, Appended;
      EnsureIndex(session);
      ghost var before := index;
      WriteLine(session, e);
      if old(Valid()) {
        AppendKeeps(codec, old(files), before, session, e);
      }
    }

    /** The write itself, under the index lock. */
    method WriteLine(session: string, e: Event)
      requires session in index
      modifies this
      ensures files == old(files)[session := old(File(session)) + (codec.encode(e) + "\n")]
      ensures index == old(index)[session := Appended(codec, old(index)[session], e)]
    {
      var line := codec.encode(e) + "\n";
      var ix := index[session];
      files := files[session := File(session) + line];
      index := index[session := SessionIndex(ix.offsets + [(e.num, ix.nextOffset)], ix.nextOffset + |line|)];
    }

    /** `read_session`: every line that parses, in file order. */
    method ReadSession(session: string) returns (out: seq<Event>)
      ensures out == Log(session)
    {
      out := DecodeAll(codec, Lines(File(session)));
      DecodeText(codec, File(session), 0);
    }

    /** `replay_since`: seeks to the first indexed line past `from`, parses the rest and filters
        it. With a valid index that is filtering a full parse. */
    method ReplaySince(session: string, from: int) returns (out: seq<Event>)
      requires Valid()
      modifies this`index
      ensures Valid()
      ensures out == After(Log(session), from)
    {
      EnsureIndex(session);
      var file := File(session);
      SeekEqualsScan(codec, file, from);
      match FirstAfter(index[session].offsets, from)
      case None =>
        return [];
      case Some(k) =>
        var events := DecodeAll(codec, Lines(file[index[session].offsets[k].1..]));
        out := FilterAfter(events, from);
    }

    /** `delete_session`. */
    method DeleteSession(session: string)
      modifies this
      ensures files == old(files) - {session} && index == old(index) - {session}
      ensures old(Valid()) ==> Valid()
      ensures Log(session) == []
    {
      files := files - {session};
      index := index - {session};
      EmptyParses(codec);
    }

    /** `rewrite_session`: a fresh file with one line an event, and its index. */
    method RewriteSession(session: string, events: seq<Event>)
      requires codec.Sound()
      modifies this
      ensures files == old(files)[session := Encoded(codec, events)]
      ensures index == old(index)[session := IndexOf(codec, Encoded(codec, events))]
      ensures old(Valid()) ==> Valid()
      ensures Log(session) == events
    {
      var text, built := EncodeAll(codec, events);
      EncodedParses(codec, events);
      files := files[session := text];
      index := index[session := built];
    }

    /** `truncate_after_seq`: reads, filters and rewrites. */
    method TruncateAfterSeq(session: string, max: int)
      requires codec.Sound()
      modifies this
      ensures old(Valid()) ==> Valid()
      ensures Log(session) == UpTo(old(Log(session)), max)
      ensures files.Keys == old(files).Keys + {session} && forall s :: s != session ==> File(s) == old(File(s))
    {
      var events := ReadSession(session);
      var kept := FilterUpTo(events, max);
      RewriteSession(session, kept);
    }
  }

  /** What an append does to a newline-terminated file. */
  lemma AppendStep(codec: Codec, file: string, e: Event)
    requires codec.Sound() && Terminated(file)
    ensures var next := file + (codec.encode(e) + "\n");
            Terminated(next) && IndexOf(codec, next) == Appended(codec, IndexOf(codec, file), e)
            && Parse(codec, next) == Parse(codec, file) + [e]
  {
    AppendAgreesExactly(codec, file, e);
    ParseAppend(codec, file, e);
  }

  lemma AppendKeeps(codec: Codec, files: map<string, string>, index: map<string, SessionIndex>, session: string, e: Event)
    requires Consistent(codec, files, index) && session in index
    ensures Consistent(codec, files[session := FileIn(files, session) + (codec.encode(e) + "\n")],
                       index[session := Appended(codec, index[session], e)])
    ensures Parse(codec, FileIn(files, session) + (codec.encode(e) + "\n")) == Parse(codec, FileIn(files, session)) + [e]
  {
    AppendStep(codec, FileIn(files, session), e);
  }

  method FilterAfter(events: seq<Event>, from: int) returns (out: seq<Event>)
    ensures out == After(events, from)
  {
    out := [];
    for i := 0 to |events|
      invariant out + After(events[i..], from) == After(events, from)
    {
      var own := if events[i].num > from then [events[i]] else [];
      assert events[i..][1..] == events[i + 1..];
      Assoc(out, own, After(events[i + 1..], from));
      out := out + own;
    }
    assert events[|events|..] == [];
  }

  method FilterUpTo(events: seq<Event>, max: int) returns (out: seq<Event>)
    ensures out == UpTo(events, max)
  {
    out := [];
    for i := 0 to |events|
      invariant out + UpTo(events[i..], max) == UpTo(events, max)
    {
      var own := if events[i].num <= max then [events[i]] else [];
      assert events[i..][1..] == events[i + 1..];
      Assoc(out, own, UpTo(events[i + 1..], max));
      out := out + own;
    }
    assert events[|events|..] == [];
  }

  method DecodeAll(codec: Codec, lines: seq<string>) returns (out: seq<Event>)
    ensures out == DecodeLines(codec, lines)
  {
    out := [];
    for i := 0 to |lines|
      invariant out + DecodeLines(codec, lines[i..]) == DecodeLines(codec, lines)
    {
      var own := EventsOf(Entry(codec, lines[i], 0));
      assert lines[i..][1..] == lines[i + 1..];
      Assoc(out, own, DecodeLines(codec, lines[i + 1..]));
      out := out + own;
    }
    assert lines[|lines|..] == [];
  }

  /** The text of a fresh file and its index, built line by line. */
  method EncodeAll(codec: Codec, events: seq<Event>) returns (text: string, index: SessionIndex)
    requires codec.Sound()
    ensures text == Encoded(codec, events) && index == IndexOf(codec, text)
  {
    text := "";
    var offsets: seq<(int, nat)> := [];
    var next: nat := 0;
    for i := 0 to |events|
      invariant text == Encoded(codec, events[..i])
      invariant SessionIndex(offsets, next) == IndexOf(codec, text)
    {
      var line := codec.encode(events[i]) + "\n";
      EncodedParses(codec, events[..i]);
      AppendAgreesExactly(codec, text, events[i]);
      assert events[..i + 1] == events[..i] + [events[i]];
      text := text + line;
      offsets := offsets + [(events[i].num, next)];
      next := next + |line|;
    }
    assert events[..|events|] == events;
    index := SessionIndex(offsets, next);
  }

  /** One pass over a file's lines, keeping the offset where each parsable line starts. */
  method BuildIndex(codec: Codec, file: string) returns (index: SessionIndex)
    ensures index == IndexOf(codec, file)
  {
    var lines := RawLines(file);
    var offsets: seq<(int, nat)> := [];
    var next: nat := 0;
    for i := 0 to |lines|
      invariant next == TotalLength(lines[..i])
      invariant offsets == OffsetsOf(ScanLines(codec, lines[..i], 0))
    {
      var entry := Entry(codec, lines[i], next);
      IndexSnoc(codec, lines, i);
      offsets := offsets + OffsetsOf(entry);
      next := next + |lines[i]|;
    }
    assert lines[..|lines|] == lines;
    RawLength(file);
    return SessionIndex(offsets, next);
  }

  lemma IndexSnoc(codec: Codec, lines: seq<string>, i: nat)
    requires i < |lines|
    ensures TotalLength(lines[..i + 1]) == TotalLength(lines[..i]) + |lines[i]|
    ensures OffsetsOf(ScanLines(codec, lines[..i + 1], 0))
            == OffsetsOf(ScanLines(codec, lines[..i], 0)) + OffsetsOf(Entry(codec, lines[i], TotalLength(lines[..i])))
  {
    TotalSnoc(lines, i);
    assert lines[..i + 1] == lines[..i] + [lines[i]];
    ScanSnoc(codec, lines[..i], lines[i], 0);
    OffsetsConcat(ScanLines(codec, lines[..i], 0), Entry(codec, lines[i], TotalLength(lines[..i])));
  }

  lemma OffsetsConcat(a: seq<(Event, nat)>, b: seq<(Event, nat)>)
    ensures OffsetsOf(a + b) == OffsetsOf(a) + OffsetsOf(b)
  {
  }

  lemma {:induction false} TotalSnoc(lines: seq<string>, i: nat)
    requires i < |lines|
    ensures TotalLength(lines[..i + 1]) == TotalLength(lines[..i]) + |lines[i]|
  {
    if i == 0 {
      assert lines[..1][1..] == [];
    } else {
      TotalSnoc(lines[1..], i - 1);
      assert lines[..i + 1][1..] == lines[1..][..i] && lines[..i][1..] == lines[1..][..i - 1];
    }
  }
}
