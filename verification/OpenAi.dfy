/**
 The incremental reader of an OpenAI-style stream: the accumulator object and the loop that
 buffers chunks, cuts complete lines off the buffer and ingests their payloads. Its result is a
 function of the concatenated text, so it does not depend on how the text was cut into chunks.
 */
module OpenAi {
  import opened Wrappers
  import opened Text
  import opened Fallback
  import opened FallbackPromises
  import opened FallbackStream
  import opened SseStream

  /** The text the chunks make up. */
  function Joined(chunks: seq<string>): string {
    if chunks == [] then "" else chunks[0] + Joined(chunks[1..])
  }

  predicate Hit(tools: seq<Slot>, index: nat, i: nat) {
    i < |tools| && tools[i].index == index
  }

  /** The slot a delta makes at position i, and the slots with it. */
  function Merged(tools: seq<Slot>, d: ToolDelta, i: nat): Slot {
    Merge(if Hit(tools, d.index, i) then tools[i] else Blank(d.index), d)
  }

  function Spliced(tools: seq<Slot>, d: ToolDelta, i: nat): seq<Slot>
    requires i <= |tools|
  {
    tools[..i] + [Merged(tools, d, i)] + tools[if Hit(tools, d.index, i) then i + 1 else i..]
  }

  lemma SplicedCons(tools: seq<Slot>, d: ToolDelta, i: nat)
    requires 0 < i <= |tools|
    ensures Spliced(tools, d, i) == [tools[0]] + Spliced(tools[1..], d, i - 1)
  {
    var rest := tools[1..];
    assert Hit(rest, d.index, i - 1) <==> Hit(tools, d.index, i);
    assert tools[..i] == [tools[0]] + rest[..i - 1];
    assert tools[i..] == rest[i - 1..];
    assert i < |tools| ==> tools[i + 1..] == rest[i..];
  }

  /** Where a delta goes: past the slots of lower index. */
  lemma {:induction false} PutAt(tools: seq<Slot>, d: ToolDelta, i: nat)
    requires i <= |tools| && forall k :: 0 <= k < i ==> tools[k].index < d.index
    requires i < |tools| ==> tools[i].index >= d.index
    ensures Put(tools, d) == Spliced(tools, d, i) && Lookup(Put(tools, d), d.index) == Merged(tools, d, i)
  {
    if i > 0 {
      PutAt(tools[1..], d, i - 1);
      SplicedCons(tools, d, i);
      assert ([tools[0]] + Put(tools[1..], d))[1..] == Put(tools[1..], d);
    } else {
      assert tools[..0] + [Merged(tools, d, 0)] == [Merged(tools, d, 0)];
    }
  }

  class Accumulator {
    var text: string
    var reasoning: string
    var tools: seq<Slot>
    var finish: string
    var usage: Usage
    var done: bool
    var sink: seq<Event>

    function Value(): State
      reads this
    {
      State(Acc(text, reasoning, tools, finish, usage, done), sink)
    }

    constructor ()
      ensures Value() == Start()
    {
      text, reasoning, tools, finish, usage, done, sink := "", "", [], "stop", Usage(0, 0, 0, 0), false, [];
    }

    /** The slot of the delta's index, made if it is missing, takes the delta in. */
    method PutDelta(d: ToolDelta) returns (slot: Slot)
      modifies this`tools
      ensures tools == Put(old(tools), d) && slot == Lookup(tools, d.index)
    {
      var i := 0;
      while i < |tools| && tools[i].index < d.index
        invariant i <= |tools|
        invariant forall k :: 0 <= k < i ==> tools[k].index < d.index
      {
        i := i + 1;
      }
      PutAt(tools, d, i);
      slot := Merged(tools, d, i);
      if i < |tools| && tools[i].index == d.index {
        tools := tools[..i] + [slot] + tools[i + 1..];
      } else {
        tools := tools[..i] + [slot] + tools[i..];
      }
    }

    method IngestTools(ds: seq<ToolDelta>)
      modifies this`tools, this`sink
      ensures Value() == AddTools(old(Value()), ds)
    {
      var i := 0;
      assert ds[0..] == ds;
      while i < |ds|
        invariant i <= |ds|
        invariant AddTools(Value(), ds[i..]) == AddTools(old(Value()), ds)
      {
        assert ds[i..][0] == ds[i] && ds[i..][1..] == ds[i + 1..];
        var slot := PutDelta(ds[i]);
        sink := sink + [ToolCall(ds[i].index, slot.id, slot.name, Given(ds[i].arguments))];
        i := i + 1;
      }
    }

    /** Ingests one payload; true when it ends the stream. */
    method IngestPayload(decode: Decoder, payload: string) returns (finished: bool)
      requires !done
      modifies this
      ensures Value() == Ingest(decode, old(Value()), payload) && finished == done
    {
      var data := Trim(payload);
      if data == "[DONE]" {
        done := true;
        sink := sink + [Done(finish)];
        return true;
      }
      var packet := decode(data);
      if packet.None? {
        return false;
      }
      if packet.value.usage.Some? {
        usage := packet.value.usage.value;
      }
      if packet.value.choice.Some? {
        var choice := packet.value.choice.value;
        if choice.finish.Some? {
          finish := choice.finish.value;
        }
        if choice.delta.Some? {
          IngestDelta(choice.delta.value);
        }
      }
      finished := false;
    }

    method IngestDelta(d: Delta)
      requires !done
      modifies this`text, this`reasoning, this`tools, this`sink
      ensures Value() == AddDelta(old(Value()), d) && !done
    {
      if d.content.Some? && d.content.value != "" {
        text := text + d.content.value;
        sink := sink + [Piece(d.content.value)];
      }
      if d.reasoning.Some? && d.reasoning.value != "" {
        reasoning := reasoning + d.reasoning.value;
        sink := sink + [Event.Reasoning(d.reasoning.value)];
      }
      IngestTools(d.tools);
    }
  }

  /** What is still to be ingested when `text` is left. */
  function Left(decode: Decoder, s: State, text: string): State {
    IngestAll(decode, s, Payloads(text))
  }

  /** Cutting the first line off ingests its payload, if it has one. */
  lemma CutLine(decode: Decoder, s: State, buf: string, rest: string, nl: nat)
    requires !s.acc.done && nl < |buf| && buf[nl] == '\n' && '\n' !in buf[..nl]
    ensures var line := Trim(buf[..nl]);
            Left(decode, s, buf + rest) ==
              Left(decode, if StartsWith(line, "data:") then Ingest(decode, s, line[5..]) else s, buf[nl + 1..] + rest)
  {
    var all, line := buf + rest, Trim(buf[..nl]);
    assert all[..nl] == buf[..nl] && all[nl + 1..] == buf[nl + 1..] + rest;
    FirstLine(all, nl);
    var lines := CompleteLines(buf[nl + 1..] + rest);
    assert ([buf[..nl]] + lines)[1..] == lines;
    if StartsWith(line, "data:") {
      assert ([line[5..]] + PayloadsOf(lines))[1..] == PayloadsOf(lines);
    } else {
      assert [] + PayloadsOf(lines) == PayloadsOf(lines);
    }
  }

  lemma NothingLeft(decode: Decoder, s: State, text: string)
    requires s.acc.done || '\n' !in text
    ensures Left(decode, s, text) == s
  {
    if '\n' !in text {
      NoLine(text);
    }
  }

  /** Cuts complete lines off the buffer until none is left or the stream is finished. `rest` is
      the text still to come. */
  method DrainLines(acc: Accumulator, decode: Decoder, buffered: string, ghost rest: string) returns (buf: string)
    requires !acc.done
    modifies acc
    ensures Left(decode, acc.Value(), buf + rest) == Left(decode, old(acc.Value()), buffered + rest)
    ensures acc.done || '\n' !in buf
  {
    buf := buffered;
    while '\n' in buf && !acc.done
      invariant Left(decode, acc.Value(), buf + rest) == Left(decode, old(acc.Value()), buffered + rest)
      decreases |buf|
    {
      var nl := FirstNewline(buf);
      CutLine(decode, acc.Value(), buf, rest, nl);
      var line := Trim(buf[..nl]);
      buf := buf[nl + 1..];
      if StartsWith(line, "data:") {
        var finished := acc.IngestPayload(decode, line[5..]);
      }
    }
  }

  /** Reads the chunks of a response; `broken` says that an error follows the last of them. */
  method ConsumeStream(decode: Decoder, newId: nat -> string, chunks: seq<string>, broken: bool)
      returns (reply: Option<Reply>, sink: seq<Event>)
    ensures (reply, sink) == Heard(decode, newId, Joined(chunks), broken)
  {
    var acc := new Accumulator();
    var buf, i := "", 0;
    assert chunks[0..] == chunks;
    assert "" + Joined(chunks) == Joined(chunks);
    while i < |chunks|
      invariant i <= |chunks| && fresh(acc) && !acc.done && '\n' !in buf
      invariant Left(decode, acc.Value(), buf + Joined(chunks[i..])) == Left(decode, Start(), Joined(chunks))
    {
      ghost var rest := Joined(chunks[i + 1..]);
      assert chunks[i..][0] == chunks[i] && chunks[i..][1..] == chunks[i + 1..];
      assert buf + (chunks[i] + rest) == (buf + chunks[i]) + rest;
      buf := DrainLines(acc, decode, buf + chunks[i], rest);
      if acc.done {
        NothingLeft(decode, acc.Value(), buf + rest);
        return Some(Finish(acc.Value().acc, newId)), acc.sink;
      }
      i := i + 1;
    }
    assert buf + "" == buf;
    NothingLeft(decode, acc.Value(), buf);
    if broken {
      return None, acc.sink;
    }
    return Some(Finish(acc.Value().acc, newId)), acc.sink + [Done(acc.finish)];
  }

  lemma {:induction false} VisibleText(events: seq<Event>)
    requires Reset !in events
    ensures TextOf(Visible(events)) == TextOf(events)
  {
    if events != [] {
      var before, last := events[..|events| - 1], events[|events| - 1];
      VisibleText(before);
      assert last in events && last != Reset;
      if !last.Done? {
        EventSnoc(Visible(before), last);
      }
    }
  }

  /** Through all fallbacks and retries: when the winning call was such a stream, the text left
      with the consumer is the text of the reply. */
  lemma ShownTextIsTheReplys(env: Env, now: nat, breakers: map<string, Breaker>, chain: seq<Entry>,
                             decode: Decoder, newId: nat -> string, text: string, broken: bool)
    requires var (run, end) := Execute(env, now, breakers, chain);
             end.Won? && run.calls != [] && Heard(decode, newId, text, broken).0.Some?
             && env.call(|run.calls| - 1).events == Heard(decode, newId, text, broken).1
    ensures TextOf(Visible(Execute(env, now, breakers, chain).0.stream)) == Heard(decode, newId, text, broken).0.value.text
  {
    StreamIsTheLastCalls(env, now, breakers, chain);
    var tools := ReplyIsWhatTheSinkTold(decode, newId, text, broken);
    VisibleText(Heard(decode, newId, text, broken).1);
  }
}
