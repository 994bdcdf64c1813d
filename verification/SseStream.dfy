/**
 An OpenAI-style event stream on values: which payloads a text holds, what ingesting them yields,
 and what is sent to the sink meanwhile. JSON decoding is a parameter: `decode` gives the parts
 of a payload the accumulator looks at, or nothing if the payload is not JSON.
 */
module SseStream {
  import opened Wrappers
  import opened Text
  import opened Fallback

  datatype Usage = Usage(prompt: nat, completion: nat, total: nat, cached: nat)

  /** One element of `delta.tool_calls`; `index` is 0 if it is missing. */
  datatype ToolDelta = ToolDelta(index: nat, id: Option<string>, name: Option<string>, arguments: Option<string>)

  datatype Delta = Delta(content: Option<string>, reasoning: Option<string>, tools: seq<ToolDelta>)

  datatype Choice = Choice(finish: Option<string>, delta: Option<Delta>)

  datatype Packet = Packet(usage: Option<Usage>, choice: Option<Choice>)

  type Decoder = string -> Option<Packet>

  /** What has arrived of the tool call with one index. */
  datatype Slot = Slot(index: nat, id: Option<string>, name: Option<string>, arguments: string)

  /** The accumulator; `tools` is the ordered map by index. */
  datatype Acc = Acc(text: string, reasoning: string, tools: seq<Slot>, finish: string, usage: Usage, done: bool)

  /** The accumulator with what the sink got. */
  datatype State = State(acc: Acc, sink: seq<Event>)

  datatype NamedCall = NamedCall(id: string, name: string, arguments: string)

  datatype Reply = Reply(text: string, reasoning: Option<string>, calls: seq<NamedCall>, finish: string, usage: Usage)

  function Start(): State {
    State(Acc("", "", [], "stop", Usage(0, 0, 0, 0), false), [])
  }

  // ---- payloads ----

  /** The lines of a text that are terminated. */
  function CompleteLines(text: string): seq<string> {
    var parts := Split(text, '\n');
    parts[..|parts| - 1]
  }

  function PayloadsOf(lines: seq<string>): seq<string> {
    if lines == [] then []
    else
      var line := Trim(lines[0]);
      (if StartsWith(line, "data:") then [line[5..]] else []) + PayloadsOf(lines[1..])
  }

  function Payloads(text: string): seq<string> {
    PayloadsOf(CompleteLines(text))
  }

  // ---- ingesting ----

  function Merge(slot: Slot, d: ToolDelta): Slot {
    Slot(slot.index, if d.id.Some? then d.id else slot.id, if d.name.Some? then d.name else slot.name,
         slot.arguments + Given(d.arguments))
  }

  function Given(s: Option<string>): string {
    if s.Some? then s.value else ""
  }

  function Blank(index: nat): Slot {
    Slot(index, None, None, "")
  }

  /** Merges a delta into the slot of its index, which is inserted in order if it is new. */
  function Put(tools: seq<Slot>, d: ToolDelta): seq<Slot> {
    if tools == [] || tools[0].index > d.index then [Merge(Blank(d.index), d)] + tools
    else if tools[0].index == d.index then [Merge(tools[0], d)] + tools[1..]
    else [tools[0]] + Put(tools[1..], d)
  }

  function Lookup(tools: seq<Slot>, index: nat): Slot {
    if tools == [] then Blank(index) else if tools[0].index == index then tools[0] else Lookup(tools[1..], index)
  }

  predicate HasSlot(tools: seq<Slot>, index: nat) {
    exists i :: 0 <= i < |tools| && tools[i].index == index
  }

  function AddTool(s: State, d: ToolDelta): State {
    var tools := Put(s.acc.tools, d);
    var slot := Lookup(tools, d.index);
    State(s.acc.(tools := tools), s.sink + [ToolCall(d.index, slot.id, slot.name, Given(d.arguments))])
  }

  function AddTools(s: State, ds: seq<ToolDelta>): State
    decreases |ds|
  {
    if ds == [] then s else AddTools(AddTool(s, ds[0]), ds[1..])
  }

  function AddText(s: State, content: Option<string>): State {
    if Given(content) == "" then s
    else State(s.acc.(text := s.acc.text + content.value), s.sink + [Piece(content.value)])
  }

  function AddReasoning(s: State, reasoning: Option<string>): State {
    if Given(reasoning) == "" then s
    else State(s.acc.(reasoning := s.acc.reasoning + reasoning.value), s.sink + [Event.Reasoning(reasoning.value)])
  }

  function AddDelta(s: State, d: Delta): State {
    AddTools(AddReasoning(AddText(s, d.content), d.reasoning), d.tools)
  }

  function AddUsage(s: State, usage: Option<Usage>): State {
    if usage.Some? then s.(acc := s.acc.(usage := usage.value)) else s
  }

  function AddFinish(s: State, finish: Option<string>): State {
    if finish.Some? then s.(acc := s.acc.(finish := finish.value)) else s
  }

  /** `done` in the result says that the stream is over. */
  function Ingest(decode: Decoder, s: State, payload: string): State {
    var data := Trim(payload);
    if data == "[DONE]" then State(s.acc.(done := true), s.sink + [Done(s.acc.finish)])
    else
      match decode(data)
      case None => s
      case Some(p) =>
        var t := AddUsage(s, p.usage);
        if p.choice.None? then t
        else
          var u := AddFinish(t, p.choice.value.finish);
          if p.choice.value.delta.None? then u else AddDelta(u, p.choice.value.delta.value)
  }

  /** Ingests payloads up to the one that ends the stream. */
  function IngestAll(decode: Decoder, s: State, payloads: seq<string>): State
    decreases |payloads|
  {
    if payloads == [] || s.acc.done then s else IngestAll(decode, Ingest(decode, s, payloads[0]), payloads[1..])
  }

  function Calls(tools: seq<Slot>, newId: nat -> string): seq<NamedCall> {
    if tools == [] then []
    else
      var t := tools[0];
      (if t.name.None? then []
       else [NamedCall(if t.id.Some? then t.id.value else newId(t.index), t.name.value,
                       if t.arguments == "" then "{}" else t.arguments)]) + Calls(tools[1..], newId)
  }

  function Finish(acc: Acc, newId: nat -> string): Reply {
    Reply(acc.text, if acc.reasoning == "" then None else Some(acc.reasoning), Calls(acc.tools, newId), acc.finish, acc.usage)
  }

  /** What reading a text comes to when the connection ends after it, well or broken: the reply,
      unless it broke before `[DONE]`, and what the sink got. */
  function Heard(decode: Decoder, newId: nat -> string, text: string, broken: bool): (Option<Reply>, seq<Event>) {
    var s := IngestAll(decode, Start(), Payloads(text));
    if s.acc.done then (Some(Finish(s.acc, newId)), s.sink)
    else if broken then (None, s.sink)
    else (Some(Finish(s.acc, newId)), s.sink + [Done(s.acc.finish)])
  }

  // ---- lines ----

  lemma FirstLine(text: string, nl: nat)
    requires nl < |text| && text[nl] == '\n' && '\n' !in text[..nl]
    ensures CompleteLines(text) == [text[..nl]] + CompleteLines(text[nl + 1..])
  {
    SplitAfter(text[..nl], text[nl + 1..], '\n');
    assert text == text[..nl] + ['\n'] + text[nl + 1..];
  }

  lemma NoLine(text: string)
    requires '\n' !in text
    ensures CompleteLines(text) == []
  {
    SplitPlain(text, '\n');
  }

  /** A last line without a newline is not read, whatever it says. */
  lemma UnterminatedLineIsLost(text: string, tail: string)
    requires '\n' !in tail && (text == "" || text[|text| - 1] == '\n')
    ensures Payloads(text + tail) == Payloads(text)
    ensures forall decode, newId, broken :: Heard(decode, newId, text + tail, broken) == Heard(decode, newId, text, broken)
  {
    LinesOfRest(text, tail);
  }

  lemma {:induction false} LinesOfRest(text: string, tail: string)
    requires '\n' !in tail && (text == "" || text[|text| - 1] == '\n')
    ensures CompleteLines(text + tail) == CompleteLines(text)
    decreases |text|
  {
    if text == "" {
      assert text + tail == tail;
      NoLine(tail);
      NoLine("");
    } else {
      var nl := FirstNewline(text);
      FirstLine(text, nl);
      assert (text + tail)[..nl] == text[..nl] && (text + tail)[nl + 1..] == text[nl + 1..] + tail;
      FirstLine(text + tail, nl);
      LinesOfRest(text[nl + 1..], tail);
    }
  }

  function FirstNewline(text: string): (nl: nat)
    requires '\n' in text
    ensures nl < |text| && text[nl] == '\n' && '\n' !in text[..nl]
  {
    if text[0] == '\n' then 0
    else
      var nl := FirstNewline(text[1..]) + 1;
      assert text[..nl] == [text[0]] + text[1..][..nl - 1];
      nl
  }

  // ---- the sink tells all ----

  function TextOf(events: seq<Event>): string {
    if events == [] then ""
    else
      var last := events[|events| - 1];
      TextOf(events[..|events| - 1]) + if last.Piece? then last.text else ""
  }

  function ReasoningOf(events: seq<Event>): string {
    if events == [] then ""
    else
      var last := events[|events| - 1];
      ReasoningOf(events[..|events| - 1]) + if last.Reasoning? then last.text else ""
  }

  /** What a consumer of the sink knows of the tool call with an index: the id and name it was
      told last, and the argument pieces in arrival order. */
  function SlotOf(events: seq<Event>, index: nat): Slot {
    if events == [] then Blank(index)
    else
      var last, before := events[|events| - 1], SlotOf(events[..|events| - 1], index);
      if last.ToolCall? && last.index == index then Slot(index, last.id, last.name, before.arguments + last.arguments) else before
  }

  predicate Mentioned(events: seq<Event>, index: nat) {
    exists i :: 0 <= i < |events| && events[i].ToolCall? && events[i].index == index
  }

  ghost predicate Ascending(tools: seq<Slot>) {
    forall i, j :: 0 <= i < j < |tools| ==> tools[i].index < tools[j].index
  }

  /** The slots are those the events tell of, in index order. */
  ghost predicate SlotsFrom(tools: seq<Slot>, events: seq<Event>) {
    Ascending(tools)
    && forall i: nat :: Lookup(tools, i) == SlotOf(events, i) && (HasSlot(tools, i) <==> Mentioned(events, i))
  }

  /** The sink's events hold everything the accumulator does but finish reason and usage. */
  ghost predicate Told(s: State) {
    s.acc.text == TextOf(s.sink) && s.acc.reasoning == ReasoningOf(s.sink) && SlotsFrom(s.acc.tools, s.sink)
    && Reset !in s.sink
  }

  lemma {:induction false} PutLookup(tools: seq<Slot>, d: ToolDelta)
    requires Ascending(tools)
    ensures forall i: nat :: Lookup(Put(tools, d), i) == if i == d.index then Merge(Lookup(tools, i), d) else Lookup(tools, i)
  {
    if tools == [] {
      assert [Merge(Blank(d.index), d)] + tools == [Merge(Blank(d.index), d)];
    } else if tools[0].index > d.index {
      LookupMisses(tools, d.index);
      assert ([Merge(Blank(d.index), d)] + tools)[1..] == tools;
    } else if tools[0].index == d.index {
      assert ([Merge(tools[0], d)] + tools[1..])[1..] == tools[1..];
    } else {
      PutLookup(tools[1..], d);
      assert ([tools[0]] + Put(tools[1..], d))[1..] == Put(tools[1..], d);
    }
  }

  lemma {:induction false} LookupMisses(tools: seq<Slot>, index: nat)
    requires !HasSlot(tools, index) || (Ascending(tools) && tools != [] && index < tools[0].index)
    ensures Lookup(tools, index) == Blank(index)
  {
    if tools != [] {
      assert tools[0].index != index;
      assert forall i :: 0 <= i < |tools| - 1 ==> tools[1..][i] == tools[i + 1];
      LookupMisses(tools[1..], index);
    }
  }

  lemma {:induction false} PutKeepsOrder(tools: seq<Slot>, d: ToolDelta)
    requires Ascending(tools)
    ensures Ascending(Put(tools, d)) && forall i: nat :: HasSlot(Put(tools, d), i) <==> HasSlot(tools, i) || i == d.index
    ensures Put(tools, d) != [] && Put(tools, d)[0].index == if tools == [] || d.index < tools[0].index then d.index else tools[0].index
  {
    hide HasSlot;
    if tools != [] && tools[0].index < d.index {
      PutKeepsOrder(tools[1..], d);
      ConsSlots(tools[0], tools[1..]);
      ConsSlots(tools[0], Put(tools[1..], d));
      assert tools == [tools[0]] + tools[1..];
    } else if tools != [] && tools[0].index == d.index {
      ConsSlots(tools[0], tools[1..]);
      ConsSlots(Merge(tools[0], d), tools[1..]);
      assert tools == [tools[0]] + tools[1..];
    } else {
      ConsSlots(Merge(Blank(d.index), d), tools);
    }
  }

  lemma ConsSlots(head: Slot, tail: seq<Slot>)
    ensures forall i: nat :: HasSlot([head] + tail, i) <==> i == head.index || HasSlot(tail, i)
  {
    var all := [head] + tail;
    assert all[0] == head;
    forall i: nat | HasSlot(tail, i) ensures HasSlot(all, i) {
      var k :| 0 <= k < |tail| && tail[k].index == i;
      assert all[k + 1].index == i;
    }
  }

  lemma EventSnoc(events: seq<Event>, e: Event)
    ensures TextOf(events + [e]) == TextOf(events) + (if e.Piece? then e.text else "")
    ensures ReasoningOf(events + [e]) == ReasoningOf(events) + (if e.Reasoning? then e.text else "")
    ensures forall i: nat :: SlotOf(events + [e], i) ==
              if e.ToolCall? && e.index == i then Slot(i, e.id, e.name, SlotOf(events, i).arguments + e.arguments) else SlotOf(events, i)
    ensures forall i: nat :: Mentioned(events + [e], i) <==> Mentioned(events, i) || (e.ToolCall? && e.index == i)
  {
    var all := events + [e];
    assert all[..|all| - 1] == events && all[|events|] == e;
    forall i: nat | Mentioned(events, i) ensures Mentioned(all, i) {
      var k :| 0 <= k < |events| && events[k].ToolCall? && events[k].index == i;
      assert all[k] == events[k];
    }
  }

  lemma AddToolTells(s: State, d: ToolDelta)
    requires Told(s)
    ensures Told(AddTool(s, d))
  {
    var t := AddTool(s, d);
    AddToolSlots(s.acc.tools, s.sink, d);
    EventSnoc(s.sink, t.sink[|s.sink|]);
    assert t.acc.text + "" == t.acc.text && t.acc.reasoning + "" == t.acc.reasoning;
  }

  lemma AddToolSlots(tools: seq<Slot>, events: seq<Event>, d: ToolDelta)
    requires SlotsFrom(tools, events)
    ensures var slot := Lookup(Put(tools, d), d.index);
            SlotsFrom(Put(tools, d), events + [ToolCall(d.index, slot.id, slot.name, Given(d.arguments))])
  {
    hide Put, Lookup, SlotOf, HasSlot, Mentioned, Ascending, TextOf, ReasoningOf;
    var slot := Lookup(Put(tools, d), d.index);
    PutLookup(tools, d);
    PutKeepsOrder(tools, d);
    EventSnoc(events, ToolCall(d.index, slot.id, slot.name, Given(d.arguments)));
    SlotHasIndex(events, d.index);
  }

  lemma {:induction false} SlotHasIndex(events: seq<Event>, index: nat)
    ensures SlotOf(events, index).index == index
  {
    if events != [] {
      SlotHasIndex(events[..|events| - 1], index);
    }
  }

  lemma {:induction false} AddToolsTells(s: State, ds: seq<ToolDelta>)
    requires Told(s)
    ensures Told(AddTools(s, ds)) && AddTools(s, ds).acc.finish == s.acc.finish && AddTools(s, ds).acc.done == s.acc.done
    decreases |ds|
  {
    if ds != [] {
      AddToolTells(s, ds[0]);
      AddToolsTells(AddTool(s, ds[0]), ds[1..]);
    }
  }

  lemma AddTextTells(s: State, content: Option<string>)
    requires Told(s)
    ensures Told(AddText(s, content)) && Told(AddReasoning(s, content))
  {
    if Given(content) != "" {
      EventSnoc(s.sink, Piece(content.value));
      EventSnoc(s.sink, Event.Reasoning(content.value));
      assert s.acc.text + "" == s.acc.text && s.acc.reasoning + "" == s.acc.reasoning;
    }
  }

  lemma DoneTells(s: State, reason: string)
    requires Told(s)
    ensures Told(s.(sink := s.sink + [Done(reason)]))
  {
    EventSnoc(s.sink, Done(reason));
    assert s.acc.text + "" == s.acc.text && s.acc.reasoning + "" == s.acc.reasoning;
  }

  /** Only the payload that ends the stream sends a `Done`, and it carries the finish reason. */
  lemma IngestTells(decode: Decoder, s: State, payload: string)
    requires Told(s) && !s.acc.done
    ensures var t := Ingest(decode, s, payload);
            Told(t) && (t.acc.done ==> t.sink == s.sink + [Done(t.acc.finish)])
  {
    var data := Trim(payload);
    if data == "[DONE]" {
      DoneTells(s, s.acc.finish);
    } else if decode(data).Some? && decode(data).value.choice.Some? {
      var p := decode(data).value;
      var u := AddFinish(AddUsage(s, p.usage), p.choice.value.finish);
      assert Told(u);
      if p.choice.value.delta.Some? {
        var d := p.choice.value.delta.value;
        AddTextTells(u, d.content);
        AddTextTells(AddText(u, d.content), d.reasoning);
        AddToolsTells(AddReasoning(AddText(u, d.content), d.reasoning), d.tools);
      }
    }
  }

  ghost predicate EndsWithDone(s: State) {
    s.sink != [] && s.sink[|s.sink| - 1] == Done(s.acc.finish)
  }

  lemma {:induction false} IngestAllTells(decode: Decoder, s: State, payloads: seq<string>)
    requires Told(s) && (s.acc.done ==> EndsWithDone(s))
    ensures var t := IngestAll(decode, s, payloads);
            Told(t) && (t.acc.done ==> EndsWithDone(t))
    decreases |payloads|
  {
    if payloads != [] && !s.acc.done {
      IngestTells(decode, s, payloads[0]);
      IngestAllTells(decode, Ingest(decode, s, payloads[0]), payloads[1..]);
    }
  }

  /** A consumer that sees only the sink can rebuild the reply: text and reasoning are the pieces
      in order, the calls are those of the slots the events tell of, and the last event is the
      `Done` with the finish reason. */
  lemma ReplyIsWhatTheSinkTold(decode: Decoder, newId: nat -> string, text: string, broken: bool) returns (tools: seq<Slot>)
    requires Heard(decode, newId, text, broken).0.Some?
    ensures var (reply, sink) := Heard(decode, newId, text, broken);
            var r := reply.value;
            r.text == TextOf(sink) && r.reasoning == (if ReasoningOf(sink) == "" then None else Some(ReasoningOf(sink)))
            && SlotsFrom(tools, sink) && r.calls == Calls(tools, newId) && Reset !in sink
            && sink != [] && sink[|sink| - 1] == Done(r.finish)
  {
    assert Told(Start());
    IngestAllTells(decode, Start(), Payloads(text));
    var s := IngestAll(decode, Start(), Payloads(text));
    tools := s.acc.tools;
    DoneTells(s, s.acc.finish);
  }

  /** The events leave no choice of slots. */
  lemma {:induction false} SlotsAreDetermined(a: seq<Slot>, b: seq<Slot>)
    requires Ascending(a) && Ascending(b)
    requires forall i: nat :: Lookup(a, i) == Lookup(b, i) && (HasSlot(a, i) <==> HasSlot(b, i))
    ensures a == b
  {
    if a != [] || b != [] {
      assert a != [] ==> HasSlot(a, a[0].index);
      assert b != [] ==> HasSlot(b, b[0].index);
      assert a[0].index == b[0].index;
      assert Lookup(a, a[0].index) == a[0];
      forall i: nat
        ensures Lookup(a[1..], i) == Lookup(b[1..], i) && (HasSlot(a[1..], i) <==> HasSlot(b[1..], i))
      {
        TailSlots(a, i);
        TailSlots(b, i);
      }
      SlotsAreDetermined(a[1..], b[1..]);
      assert a == [a[0]] + a[1..] && b == [b[0]] + b[1..];
    }
  }

  lemma TailSlots(tools: seq<Slot>, i: nat)
    requires tools != [] && Ascending(tools)
    ensures HasSlot(tools[1..], i) <==> HasSlot(tools, i) && i != tools[0].index
    ensures Lookup(tools[1..], i) == if i == tools[0].index then Blank(i) else Lookup(tools, i)
  {
    ConsSlots(tools[0], tools[1..]);
    assert tools == [tools[0]] + tools[1..];
    assert !HasSlot(tools[1..], tools[0].index);
    LookupMisses(tools[1..], tools[0].index);
  }
}
