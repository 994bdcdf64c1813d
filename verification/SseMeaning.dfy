/**
 What a stream says, packet by packet: text, reasoning, finish reason, usage and tool calls of the
 reply, and the events of the sink, as functions of the packets before the one that ends it.
 */
module SseMeaning {
  import opened Wrappers
  import opened Text
  import opened Fallback
  import opened SseStream

  // ---- payloads and packets ----

  /** A line that starts with `data:` is a payload, any other line is none, ... */
  lemma PayloadOfLine(line: string, rest: string)
    requires '\n' !in line
    ensures Payloads(line + "\n" + rest) == (if "data:" <= Trim(line) then [Trim(line)[5..]] else []) + Payloads(rest)
  {
    var text := line + "\n" + rest;
    assert text[..|line|] == line && text[|line| + 1..] == rest;
    FirstLine(text, |line|);
    assert ([line] + CompleteLines(rest))[1..] == CompleteLines(rest);
  }

  /** ... and what follows the last newline is not looked at. */
  lemma NoPayloadInTail(text: string)
    requires '\n' !in text
    ensures Payloads(text) == []
  {
    NoLine(text);
  }

  predicate EndMark(payload: string) {
    Trim(payload) == "[DONE]"
  }

  predicate Ended(payloads: seq<string>) {
    exists i :: 0 <= i < |payloads| && EndMark(payloads[i])
  }

  /** The packets of the payloads before the end mark; what is no packet is passed over. */
  function Packets(decode: Decoder, payloads: seq<string>): seq<Packet> {
    if payloads == [] || EndMark(payloads[0]) then []
    else
      (match decode(Trim(payloads[0])) case None => [] case Some(p) => [p]) + Packets(decode, payloads[1..])
  }

  // ---- what they say ----

  function DeltaOf(p: Packet): Delta {
    if p.choice.Some? && p.choice.value.delta.Some? then p.choice.value.delta.value else Delta(None, None, [])
  }

  function Or<T>(o: Option<T>, default: T): T {
    if o.Some? then o.value else default
  }

  function TextIn(ps: seq<Packet>): string {
    if ps == [] then "" else TextIn(ps[..|ps| - 1]) + Or(DeltaOf(ps[|ps| - 1]).content, "")
  }

  function ReasoningIn(ps: seq<Packet>): string {
    if ps == [] then "" else ReasoningIn(ps[..|ps| - 1]) + Or(DeltaOf(ps[|ps| - 1]).reasoning, "")
  }

  /** The last finish reason given. */
  function FinishIn(ps: seq<Packet>): string {
    if ps == [] then "stop"
    else
      var choice := ps[|ps| - 1].choice;
      if choice.Some? && choice.value.finish.Some? then choice.value.finish.value else FinishIn(ps[..|ps| - 1])
  }

  /** The last usage given. */
  function UsageIn(ps: seq<Packet>): Usage {
    if ps == [] then Usage(0, 0, 0, 0)
    else if ps[|ps| - 1].usage.Some? then ps[|ps| - 1].usage.value
    else UsageIn(ps[..|ps| - 1])
  }

  /** All tool deltas, in order. */
  function ToolsIn(ps: seq<Packet>): seq<ToolDelta> {
    if ps == [] then [] else ToolsIn(ps[..|ps| - 1]) + DeltaOf(ps[|ps| - 1]).tools
  }

  /** The last id given for an index. */
  function IdIn(ds: seq<ToolDelta>, index: nat): Option<string> {
    if ds == [] then None
    else
      var last := ds[|ds| - 1];
      if last.index == index && last.id.Some? then last.id else IdIn(ds[..|ds| - 1], index)
  }

  /** The last name given for an index. */
  function NameIn(ds: seq<ToolDelta>, index: nat): Option<string> {
    if ds == [] then None
    else
      var last := ds[|ds| - 1];
      if last.index == index && last.name.Some? then last.name else NameIn(ds[..|ds| - 1], index)
  }

  /** The argument pieces of an index, joined. */
  function ArgumentsIn(ds: seq<ToolDelta>, index: nat): string {
    if ds == [] then ""
    else
      var last := ds[|ds| - 1];
      ArgumentsIn(ds[..|ds| - 1], index) + if last.index == index then Or(last.arguments, "") else ""
  }

  /** The events of the n-th and later deltas; each carries the id and name known by then. */
  function CallEvents(ds: seq<ToolDelta>, n: nat): seq<Event>
    requires n <= |ds|
    decreases |ds|
  {
    if n == |ds| then []
    else
      var d := ds[|ds| - 1];
      CallEvents(ds[..|ds| - 1], n) + [ToolCall(d.index, IdIn(ds, d.index), NameIn(ds, d.index), Or(d.arguments, ""))]
  }

  /** What the packets send to the sink: each packet its text, its reasoning, its tool deltas. */
  function EventsIn(ps: seq<Packet>): seq<Event> {
    if ps == [] then []
    else
      var before, d := ps[..|ps| - 1], DeltaOf(ps[|ps| - 1]);
      EventsIn(before)
      + (if Or(d.content, "") == "" then [] else [Piece(d.content.value)])
      + (if Or(d.reasoning, "") == "" then [] else [Event.Reasoning(d.reasoning.value)])
      + CallEvents(ToolsIn(before) + d.tools, |ToolsIn(before)|)
  }

  // ---- the accumulator holds it ----

  ghost predicate SlotsSay(tools: seq<Slot>, ds: seq<ToolDelta>) {
    Ascending(tools)
    && (forall i: nat :: Lookup(tools, i) == Slot(i, IdIn(ds, i), NameIn(ds, i), ArgumentsIn(ds, i)))
    && forall i: nat :: HasSlot(tools, i) ==> exists k :: 0 <= k < |ds| && ds[k].index == i
  }

  lemma DeltaSnoc(ds: seq<ToolDelta>, d: ToolDelta)
    ensures forall i: nat :: IdIn(ds + [d], i) == if d.index == i && d.id.Some? then d.id else IdIn(ds, i)
    ensures forall i: nat :: NameIn(ds + [d], i) == if d.index == i && d.name.Some? then d.name else NameIn(ds, i)
    ensures forall i: nat :: ArgumentsIn(ds + [d], i) == ArgumentsIn(ds, i) + if d.index == i then Or(d.arguments, "") else ""
    ensures forall n: nat :: n <= |ds| ==>
              CallEvents(ds + [d], n)
              == CallEvents(ds, n) + [ToolCall(d.index, IdIn(ds + [d], d.index), NameIn(ds + [d], d.index), Or(d.arguments, ""))]
  {
    assert (ds + [d])[..|ds|] == ds;
  }

  lemma PutSays(tools: seq<Slot>, ds: seq<ToolDelta>, d: ToolDelta)
    requires SlotsSay(tools, ds)
    ensures SlotsSay(Put(tools, d), ds + [d])
  {
    PutLookup(tools, d);
    PutKeepsOrder(tools, d);
    SlotsSnoc(tools, ds, d);
  }

  lemma SlotsSnoc(tools: seq<Slot>, ds: seq<ToolDelta>, d: ToolDelta)
    requires SlotsSay(tools, ds) && Ascending(Put(tools, d))
    requires forall i: nat :: Lookup(Put(tools, d), i) == if i == d.index then Merge(Lookup(tools, i), d) else Lookup(tools, i)
    requires forall i: nat :: HasSlot(Put(tools, d), i) <==> HasSlot(tools, i) || i == d.index
    ensures SlotsSay(Put(tools, d), ds + [d])
  {
    hide Put, HasSlot, Lookup, IdIn, NameIn, ArgumentsIn;
    DeltaSnoc(ds, d);
    forall i: nat | HasSlot(Put(tools, d), i)
      ensures exists k :: 0 <= k < |ds + [d]| && (ds + [d])[k].index == i
    {
      if HasSlot(tools, i) {
        var k :| 0 <= k < |ds| && ds[k].index == i;
        assert (ds + [d])[k].index == i;
      } else {
        assert (ds + [d])[|ds|].index == i;
      }
    }
    forall i: nat
      ensures Lookup(Put(tools, d), i) == Slot(i, IdIn(ds + [d], i), NameIn(ds + [d], i), ArgumentsIn(ds + [d], i))
    {
      assert Lookup(tools, i) == Slot(i, IdIn(ds, i), NameIn(ds, i), ArgumentsIn(ds, i));
      assert ArgumentsIn(ds, i) + "" == ArgumentsIn(ds, i);
    }
  }

  /** Taking in some of the deltas `ds`, those before `n` being in already. */
  lemma {:induction false} ToolsSay(s: State, ds: seq<ToolDelta>, n: nat, later: seq<ToolDelta>, start: seq<Event>)
    requires n <= |ds| && SlotsSay(s.acc.tools, ds) && s.sink == start + CallEvents(ds, n)
    ensures var t := AddTools(s, later);
            t.acc == s.acc.(tools := t.acc.tools) && SlotsSay(t.acc.tools, ds + later) && t.sink == start + CallEvents(ds + later, n)
    decreases |later|
  {
    hide SlotsSay, CallEvents, AddTool;
    if later == [] {
      assert ds + later == ds;
    } else {
      var d := later[0];
      var next := AddTool(s, d);
      OneToolSays(s, ds, n, d, start);
      ToolsSay(next, ds + [d], n, later[1..], start);
      assert ds + [d] + later[1..] == ds + later;
    }
  }

  lemma OneToolSays(s: State, ds: seq<ToolDelta>, n: nat, d: ToolDelta, start: seq<Event>)
    requires n <= |ds| && SlotsSay(s.acc.tools, ds) && s.sink == start + CallEvents(ds, n)
    ensures var t := AddTool(s, d);
            t.acc == s.acc.(tools := t.acc.tools) && SlotsSay(t.acc.tools, ds + [d]) && t.sink == start + CallEvents(ds + [d], n)
  {
    hide Put, HasSlot, CallEvents, IdIn, NameIn, ArgumentsIn;
    PutSays(s.acc.tools, ds, d);
    DeltaSnoc(ds, d);
    assert Lookup(Put(s.acc.tools, d), d.index)
           == Slot(d.index, IdIn(ds + [d], d.index), NameIn(ds + [d], d.index), ArgumentsIn(ds + [d], d.index));
  }

  /** The state after the packets. */
  ghost predicate Says(s: State, ps: seq<Packet>) {
    s.acc.text == TextIn(ps) && s.acc.reasoning == ReasoningIn(ps) && s.acc.finish == FinishIn(ps) && s.acc.usage == UsageIn(ps)
    && SlotsSay(s.acc.tools, ToolsIn(ps)) && s.sink == EventsIn(ps)
  }

  lemma StartSays()
    ensures Says(Start(), [])
  {
  }

  /** One packet taken in. */
  function Taken(s: State, p: Packet): State {
    var t := AddUsage(s, p.usage);
    if p.choice.None? then t
    else
      var u := AddFinish(t, p.choice.value.finish);
      if p.choice.value.delta.None? then u else AddDelta(u, p.choice.value.delta.value)
  }

  lemma DeltaSays(s: State, ps: seq<Packet>, d: Delta)
    requires Says(s, ps)
    ensures var t := AddDelta(s, d);
            t.acc.finish == s.acc.finish && t.acc.usage == s.acc.usage && t.acc.done == s.acc.done
            && t.acc.text == TextIn(ps) + Or(d.content, "") && t.acc.reasoning == ReasoningIn(ps) + Or(d.reasoning, "")
            && SlotsSay(t.acc.tools, ToolsIn(ps) + d.tools)
            && t.sink == EventsIn(ps) + (if Or(d.content, "") == "" then [] else [Piece(d.content.value)])
                         + (if Or(d.reasoning, "") == "" then [] else [Event.Reasoning(d.reasoning.value)])
                         + CallEvents(ToolsIn(ps) + d.tools, |ToolsIn(ps)|)
  {
    hide SlotsSay, AddTools;
    var said := AddReasoning(AddText(s, d.content), d.reasoning);
    assert said.acc.text == TextIn(ps) + Or(d.content, "") && said.acc.reasoning == ReasoningIn(ps) + Or(d.reasoning, "") by {
      assert TextIn(ps) + "" == TextIn(ps) && ReasoningIn(ps) + "" == ReasoningIn(ps);
    }
    var start := EventsIn(ps) + (if Or(d.content, "") == "" then [] else [Piece(d.content.value)])
                 + (if Or(d.reasoning, "") == "" then [] else [Event.Reasoning(d.reasoning.value)]);
    assert said.sink == start;
    assert CallEvents(ToolsIn(ps), |ToolsIn(ps)|) == [] && start + [] == start;
    ToolsSay(said, ToolsIn(ps), |ToolsIn(ps)|, d.tools, start);
  }

  lemma PacketSays(s: State, ps: seq<Packet>, p: Packet)
    requires Says(s, ps)
    ensures Says(Taken(s, p), ps + [p]) && Taken(s, p).acc.done == s.acc.done
  {
    hide SlotsSay, AddDelta, CallEvents;
    assert (ps + [p])[..|ps|] == ps;
    DeltaSays(s, ps, DeltaOf(p));
    DeltaCommutes(s, p);
  }

  /** A delta neither looks at finish reason and usage nor changes them. */
  lemma DeltaCommutes(s: State, p: Packet)
    ensures var t := AddDelta(s, DeltaOf(p));
            Taken(s, p) == t.(acc := t.acc.(usage := Or(p.usage, s.acc.usage),
                                            finish := if p.choice.Some? then Or(p.choice.value.finish, s.acc.finish) else s.acc.finish))
  {
    hide AddTools;
    var d := DeltaOf(p);
    var usage := Or(p.usage, s.acc.usage);
    var finish := if p.choice.Some? then Or(p.choice.value.finish, s.acc.finish) else s.acc.finish;
    ToolsCommute(AddReasoning(AddText(s, d.content), d.reasoning), d.tools, usage, finish);
    NothingAdded(s.(acc := s.acc.(usage := usage, finish := finish)));
  }

  lemma NothingAdded(s: State)
    ensures AddDelta(s, Delta(None, None, [])) == s
  {
  }

  lemma {:induction false} ToolsCommute(s: State, ds: seq<ToolDelta>, usage: Usage, finish: string)
    ensures AddTools(s.(acc := s.acc.(usage := usage, finish := finish)), ds)
            == (var t := AddTools(s, ds); t.(acc := t.acc.(usage := usage, finish := finish)))
    decreases |ds|
  {
    if ds != [] {
      ToolsCommute(AddTool(s, ds[0]), ds[1..], usage, finish);
    }
  }

  lemma IngestTakes(decode: Decoder, s: State, payload: string)
    requires !EndMark(payload)
    ensures Ingest(decode, s, payload)
            == match decode(Trim(payload)) case None => s case Some(p) => Taken(s, p)
  {
  }

  /** The whole list of payloads, after the packets ps. */
  lemma {:induction false} AllSay(decode: Decoder, s: State, payloads: seq<string>, ps: seq<Packet>)
    requires Says(s, ps) && !s.acc.done
    ensures var t, all := IngestAll(decode, s, payloads), ps + Packets(decode, payloads);
            (t.acc.done <==> Ended(payloads))
            && Says(if t.acc.done then t.(sink := EventsIn(all)) else t, all)
            && t.sink == EventsIn(all) + if t.acc.done then [Done(FinishIn(all))] else []
    decreases |payloads|
  {
    hide Says, Taken, Ingest, EventsIn;
    if payloads == [] {
      assert ps + [] == ps;
      SinkSaid(s, ps);
    } else {
      var first, rest := payloads[0], payloads[1..];
      EndedCons(payloads);
      if EndMark(first) {
        EndSays(decode, s, first, ps);
        assert ps + [] == ps;
        assert IngestAll(decode, s, payloads) == Ingest(decode, s, first);
      } else {
        IngestTakes(decode, s, first);
        match decode(Trim(first))
        case None =>
          AllSay(decode, s, rest, ps);
          assert [] + Packets(decode, rest) == Packets(decode, rest);
        case Some(p) =>
          PacketSays(s, ps, p);
          AllSay(decode, Taken(s, p), rest, ps + [p]);
          assert ps + [p] + Packets(decode, rest) == ps + ([p] + Packets(decode, rest));
      }
    }
  }

  lemma SinkSaid(s: State, ps: seq<Packet>)
    requires Says(s, ps)
    ensures s.sink == EventsIn(ps) + []
  {
  }

  lemma EndSays(decode: Decoder, s: State, payload: string, ps: seq<Packet>)
    requires Says(s, ps) && EndMark(payload)
    ensures var t := Ingest(decode, s, payload);
            t.acc.done && Says(t.(sink := EventsIn(ps)), ps) && t.sink == EventsIn(ps) + [Done(FinishIn(ps))]
  {
  }

  lemma EndedCons(payloads: seq<string>)
    requires payloads != []
    ensures Ended(payloads) <==> EndMark(payloads[0]) || Ended(payloads[1..])
  {
    if Ended(payloads[1..]) {
      var i :| 0 <= i < |payloads| - 1 && EndMark(payloads[1..][i]);
      assert EndMark(payloads[i + 1]);
    }
    if Ended(payloads) {
      var i :| 0 <= i < |payloads| && EndMark(payloads[i]);
      assert i > 0 ==> payloads[1..][i - 1] == payloads[i];
    }
  }

  // ---- the reply ----

  /** The named calls, by ascending index, with their joined arguments. */
  ghost predicate CallsSay(calls: seq<NamedCall>, indices: seq<nat>, ds: seq<ToolDelta>, newId: nat -> string) {
    |calls| == |indices| && (forall a, b :: 0 <= a < b < |indices| ==> indices[a] < indices[b])
    && (forall i: nat :: i in indices <==> NameIn(ds, i).Some?)
    && forall k :: 0 <= k < |calls| ==>
         NameIn(ds, indices[k]).Some?
         && calls[k] == NamedCall(Or(IdIn(ds, indices[k]), newId(indices[k])), NameIn(ds, indices[k]).value,
                                  if ArgumentsIn(ds, indices[k]) == "" then "{}" else ArgumentsIn(ds, indices[k]))
  }

  /** The named slots of a list, in order. */
  function NamedSlots(tools: seq<Slot>): seq<Slot> {
    if tools == [] then [] else (if tools[0].name.Some? then [tools[0]] else []) + NamedSlots(tools[1..])
  }

  function CallOf(slot: Slot, newId: nat -> string): NamedCall {
    NamedCall(Or(slot.id, newId(slot.index)), Or(slot.name, ""), if slot.arguments == "" then "{}" else slot.arguments)
  }

  lemma {:induction false} CallsAreNamed(tools: seq<Slot>, newId: nat -> string)
    ensures |Calls(tools, newId)| == |NamedSlots(tools)|
    ensures forall k :: 0 <= k < |NamedSlots(tools)| ==> Calls(tools, newId)[k] == CallOf(NamedSlots(tools)[k], newId)
  {
    if tools != [] {
      CallsAreNamed(tools[1..], newId);
    }
  }

  lemma {:induction false} NamedAreThose(tools: seq<Slot>)
    ensures forall s :: s in NamedSlots(tools) <==> s in tools && s.name.Some?
  {
    if tools != [] {
      NamedAreThose(tools[1..]);
      assert tools == [tools[0]] + tools[1..];
    }
  }

  lemma {:induction false} NamedAscend(tools: seq<Slot>)
    requires Ascending(tools)
    ensures Ascending(NamedSlots(tools))
  {
    if tools != [] {
      NamedAscend(tools[1..]);
      NamedAreThose(tools[1..]);
      var later := NamedSlots(tools[1..]);
      forall k | 0 <= k < |later|
        ensures tools[0].index < later[k].index
      {
        assert later[k] in later && later[k] in tools[1..];
      }
    }
  }

  lemma {:induction false} MemberIsFound(tools: seq<Slot>, k: nat)
    requires Ascending(tools) && k < |tools|
    ensures Lookup(tools, tools[k].index) == tools[k]
  {
    if k > 0 {
      assert tools[0].index < tools[k].index && tools[1..][k - 1] == tools[k];
      MemberIsFound(tools[1..], k - 1);
    }
  }

  function IndicesOf(slots: seq<Slot>): (r: seq<nat>)
    ensures |r| == |slots| && forall k :: 0 <= k < |r| ==> r[k] == slots[k].index
  {
    seq(|slots|, k requires 0 <= k < |slots| => slots[k].index)
  }

  /** A slot of the list is what the deltas say of its index. */
  lemma SlotSays(tools: seq<Slot>, ds: seq<ToolDelta>, s: Slot)
    requires SlotsSay(tools, ds) && s in tools
    ensures s == Slot(s.index, IdIn(ds, s.index), NameIn(ds, s.index), ArgumentsIn(ds, s.index))
  {
    var k :| 0 <= k < |tools| && tools[k] == s;
    MemberIsFound(tools, k);
  }

  lemma NamedHasSlot(tools: seq<Slot>, ds: seq<ToolDelta>, i: nat)
    requires SlotsSay(tools, ds) && NameIn(ds, i).Some?
    ensures exists s :: s in NamedSlots(tools) && s.index == i
  {
    if !HasSlot(tools, i) {
      LookupMisses(tools, i);
    }
    var k :| 0 <= k < |tools| && tools[k].index == i;
    SlotSays(tools, ds, tools[k]);
    NamedAreThose(tools);
  }

  lemma SlotsGiveCalls(tools: seq<Slot>, ds: seq<ToolDelta>, newId: nat -> string)
    requires SlotsSay(tools, ds)
    ensures CallsSay(Calls(tools, newId), IndicesOf(NamedSlots(tools)), ds, newId)
  {
    hide NamedSlots, Calls, IdIn, NameIn, ArgumentsIn, Lookup, HasSlot;
    var named := NamedSlots(tools);
    var indices := IndicesOf(named);
    CallsAreNamed(tools, newId);
    NamedAscend(tools);
    NamedAreThose(tools);
    forall k | 0 <= k < |named|
      ensures named[k] == Slot(indices[k], IdIn(ds, indices[k]), NameIn(ds, indices[k]), ArgumentsIn(ds, indices[k]))
      ensures NameIn(ds, indices[k]).Some?
    {
      assert named[k] in named;
      SlotSays(tools, ds, named[k]);
    }
    forall i: nat | NameIn(ds, i).Some?
      ensures i in indices
    {
      NamedHasSlot(tools, ds, i);
      var s :| s in named && s.index == i;
      var k :| 0 <= k < |named| && named[k] == s;
      assert indices[k] == i;
    }
  }

  /** Reading a text says what its packets say. The reply is there exactly if the end mark came or
      the connection ended well; its text and reasoning are the pieces in order, its finish reason
      and usage the last given ones, its calls the named ones by index, each with the last id and
      name and the joined argument pieces. The sink got each packet's parts in order, and the
      finish reason at the end. */
  lemma HeardIsSaid(decode: Decoder, newId: nat -> string, text: string, broken: bool) returns (indices: seq<nat>)
    ensures var (reply, sink) := Heard(decode, newId, text, broken);
            var ps := Packets(decode, Payloads(text));
            var whole := Ended(Payloads(text)) || !broken;
            (reply.Some? <==> whole)
            && sink == EventsIn(ps) + (if whole then [Done(FinishIn(ps))] else [])
            && (whole ==>
                  reply.value.text == TextIn(ps)
                  && reply.value.reasoning == (if ReasoningIn(ps) == "" then None else Some(ReasoningIn(ps)))
                  && reply.value.finish == FinishIn(ps) && reply.value.usage == UsageIn(ps)
                  && CallsSay(reply.value.calls, indices, ToolsIn(ps), newId))
  {
    hide EventsIn, SlotsSay, CallsSay, Calls, Ingest, TextIn, ReasoningIn, FinishIn, UsageIn, Ended;
    var payloads := Payloads(text);
    StartSays();
    AllSay(decode, Start(), payloads, []);
    var ps := Packets(decode, payloads);
    assert [] + ps == ps;
    var s := IngestAll(decode, Start(), payloads);
    SlotsGiveCalls(s.acc.tools, ToolsIn(ps), newId);
    indices := IndicesOf(NamedSlots(s.acc.tools));
    assert EventsIn(ps) + [] == EventsIn(ps);
  }
}
