/**
 File checkpoints: snapshots of files taken by path and written back by a rewind, together with
 the cut of the session's event stream. The disk is a tree: a map from absolute paths, given by
 their components, to nodes; `resolve` joins a snapshot's path to the workspace root of the moment.
 */
module Checkpoint {
  import opened Wrappers
  import opened EventLog
  import opened EventStream
  import EventReplay

  /** A file whose bytes are not UTF-8 text cannot be read as a string, nor can a directory. */
  datatype Node = TextFile(content: string) | OtherFile(bytes: seq<bv8>) | Directory

  type Path = seq<string>

  type Disk = map<Path, Node>

  datatype Snapshot = Snapshot(path: string, content: string, existed: bool)

  datatype Saved = Saved(session: string, files: seq<Snapshot>, eventSeq: int)

  // ---- the disk ----

  /** The place a is one the place b lies in. */
  predicate Above(a: Path, b: Path) {
    a < b
  }

  predicate IsDirectory(disk: Disk, at: Path) {
    at in disk && disk[at].Directory?
  }

  predicate IsFile(disk: Disk, at: Path) {
    at in disk && !disk[at].Directory?
  }

  predicate IsText(disk: Disk, at: Path) {
    at in disk && disk[at].TextFile?
  }

  /** Whatever lies in a place, the place is a directory; and there is a root. */
  ghost predicate Tree(disk: Disk) {
    IsDirectory(disk, []) && forall a: Path, at: Path :: at in disk && Above(a, at) ==> IsDirectory(disk, a)
  }

  function Parent(at: Path): Path
    requires at != []
  {
    at[..|at| - 1]
  }

  /** Makes a directory with the directories above it that are missing; nothing if a file stands
      in the way. */
  function CreateDirAll(disk: Disk, dir: Path): Disk
    decreases |dir|
  {
    if dir == [] || dir in disk then disk
    else
      var made := CreateDirAll(disk, Parent(dir));
      if IsDirectory(made, Parent(dir)) then made[dir := Directory] else made
  }

  /** A file is neither written over a directory nor into a place that is not a directory. */
  predicate WriteFails(disk: Disk, at: Path) {
    IsDirectory(disk, at) || at == [] || !IsDirectory(disk, Parent(at))
  }

  // ---- create and rewind ----

  function SnapshotOf(disk: Disk, resolve: string -> Path, path: string): Snapshot {
    var at := resolve(path);
    if at in disk && disk[at].TextFile? then Snapshot(path, disk[at].content, true) else Snapshot(path, "", false)
  }

  function Snapshots(disk: Disk, resolve: string -> Path, paths: seq<string>): seq<Snapshot> {
    if paths == [] then [] else [SnapshotOf(disk, resolve, paths[0])] + Snapshots(disk, resolve, paths[1..])
  }

  function WithParents(disk: Disk, at: Path): Disk {
    if at == [] then disk else CreateDirAll(disk, Parent(at))
  }

  /** Failing to write is an error, failing to remove is not. */
  predicate Fails(disk: Disk, at: Path, s: Snapshot) {
    s.existed && WriteFails(WithParents(disk, at), at)
  }

  function PutBack(disk: Disk, at: Path, s: Snapshot): Disk {
    if s.existed then
      var made := WithParents(disk, at);
      if WriteFails(made, at) then made else made[at := TextFile(s.content)]
    else if IsDirectory(disk, at) then disk
    else disk - {at}
  }

  /** Writes the snapshots back one by one up to the first that fails; the second component is how
      many were written back. */
  function Restore(disk: Disk, resolve: string -> Path, files: seq<Snapshot>): (Disk, nat)
    decreases |files|
  {
    if files == [] then (disk, 0)
    else
      var next := PutBack(disk, resolve(files[0].path), files[0]);
      if Fails(disk, resolve(files[0].path), files[0]) then (next, 0)
      else
        var (after, n) := Restore(next, resolve, files[1..]);
        (after, n + 1)
  }

  // ---- what one write does to the tree ----

  function NodeAt(disk: Disk, at: Path): Option<Node> {
    if at in disk then Some(disk[at]) else None
  }

  /** A file stands in place of a directory above. */
  ghost predicate Obstructed(disk: Disk, at: Path) {
    exists a: Path :: Above(a, at) && IsFile(disk, a)
  }

  /** Making a directory makes it and what is missing above it, and moves nothing else. */
  lemma {:induction false} CreateDirAllAt(disk: Disk, dir: Path, at: Path)
    requires Tree(disk)
    ensures NodeAt(CreateDirAll(disk, dir), at)
            == if at !in disk && at <= dir && !Obstructed(disk, dir) then Some(Directory) else NodeAt(disk, at)
    decreases |dir|
  {
    if dir == [] || dir in disk {
      if at <= dir && at != dir {
        assert Above(at, dir);
      }
    } else {
      var up := Parent(dir);
      CreateDirAllAt(disk, up, at);
      CreateDirAllAt(disk, up, up);
      assert dir == up + [dir[|dir| - 1]];
      assert at <= dir <==> at <= up || at == dir;
      assert forall a: Path :: Above(a, dir) <==> Above(a, up) || a == up;
      if IsFile(disk, up) {
        assert Above(up, dir);
      } else if Obstructed(disk, up) {
        var a: Path :| Above(a, up) && IsFile(disk, a);
        assert Above(a, dir);
      }
    }
  }

  /** A write fails exactly if a directory stands at its place or a file above it. */
  lemma FailsExactly(disk: Disk, at: Path, s: Snapshot)
    requires Tree(disk)
    ensures Fails(disk, at, s) <==> s.existed && (IsDirectory(disk, at) || Obstructed(disk, at))
  {
    if at != [] {
      var up := Parent(at);
      CreateDirAllAt(disk, up, up);
      CreateDirAllAt(disk, up, at);
      assert at == up + [at[|at| - 1]];
      assert Above(up, at);
      assert forall a: Path :: Above(a, at) <==> Above(a, up) || a == up;
      if Obstructed(disk, up) {
        var a: Path :| Above(a, up) && IsFile(disk, a);
        assert Above(a, at);
        assert up !in disk;
      }
    }
  }

  /** What one snapshot written back leaves at a place. */
  lemma PutBackAt(disk: Disk, t: Path, s: Snapshot, at: Path)
    requires Tree(disk)
    ensures NodeAt(PutBack(disk, t, s), at)
            == if Fails(disk, t, s) then NodeAt(disk, at)
               else if at == t then
                 if s.existed then Some(TextFile(s.content)) else if IsDirectory(disk, at) then Some(Directory) else None
               else if s.existed && Above(at, t) then Some(Directory)
               else NodeAt(disk, at)
  {
    FailsExactly(disk, t, s);
    if s.existed && t != [] {
      var up := Parent(t);
      CreateDirAllAt(disk, up, at);
      assert t == up + [t[|t| - 1]];
      assert Above(at, t) <==> at <= up;
      assert forall a: Path :: Above(a, t) <==> Above(a, up) || a == up;
      assert Above(up, t);
      assert at <= up && at != up ==> Above(at, up);
      if Fails(disk, t, s) && !IsDirectory(disk, t) {
        var a: Path :| Above(a, t) && IsFile(disk, a);
        assert a == up || Above(a, up);
        assert up in disk ==> a == up;
      }
    }
  }

  /** Writing back keeps the disk a tree. */
  lemma PutBackKeepsTree(disk: Disk, t: Path, s: Snapshot)
    requires Tree(disk)
    ensures Tree(PutBack(disk, t, s))
  {
    var next := PutBack(disk, t, s);
    PutBackAt(disk, t, s, []);
    FailsExactly(disk, t, s);
    forall a: Path, at: Path | at in next && Above(a, at)
      ensures IsDirectory(next, a)
    {
      PutBackAt(disk, t, s, a);
      PutBackAt(disk, t, s, at);
      if at == t || Above(at, t) {
        assert Above(a, t);
      }
    }
  }

  lemma {:induction false} RestoreKeepsTree(disk: Disk, resolve: string -> Path, files: seq<Snapshot>)
    requires Tree(disk)
    ensures Tree(Restore(disk, resolve, files).0)
    decreases |files|
  {
    if files != [] {
      PutBackKeepsTree(disk, resolve(files[0].path), files[0]);
      if !Fails(disk, resolve(files[0].path), files[0]) {
        RestoreKeepsTree(PutBack(disk, resolve(files[0].path), files[0]), resolve, files[1..]);
      }
    }
  }

  // ---- what a rewind restores ----

  /** The place was among those snapshotted. */
  predicate Covers(resolve: string -> Path, paths: seq<string>, at: Path) {
    exists i :: 0 <= i < |paths| && resolve(paths[i]) == at
  }

  /** Text was snapshotted in the place. */
  predicate HoldsText(first: Disk, resolve: string -> Path, paths: seq<string>, at: Path) {
    exists i :: 0 <= i < |paths| && IsText(first, resolve(paths[i])) && Above(at, resolve(paths[i]))
  }

  /** What a rewind leaves at a place: text snapshotted there as it was, a directory above such
      text, and at another snapshotted place nothing, unless a directory stands there by now. */
  function Left(first: Disk, later: Disk, resolve: string -> Path, paths: seq<string>, at: Path): Option<Node> {
    if Covers(resolve, paths, at) && IsText(first, at) then Some(first[at])
    else if HoldsText(first, resolve, paths, at) then Some(Directory)
    else if Covers(resolve, paths, at) then if IsDirectory(later, at) then Some(Directory) else None
    else NodeAt(later, at)
  }

  lemma CoversCons(first: Disk, resolve: string -> Path, path: string, paths: seq<string>, at: Path)
    ensures Covers(resolve, [path] + paths, at) <==> at == resolve(path) || Covers(resolve, paths, at)
    ensures HoldsText(first, resolve, [path] + paths, at)
            <==> (IsText(first, resolve(path)) && Above(at, resolve(path))) || HoldsText(first, resolve, paths, at)
  {
    var all := [path] + paths;
    assert all[0] == path;
    assert forall i :: 0 <= i < |paths| ==> all[i + 1] == paths[i];
  }

  lemma LeftCons(first: Disk, later: Disk, resolve: string -> Path, path: string, paths: seq<string>, at: Path)
    requires Tree(first) && Tree(later)
    requires !Fails(later, resolve(path), SnapshotOf(first, resolve, path))
    ensures Left(first, PutBack(later, resolve(path), SnapshotOf(first, resolve, path)), resolve, paths, at)
            == Left(first, later, resolve, [path] + paths, at)
  {
    CoversCons(first, resolve, path, paths, at);
    FailsExactly(later, resolve(path), SnapshotOf(first, resolve, path));
    PutBackAt(later, resolve(path), SnapshotOf(first, resolve, path), at);
  }

  /** The walk through the snapshots, place by place. */
  lemma {:induction false} RestoreAt(first: Disk, later: Disk, resolve: string -> Path, paths: seq<string>, at: Path)
    requires Tree(first) && Tree(later)
    ensures var (after, n) := Restore(later, resolve, Snapshots(first, resolve, paths));
            n <= |paths| && NodeAt(after, at) == Left(first, later, resolve, paths[..n], at)
    decreases |paths|
  {
    if paths != [] {
      var s := SnapshotOf(first, resolve, paths[0]);
      var rest := Snapshots(first, resolve, paths[1..]);
      assert ([s] + rest)[1..] == rest;
      var next := PutBack(later, resolve(paths[0]), s);
      if Fails(later, resolve(paths[0]), s) {
        PutBackAt(later, resolve(paths[0]), s, at);
      } else {
        PutBackKeepsTree(later, resolve(paths[0]), s);
        RestoreAt(first, next, resolve, paths[1..], at);
        var n := Restore(next, resolve, rest).1;
        assert paths[..n + 1] == [paths[0]] + paths[1..][..n];
        LeftCons(first, later, resolve, paths[0], paths[1..][..n], at);
      }
    }
  }

  /** The i-th place can be written back: nothing to write, or no directory stands there and every
      file above it is removed by an earlier snapshot. */
  ghost predicate Clear(first: Disk, later: Disk, resolve: string -> Path, paths: seq<string>, i: nat)
    requires i < |paths|
  {
    IsText(first, resolve(paths[i])) ==>
      !IsDirectory(later, resolve(paths[i]))
      && forall a: Path :: Above(a, resolve(paths[i])) && IsFile(later, a) ==> Covers(resolve, paths[..i], a)
  }

  lemma ClearStep(first: Disk, later: Disk, resolve: string -> Path, paths: seq<string>, i: nat)
    requires Tree(first) && Tree(later) && 0 < i < |paths|
    requires !Fails(later, resolve(paths[0]), SnapshotOf(first, resolve, paths[0]))
    ensures Clear(first, PutBack(later, resolve(paths[0]), SnapshotOf(first, resolve, paths[0])), resolve, paths[1..], i - 1)
            <==> Clear(first, later, resolve, paths, i)
  {
    var s, t, to := SnapshotOf(first, resolve, paths[0]), resolve(paths[0]), resolve(paths[i]);
    var next := PutBack(later, t, s);
    FailsExactly(later, t, s);
    assert paths[1..][i - 1] == paths[i];
    assert paths[..i] == [paths[0]] + paths[1..][..i - 1];
    if IsText(first, to) {
      PutBackAt(later, t, s, to);
      forall a: Path | Above(a, to)
        ensures (IsFile(next, a) ==> Covers(resolve, paths[1..][..i - 1], a)) <==> (IsFile(later, a) ==> Covers(resolve, paths[..i], a))
      {
        assert IsDirectory(first, a);
        PutBackAt(later, t, s, a);
        CoversCons(first, resolve, paths[0], paths[1..][..i - 1], a);
      }
    }
  }

  /** The rewind stops at the first snapshot whose place is not clear: it gets through exactly if,
      for every text snapshotted, no directory stands at its place and every file standing above
      it goes by an earlier snapshot. */
  lemma {:induction false} RestoreSucceedsExactly(first: Disk, later: Disk, resolve: string -> Path, paths: seq<string>)
    requires Tree(first) && Tree(later)
    ensures var n := Restore(later, resolve, Snapshots(first, resolve, paths)).1;
            n <= |paths| && (forall i: nat :: i < n ==> Clear(first, later, resolve, paths, i))
            && (n < |paths| ==> !Clear(first, later, resolve, paths, n))
    decreases |paths|
  {
    if paths != [] {
      var s := SnapshotOf(first, resolve, paths[0]);
      var rest := Snapshots(first, resolve, paths[1..]);
      assert ([s] + rest)[1..] == rest;
      FailsExactly(later, resolve(paths[0]), s);
      if !Fails(later, resolve(paths[0]), s) {
        var next := PutBack(later, resolve(paths[0]), s);
        PutBackKeepsTree(later, resolve(paths[0]), s);
        RestoreSucceedsExactly(first, next, resolve, paths[1..]);
        forall i: nat | 0 < i < |paths|
          ensures Clear(first, next, resolve, paths[1..], i - 1) <==> Clear(first, later, resolve, paths, i)
        {
          ClearStep(first, later, resolve, paths, i);
        }
      }
    }
  }

  /** Create, any change to the tree, rewind under the same root. A place that was not snapshotted
      changes exactly if it was missing by now and text was snapshotted in it: it becomes a
      directory. A snapshotted place is as it was exactly if it held text; or was a directory and
      is one now or had text snapshotted in it; or held nothing and is no directory now. In
      particular a file that is not text is deleted. */
  lemma RewindRestoresExactly(first: Disk, later: Disk, resolve: string -> Path, paths: seq<string>, at: Path)
    requires Tree(first) && Tree(later)
    requires Restore(later, resolve, Snapshots(first, resolve, paths)).1 == |paths|
    ensures var after := Restore(later, resolve, Snapshots(first, resolve, paths)).0;
            if !Covers(resolve, paths, at) then
              NodeAt(after, at) == if at !in later && HoldsText(first, resolve, paths, at) then Some(Directory) else NodeAt(later, at)
            else
              NodeAt(after, at) == NodeAt(first, at)
              <==> match NodeAt(first, at)
                   case Some(TextFile(_)) => true
                   case Some(OtherFile(_)) => false
                   case Some(Directory) => IsDirectory(later, at) || HoldsText(first, resolve, paths, at)
                   case None => !IsDirectory(later, at)
  {
    RestoreAt(first, later, resolve, paths, at);
    assert paths[..|paths|] == paths;
    if HoldsText(first, resolve, paths, at) {
      var i :| 0 <= i < |paths| && IsText(first, resolve(paths[i])) && Above(at, resolve(paths[i]));
      RestoreSucceedsExactly(first, later, resolve, paths);
      assert Clear(first, later, resolve, paths, i);
      if Covers(resolve, paths[..i], at) {
        var j :| 0 <= j < i && resolve(paths[..i][j]) == at;
        assert paths[..i][j] == paths[j];
      }
    }
  }

  /** Under another root the snapshots go elsewhere: of the places the new root does not lead to
      those that exist keep what was written since, and a missing one becomes a directory exactly
      if some text was written below it. */
  lemma {:induction false} MovedRootRestoresElsewhere(later: Disk, moved: string -> Path, files: seq<Snapshot>,
                                                      at: Path)
    requires Tree(later) && forall i :: 0 <= i < |files| ==> moved(files[i].path) != at
    ensures var (after, n) := Restore(later, moved, files);
            n <= |files|
            && NodeAt(after, at) == if at !in later && exists i :: 0 <= i < n && files[i].existed && Above(at, moved(files[i].path))
                                    then Some(Directory) else NodeAt(later, at)
    decreases |files|
  {
    if files != [] {
      var t := moved(files[0].path);
      var next := PutBack(later, t, files[0]);
      PutBackAt(later, t, files[0], at);
      FailsExactly(later, t, files[0]);
      if !Fails(later, t, files[0]) {
        PutBackKeepsTree(later, t, files[0]);
        MovedRootRestoresElsewhere(next, moved, files[1..], at);
        var n := Restore(next, moved, files[1..]).1;
        assert forall i :: 0 < i < n + 1 ==> files[i] == files[1..][i - 1];
        assert forall i :: 0 <= i < n ==> files[1..][i] == files[i + 1];
      }
    }
  }

  // ---- the session's events ----

  /** The stream part of a rewind: cut and report, but only past number 0. */
  function RewindStream(st: Session, cap: Option<nat>, eventSeq: int, note: Event): Session {
    if eventSeq > 0 then Emit(TruncateTo(st, cap, eventSeq), cap, note, true) else st
  }

  function RewindHistory(h: History, cap: Option<nat>, eventSeq: int, note: Event): History {
    if eventSeq > 0 then EmitTo(Truncated(h, eventSeq), cap, note, true) else h
  }

  lemma RewindRefines(st: Session, cap: Option<nat>, h: History, eventSeq: int, note: Event)
    requires Refines(st, cap, h)
    ensures Refines(RewindStream(st, cap, eventSeq, note), cap, RewindHistory(h, cap, eventSeq, note))
  {
    if eventSeq > 0 {
      TruncateRefines(st, cap, h, eventSeq);
      EmitRefines(TruncateTo(st, cap, eventSeq), cap, Truncated(h, eventSeq), note, true);
    }
  }

  /** Nothing but emits, looks and writer steps. */
  ghost predicate OnlyEmits(ops: seq<Op>) {
    forall i :: 0 <= i < |ops| ==> ops[i].DoEmit? || ops[i].DoTouch? || ops[i].DoWrite?
  }

  /** Emits add events numbered one by one from the counter they started from. */
  lemma {:induction false} EmitsAddAbove(h: History, cap: Option<nat>, ops: seq<Op>)
      returns (more: seq<Event>, durable: seq<Event>)
    requires OnlyEmits(ops)
    ensures var later := RunHistory(h, cap, ops);
            later.Events() == h.Events() + more && later.durable == h.durable + durable && later.counter == h.counter + |more|
            && (forall i :: 0 <= i < |more| ==> more[i].num == h.counter + 1 + i)
            && (forall i :: 0 <= i < |durable| ==> durable[i].num > h.counter)
    decreases |ops|
  {
    if ops == [] {
      more, durable := [], [];
      assert h.Events() + [] == h.Events() && h.durable + [] == h.durable;
    } else {
      var before, last := ops[..|ops| - 1], ops[|ops| - 1];
      more, durable := EmitsAddAbove(h, cap, before);
      var at := RunHistory(h, cap, before);
      if last.DoEmit? {
        var e := last.event.(num := at.counter + 1);
        EmitAppends(at, cap, last.event, last.durable);
        assert h.Events() + (more + [e]) == (h.Events() + more) + [e];
        assert h.durable + (durable + [e]) == (h.durable + durable) + [e];
        more, durable := more + [e], if last.durable then durable + [e] else durable;
      }
    }
  }

  lemma TruncatesBack(h: History, cap: Option<nat>, ops: seq<Op>)
    requires Sound(h, cap) && OnlyEmits(ops)
    ensures var back := Truncated(RunHistory(h, cap, ops), h.counter);
            back.Events() == h.Events() && back.durable == h.durable && back.counter == h.counter
  {
    var later := RunHistory(h, cap, ops);
    var more, durable := EmitsAddAbove(h, cap, ops);
    TruncateFilters(later, h.counter);
    CutBack(h.Events(), more, h.counter);
    CutBack(h.durable, durable, h.counter);
  }

  /** A rewind to a checkpoint past number 0 gives back the very events of that moment, with the
      report after them; to a checkpoint at number 0 it cuts nothing. */
  lemma RewindGivesBackTheEvents(h: History, cap: Option<nat>, ops: seq<Op>, note: Event)
    requires Sound(h, cap) && OnlyEmits(ops)
    ensures var later := RunHistory(h, cap, ops);
            var back := RewindHistory(later, cap, h.counter, note);
            var numbered := note.(num := h.counter + 1);
            if h.counter > 0 then
              back.Events() == h.Events() + [numbered] && back.durable == h.durable + [numbered] && back.counter == h.counter + 1
            else back == later
  {
    TruncatesBack(h, cap, ops);
    EmitAppends(Truncated(RunHistory(h, cap, ops), h.counter), cap, note, true);
  }

  lemma CutBack(kept: seq<Event>, more: seq<Event>, top: int)
    requires Numbered(kept, top) && forall i :: 0 <= i < |more| ==> more[i].num > top
    ensures UpTo(kept + more, top) == kept
  {
    UpToConcat(kept, more, top);
    EventReplay.UpToAll(kept, top);
    EventReplay.UpToNone(more, top);
    assert kept + [] == kept;
  }

  lemma CutOne(kept: seq<Event>, e: Event, top: int)
    requires forall i :: 0 <= i < |kept| ==> kept[i].num <= top
    ensures UpTo(kept + [e], top) == if e.num <= top then kept + [e] else kept
  {
    UpToConcat(kept, [e], top);
    EventReplay.UpToAll(kept, top);
    assert UpTo([e], top) == if e.num <= top then [e] else [];
    assert kept + [] == kept;
  }

  /** What a run of emits from a log adds to it. */
  ghost predicate Added(log: seq<Event>, cap: Option<nat>, ops: seq<Op>, more: seq<Event>, durable: seq<Event>) {
    var later := RunHistory(Found(log, cap), cap, ops);
    later.Events() == log + more && later.durable == log + durable
    && forall i :: 0 <= i < |more| ==> more[i].num == TopOf(log) + 1 + i
  }

  lemma FoundEvents(log: seq<Event>, cap: Option<nat>, top: int)
    requires Numbered(log, top)
    ensures Found(log, cap).Events() == log && Found(log, cap).durable == log && Found(log, cap).counter == TopOf(log)
  {
    var k := Overflow(|log|, cap);
    assert log[..k] + log[k..] == log;
    if log != [] {
      NumberedMax(log, top);
    }
  }

  lemma {:induction false} CutConsecutive(more: seq<Event>, from: int, top: int)
    requires forall i :: 0 <= i < |more| ==> more[i].num == from + 1 + i
    ensures UpTo(more, top) == more[..if top <= from then 0 else if top - from <= |more| then top - from else |more|]
  {
    if more != [] {
      CutConsecutive(more[1..], from + 1, top);
      var k := if top <= from then 0 else if top - from <= |more| then top - from else |more|;
      if k > 0 {
        assert more[..k] == [more[0]] + more[1..][..k - 1];
      } else {
        EventReplay.UpToNone(more, top);
      }
    }
  }

  lemma AllUpTo(kept: seq<Event>, more: seq<Event>, top: int)
    requires Numbered(kept, top)
    ensures UpTo(kept + more, top) == kept + UpTo(more, top)
  {
    UpToConcat(kept, more, top);
    EventReplay.UpToAll(kept, top);
  }

  /** Over a restart the cut can miss. Of the events emitted after it, those survive a rewind that
      the restart numbered up to the checkpoint's number: the first of them, as many as that number
      is above the last durable one, and the durable ones among them in the log. */
  lemma RestartedEventsSurviveExactly(h: History, cap: Option<nat>, ops: seq<Op>) returns (more: seq<Event>, durable: seq<Event>)
    requires Sound(h, cap) && OnlyEmits(ops)
    ensures Added(h.durable, cap, ops, more, durable)
    ensures var back := Truncated(RunHistory(Found(h.durable, cap), cap, ops), h.counter);
            var missed := h.counter - TopOf(h.durable);
            missed >= 0 && back.Events() == h.durable + more[..if missed <= |more| then missed else |more|]
            && back.durable == h.durable + UpTo(durable, h.counter)
  {
    hide Truncated, Found;
    FoundEvents(h.durable, cap, h.counter);
    more, durable := EmitsAddAbove(Found(h.durable, cap), cap, ops);
    var later := RunHistory(Found(h.durable, cap), cap, ops);
    TruncateFilters(later, h.counter);
    AllUpTo(h.durable, more, h.counter);
    AllUpTo(h.durable, durable, h.counter);
    CutConsecutive(more, TopOf(h.durable), h.counter);
    DurableCut(later, h.counter);
  }

  lemma DurableCut(h: History, max: int)
    ensures Truncated(h, max).durable == UpTo(h.durable, max)
  {
  }

  lemma FoundTop(log: seq<Event>, cap: Option<nat>, e: Event, top: int)
    requires Numbered(log, top)
    ensures EmitTo(Found(log, cap), cap, e, true).durable == log + [e.(num := TopOf(log) + 1)]
  {
    if log != [] {
      NumberedMax(log, top);
    }
  }

  /** For one event: the first durable one after a restart survives the rewind exactly if the
      checkpoint's number was above the last durable event's. */
  lemma RestartedEventSurvivesExactly(h: History, cap: Option<nat>, e: Event)
    requires Sound(h, cap)
    ensures var later := EmitTo(Found(h.durable, cap), cap, e, true);
            later.durable == h.durable + [e.(num := TopOf(h.durable) + 1)]
            && Truncated(later, h.counter).durable == if TopOf(h.durable) < h.counter then later.durable else h.durable
  {
    FoundTop(h.durable, cap, e, h.counter);
    CutOne(h.durable, e.(num := TopOf(h.durable) + 1), h.counter);
  }
}
