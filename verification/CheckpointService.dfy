/**
 The checkpoint service as an object over disk, checkpoint table and event bus: snapshots pushed
 one by one, files written back one by one, then the session's stream cut and the rewind reported.
 */
module CheckpointService {
  import opened Wrappers
  import opened EventLog
  import opened EventStream
  import opened Checkpoint
  import EventBus

  datatype Error = NotFound | Filesystem(path: string)

  class Service {
    var disk: Disk
    var saved: map<string, Saved>
    const bus: EventBus.Bus

    constructor (bus: EventBus.Bus, disk: Disk)
      requires Tree(disk)
      ensures Tree(this.disk) && this.bus == bus && this.disk == disk && saved == map[]
    {
      this.bus, this.disk, saved := bus, disk, map[];
    }

    /** Reads the files as they are now. */
    method Snap(paths: seq<string>, resolve: string -> Path) returns (files: seq<Snapshot>)
      ensures files == Snapshots(disk, resolve, paths)
    {
      var i := 0;
      files := [];
      assert paths[0..] == paths;
      while i < |paths|
        invariant i <= |paths|
        invariant files + Snapshots(disk, resolve, paths[i..]) == Snapshots(disk, resolve, paths)
      {
        var at := resolve(paths[i]);
        var s := if at in disk && disk[at].TextFile? then Snapshot(paths[i], disk[at].content, true) else Snapshot(paths[i], "", false);
        assert paths[i..][0] == paths[i] && paths[i..][1..] == paths[i + 1..];
        assert files + ([s] + Snapshots(disk, resolve, paths[i + 1..])) == (files + [s]) + Snapshots(disk, resolve, paths[i + 1..]);
        files := files + [s];
        i := i + 1;
      }
      assert files + [] == files;
    }

    /** A checkpoint of files and of the session's latest number. */
    method Create(session: string, paths: seq<string>, resolve: string -> Path, id: string) returns (cp: Saved)
      requires bus.Valid()
      modifies this`saved, bus
      ensures bus.Valid() && bus.View(session) == Hydrate(old(bus.View(session)), bus.cap)
      ensures cp == Saved(session, Snapshots(disk, resolve, paths), bus.View(session).Latest())
      ensures saved == old(saved)[id := cp]
    {
      var n := bus.LatestSeq(session);
      var files := Snap(paths, resolve);
      cp := Saved(session, files, n);
      saved := saved[id := cp];
    }

    /** Writes one file back, with the directories it lies in, or removes it. */
    method WriteBack(at: Path, s: Snapshot) returns (ok: bool)
      modifies this`disk
      ensures disk == PutBack(old(disk), at, s) && (ok <==> !Fails(old(disk), at, s))
    {
      ok := true;
      if s.existed {
        if at != [] {
          disk := CreateDirAll(disk, Parent(at));
        }
        if at == [] || (at in disk && disk[at].Directory?) || !(Parent(at) in disk && disk[Parent(at)].Directory?) {
          return false;
        }
        disk := disk[at := TextFile(s.content)];
      } else if !(at in disk && disk[at].Directory?) {
        disk := disk - {at};
      }
    }

    /** Writes the files of a checkpoint back, up to the first error. */
    method RewindFiles(files: seq<Snapshot>, resolve: string -> Path) returns (failed: Option<string>)
      requires Tree(disk)
      modifies this`disk
      ensures Tree(disk)
      ensures var (after, n) := Restore(old(disk), resolve, files);
              disk == after && n <= |files| && failed == if n < |files| then Some(files[n].path) else None
    {
      hide PutBack, Fails;
      RestoreKeepsTree(disk, resolve, files);
      var i := 0;
      assert files[0..] == files;
      while i < |files|
        invariant i <= |files|
        invariant Restore(old(disk), resolve, files) == Ahead(Restore(disk, resolve, files[i..]), i)
      {
        assert files[i..][0] == files[i] && files[i..][1..] == files[i + 1..];
        var ok := WriteBack(resolve(files[i].path), files[i]);
        if !ok {
          return Some(files[i].path);
        }
        i := i + 1;
      }
      failed := None;
    }

    /** Rewinds files and event stream; the stream is left alone when a file fails. */
    method RewindCheckpoint(id: string, resolve: string -> Path, note: Event) returns (r: Result<Saved, Error>)
      requires bus.Valid() && Tree(disk)
      modifies this`disk, bus
      ensures bus.Valid() && Tree(disk)
      ensures id !in saved ==> r == Err(NotFound) && disk == old(disk) && forall s :: bus.View(s) == old(bus.View(s))
      ensures id in saved ==>
                var cp := saved[id];
                var (after, n) := Restore(old(disk), resolve, cp.files);
                disk == after && n <= |cp.files|
                && (forall s :: s != cp.session ==> bus.View(s) == old(bus.View(s)))
                && if n < |cp.files| then
                     r == Err(Filesystem(cp.files[n].path)) && bus.View(cp.session) == old(bus.View(cp.session))
                   else
                     r == Ok(cp)
                     && bus.View(cp.session) == if cp.session == "" then old(bus.View(cp.session))
                                                else RewindStream(old(bus.View(cp.session)), bus.cap, cp.eventSeq, note.(session := cp.session))
    {
      hide Restore, Emit, TruncateTo;
      if id !in saved {
        return Err(NotFound);
      }
      var cp := saved[id];
      var failed := RewindFiles(cp.files, resolve);
      if failed.Some? {
        return Err(Filesystem(failed.value));
      }
      if cp.session != "" && cp.eventSeq > 0 {
        bus.TruncateToSeq(cp.session, cp.eventSeq);
        var e := bus.EmitEvent(note.(session := cp.session), true);
      }
      r := Ok(cp);
    }
  }

  /** The result of a restore that goes on after i files. */
  function Ahead(r: (Disk, nat), i: nat): (Disk, nat) {
    (r.0, r.1 + i)
  }
}
