/**
 * The live-update handlers the file watcher calls while the current
 * directory is monitored (`handle_file_event`, `handle_file_removed`,
 * `handle_file_renamed`) and the routing of watchdog events to them
 * (`FileMonitorHandler`).
 */
module Watcher {
  import opened Wrappers
  import opened Paths
  import opened Index

  /**
   * A handler acts on a path only when it lies inside the current
   * directory. Without a current directory `is_safe_path` raises in the
   * watcher thread, so the event is dropped as well.
   */
  function Accepts(s: AppState, p: Path): (r: bool)
    ensures r <==> s.current.Some? && Key(s.current.value) <= Key(p)
  {
    s.current.Some? && IsSafePath(s.current.value, p)
  }

  /** `handle_file_event` (a file was created or modified): an accepted
      path not yet indexed is added and the index saved. */
  function HandleFileEvent(s: AppState, p: Path): (r: AppState)
    ensures r.directories == s.directories && r.current == s.current && r.lastModifiedTime == s.lastModifiedTime
    ensures !Accepts(s, p) ==> r == s
    ensures Accepts(s, p) ==> r.files == s.files + {p}
    ensures p in s.files ==> r == s
    ensures Accepts(s, p) && p !in s.files ==> InSync(r)
  {
    if !Accepts(s, p) || p in s.files then s
    else Save(s.(files := s.files + {p}))
  }

  /** `handle_file_removed`: an accepted, indexed path is removed and the
      index saved. */
  function HandleFileRemoved(s: AppState, p: Path): (r: AppState)
    ensures r.directories == s.directories && r.current == s.current && r.lastModifiedTime == s.lastModifiedTime
    ensures !Accepts(s, p) || p !in s.files ==> r == s
    ensures Accepts(s, p) ==> r.files == s.files - {p}
    ensures Accepts(s, p) && p in s.files ==> InSync(r)
  {
    if Accepts(s, p) && p in s.files then Save(s.(files := s.files - {p}))
    else s
  }

  /**
   * `handle_file_renamed` as written: when both paths are accepted, the
   * source path is removed and the destination added, but the index is
   * saved only when the destination was not indexed yet.
   */
  function HandleFileRenamedAsWritten(s: AppState, src: Path, dest: Path): (r: AppState)
    ensures r.directories == s.directories && r.current == s.current && r.lastModifiedTime == s.lastModifiedTime
    ensures !Accepts(s, src) || !Accepts(s, dest) ==> r == s
    ensures Accepts(s, src) && Accepts(s, dest) ==> r.files == s.files - {src} + {dest}
    ensures r.persisted != s.persisted ==> Accepts(s, src) && Accepts(s, dest) && (dest !in s.files || dest == src)
    ensures Accepts(s, src) && Accepts(s, dest) && dest !in s.files ==> InSync(r)
  {
    if !Accepts(s, src) || !Accepts(s, dest) then s
    else
      var removed := if src in s.files then s.(files := s.files - {src}) else s;
      if dest !in removed.files then Save(removed.(files := removed.files + {dest}))
      else removed
  }

  /** `handle_file_renamed` with the index saved whenever the file set
      changed. */
  function HandleFileRenamed(s: AppState, src: Path, dest: Path): (r: AppState)
    ensures r.directories == s.directories && r.current == s.current && r.lastModifiedTime == s.lastModifiedTime
    ensures !Accepts(s, src) || !Accepts(s, dest) ==> r == s
    ensures Accepts(s, src) && Accepts(s, dest) ==> r.files == s.files - {src} + {dest}
    ensures r.files != s.files ==> InSync(r)
  {
    if !Accepts(s, src) || !Accepts(s, dest) || (src !in s.files && dest in s.files) then s
    else Save(s.(files := s.files - {src} + {dest}))
  }

  /** Renaming an indexed file onto another indexed file of the same
      directory drops the source path from the shown files, but the index
      file keeps it; the corrected handler saves. */
  lemma RenameOntoIndexedFileLeavesIndexStale(dir: Path, a: string, b: string)
    requires SepFree(a) && SepFree(b) && a != b
    ensures var s := Save(AppState([dir], Some(dir), {Join(dir, a), Join(dir, b)}, 0, None));
      && InSync(s)
      && HandleFileRenamedAsWritten(s, Join(dir, a), Join(dir, b)).files == {Join(dir, b)}
      && !InSync(HandleFileRenamedAsWritten(s, Join(dir, a), Join(dir, b)))
      && InSync(HandleFileRenamed(s, Join(dir, a), Join(dir, b)))
  {
    var pa, pb := Join(dir, a), Join(dir, b);
    var s := Save(AppState([dir], Some(dir), {pa, pb}, 0, None));
    DriveChildIsInside(dir, a);
    DriveChildIsInside(dir, b);
    JoinInjective(dir, a, b);
    assert s.files - {pa} + {pb} == {pb};
    var r := HandleFileRenamedAsWritten(s, pa, pb);
    assert r.persisted == s.persisted;
    assert pa in s.persisted.value.files && pa !in r.files;
  }

  /** Distinct names give distinct paths in the same directory. */
  lemma JoinInjective(dir: Path, a: string, b: string)
    requires a != b
    ensures Join(dir, a) != Join(dir, b)
  {
    var k := |Join(dir, a)| - |a|;
    assert Join(dir, a)[k..] == a;
    if |a| == |b| {
      assert Join(dir, b)[k..] == b;
    }
  }

  lemma DriveChildIsInside(dir: Path, name: string)
    requires SepFree(name)
    ensures IsSafePath(dir, Join(dir, name))
  {
    IsSafePathReflexive(dir);
    JoinStaysInside(dir, dir, name);
  }

  /** A watchdog event: the kind of change and the paths involved. */
  datatype FsEvent = Created(path: Path) | Modified(path: Path) | Deleted(path: Path) | Moved(src: Path, dest: Path)

  /** An event as the observer delivers it, for a file or a directory. */
  datatype WatchEvent = WatchEvent(event: FsEvent, isDirectory: bool)

  /** `FileMonitorHandler`: file events go to the program's handlers,
      directory events are ignored. A move goes to `handle_file_renamed`
      as written. */
  function Dispatch(s: AppState, e: WatchEvent): (r: AppState)
    ensures r.directories == s.directories && r.current == s.current && r.lastModifiedTime == s.lastModifiedTime
    ensures e.isDirectory ==> r == s
    ensures !e.isDirectory && (e.event.Created? || e.event.Modified?) ==> r == HandleFileEvent(s, e.event.path)
    ensures !e.isDirectory && e.event.Deleted? ==> r == HandleFileRemoved(s, e.event.path)
    ensures !e.isDirectory && e.event.Moved? ==> r == HandleFileRenamedAsWritten(s, e.event.src, e.event.dest)
  {
    if e.isDirectory then s
    else
      match e.event
      case Created(p) => HandleFileEvent(s, p)
      case Modified(p) => HandleFileEvent(s, p)
      case Deleted(p) => HandleFileRemoved(s, p)
      case Moved(src, dest) => HandleFileRenamedAsWritten(s, src, dest)
  }

  /** The routing with the corrected `handle_file_renamed`. */
  function DispatchCorrected(s: AppState, e: WatchEvent): (r: AppState)
    ensures r.directories == s.directories && r.current == s.current && r.lastModifiedTime == s.lastModifiedTime
    ensures !(e.event.Moved? && !e.isDirectory) ==> r == Dispatch(s, e)
  {
    if !e.isDirectory && e.event.Moved? then HandleFileRenamed(s, e.event.src, e.event.dest)
    else Dispatch(s, e)
  }

  /** The events delivered in order, one after the other. */
  function ApplyEvents(s: AppState, events: seq<WatchEvent>): (r: AppState)
    ensures r.directories == s.directories && r.current == s.current && r.lastModifiedTime == s.lastModifiedTime
    decreases |events|
  {
    if events == [] then s else ApplyEvents(Dispatch(s, events[0]), events[1..])
  }

  /** The events delivered in order to the corrected routing. */
  function ApplyEventsCorrected(s: AppState, events: seq<WatchEvent>): (r: AppState)
    ensures r.directories == s.directories && r.current == s.current && r.lastModifiedTime == s.lastModifiedTime
    decreases |events|
  {
    if events == [] then s else ApplyEventsCorrected(DispatchCorrected(s, events[0]), events[1..])
  }

  /** Delivering the same create or modify event twice has the effect of
      delivering it once. */
  lemma HandleFileEventIdempotent(s: AppState, p: Path)
    ensures HandleFileEvent(HandleFileEvent(s, p), p) == HandleFileEvent(s, p)
  {
  }

  /** Creating a file and deleting it again restores the file set, and the
      index file then matches it. */
  lemma CreateThenDelete(s: AppState, p: Path)
    requires Accepts(s, p) && p !in s.files
    ensures HandleFileRemoved(HandleFileEvent(s, p), p).files == s.files
    ensures InSync(HandleFileRemoved(HandleFileEvent(s, p), p))
  {
    assert s.files + {p} - {p} == s.files;
  }

  /** With the corrected handler, a rename of an indexed file onto a new
      path followed by the reverse rename restores the file set, and the
      index file matches it. */
  lemma RenameThenRenameBack(s: AppState, src: Path, dest: Path)
    requires Accepts(s, src) && Accepts(s, dest)
    requires src in s.files && dest !in s.files
    ensures HandleFileRenamed(HandleFileRenamed(s, src, dest), dest, src).files == s.files
    ensures InSync(HandleFileRenamed(HandleFileRenamed(s, src, dest), dest, src))
  {
    assert s.files - {src} + {dest} - {dest} + {src} == s.files;
  }

  /** The handler as written does the same: both renames go to a path that
      is not indexed yet, so both save. */
  lemma RenameThenRenameBackAsWritten(s: AppState, src: Path, dest: Path)
    requires Accepts(s, src) && Accepts(s, dest)
    requires src in s.files && dest !in s.files
    ensures HandleFileRenamedAsWritten(HandleFileRenamedAsWritten(s, src, dest), dest, src).files == s.files
    ensures InSync(HandleFileRenamedAsWritten(HandleFileRenamedAsWritten(s, src, dest), dest, src))
  {
    var moved := HandleFileRenamedAsWritten(s, src, dest);
    assert moved.files == s.files - {src} + {dest};
    assert src !in moved.files;
    assert s.files - {src} + {dest} - {dest} + {src} == s.files;
  }

  /** A file event leaves every indexed file inside the current
      directory. */
  lemma DispatchKeepsContained(s: AppState, e: WatchEvent)
    requires Contained(s)
    ensures Contained(Dispatch(s, e))
  {
  }

  /** Any sequence of events leaves every indexed file inside the current
      directory. */
  lemma {:induction false} ApplyEventsKeepsContained(s: AppState, events: seq<WatchEvent>)
    requires Contained(s)
    ensures Contained(ApplyEvents(s, events))
    decreases |events|
  {
    if events != [] {
      DispatchKeepsContained(s, events[0]);
      ApplyEventsKeepsContained(Dispatch(s, events[0]), events[1..]);
    }
  }

  /** A move of an indexed file onto another indexed path: the one event
      after which the program's index file can fall out of step. */
  predicate MovesOntoIndexed(s: AppState, e: WatchEvent) {
    !e.isDirectory && e.event.Moved? && e.event.src != e.event.dest && e.event.dest in s.files
  }

  /** Every other event keeps the index file in step with the file set. */
  lemma DispatchKeepsInSync(s: AppState, e: WatchEvent)
    requires InSync(s) && !MovesOntoIndexed(s, e)
    ensures InSync(Dispatch(s, e))
  {
  }

  /** Under the corrected routing every event keeps the index file in step
      with the file set. */
  lemma DispatchCorrectedKeepsInSync(s: AppState, e: WatchEvent)
    requires InSync(s)
    ensures InSync(DispatchCorrected(s, e))
  {
  }

  /** A sequence of create, modify and delete events keeps the index file
      in step with the file set. */
  lemma {:induction false} ApplyEventsKeepsInSync(s: AppState, events: seq<WatchEvent>)
    requires InSync(s)
    requires forall k :: 0 <= k < |events| ==> !events[k].event.Moved?
    ensures InSync(ApplyEvents(s, events))
    decreases |events|
  {
    if events != [] {
      DispatchKeepsInSync(s, events[0]);
      ApplyEventsKeepsInSync(Dispatch(s, events[0]), events[1..]);
    }
  }

  /** Under the corrected routing any sequence of events keeps the index
      file in step with the file set. */
  lemma {:induction false} ApplyEventsCorrectedKeepsInSync(s: AppState, events: seq<WatchEvent>)
    requires InSync(s)
    ensures InSync(ApplyEventsCorrected(s, events))
    decreases |events|
  {
    if events != [] {
      DispatchCorrectedKeepsInSync(s, events[0]);
      ApplyEventsCorrectedKeepsInSync(DispatchCorrected(s, events[0]), events[1..]);
    }
  }

  /** The program's routing loses step with one move: renaming an indexed
      file onto another indexed file of the current directory. */
  lemma DispatchCanLeaveIndexStale(dir: Path, a: string, b: string)
    requires SepFree(a) && SepFree(b) && a != b
    ensures var s := Save(AppState([dir], Some(dir), {Join(dir, a), Join(dir, b)}, 0, None));
      var e := WatchEvent(Moved(Join(dir, a), Join(dir, b)), false);
      InSync(s) && !InSync(Dispatch(s, e)) && InSync(DispatchCorrected(s, e))
  {
    RenameOntoIndexedFileLeavesIndexStale(dir, a, b);
  }

  /** The event removes `p` from the index: a deletion, or a move away. */
  predicate Removes(e: WatchEvent, p: Path) {
    !e.isDirectory && (e.event == Deleted(p) || (e.event.Moved? && e.event.src == p && e.event.dest != p))
  }

  /** The event can add `p` to the index: a creation, a modification, or a
      move onto it. */
  predicate Adds(e: WatchEvent, p: Path) {
    !e.isDirectory &&
    (e.event == Created(p) || e.event == Modified(p) || (e.event.Moved? && e.event.dest == p))
  }

  /** An indexed file stays indexed until an event removes it. */
  lemma {:induction false} ApplyEventsFrame(s: AppState, events: seq<WatchEvent>, p: Path)
    requires p in s.files
    requires forall k :: 0 <= k < |events| ==> !Removes(events[k], p)
    ensures p in ApplyEvents(s, events).files
    decreases |events|
  {
    if events != [] {
      assert !Removes(events[0], p);
      ApplyEventsFrame(Dispatch(s, events[0]), events[1..], p);
    }
  }

  /** A file is indexed after the events only when it was indexed before
      or an accepted event added it. */
  lemma {:induction false} ApplyEventsOnlyAdds(s: AppState, events: seq<WatchEvent>, p: Path)
    requires p in ApplyEvents(s, events).files
    ensures p in s.files || (Accepts(s, p) && exists k :: 0 <= k < |events| && Adds(events[k], p))
    decreases |events|
  {
    if events != [] {
      var t := Dispatch(s, events[0]);
      ApplyEventsOnlyAdds(t, events[1..], p);
      if p !in s.files {
        if p in t.files {
          assert Adds(events[0], p);
        } else {
          var k :| 0 <= k < |events[1..]| && Adds(events[1..][k], p);
          assert Adds(events[k + 1], p);
        }
      }
    }
  }
}
