/**
 * A run of the window: it starts by reading the index file, and each user
 * action, finished scan or watcher event is one step on the index state.
 * The steps together keep the directory list valid and the current
 * directory listed.
 */
module Session {
  import opened Wrappers
  import opened Paths
  import opened Scanner
  import opened Index
  import opened Watcher
  import opened Seqs

  /**
   * What can happen to the index: a directory added through the dialog, a
   * directory picked in the drop-down, a deletion with the user's answer,
   * a scan of the current directory finishing (after a switch, an
   * addition or "Refresh Index"), or a watcher event. `delete_directory`
   * always deletes the drop-down's current entry; `Delete` takes any index,
   * so the model allows more deletions than the program can make.
   */
  datatype Command =
    | Add(directory: Path)
    | Select(index: int)
    | Delete(index: int, confirmed: bool)
    | Rescan(walk: Walk)
    | Watch(event: WatchEvent)

  /** A refused addition or deletion leaves the state as it was, and only
      an addition lengthens the directory list, by one. */
  function Step(s: AppState, c: Command): (r: AppState)
    ensures c.Add? && AddDirectory(s, c.directory).Failure? ==> r == s
    ensures c.Delete? && DeleteDirectory(s, c.index, c.confirmed).Failure? ==> r == s
    ensures c.Add? ==> |r.directories| <= |s.directories| + 1
    ensures !c.Add? ==> |r.directories| <= |s.directories|
  {
    match c
    case Add(d) =>
      (match AddDirectory(s, d)
       case Success(t) => t
       case Failure(_) => s)
    case Select(i) => ChangeDirectory(s, i)
    case Delete(i, confirmed) =>
      (match DeleteDirectory(s, i, confirmed)
       case Success(t) => t
       case Failure(_) => s)
    case Rescan(walk) => IndexFiles(s, walk)
    case Watch(e) => Dispatch(s, e)
  }

  /** The commands applied in order. */
  function Run(s: AppState, cs: seq<Command>): (r: AppState)
    ensures (forall k :: 0 <= k < |cs| ==> !cs[k].Add?) ==> |r.directories| <= |s.directories|
    ensures |r.directories| <= |s.directories| + |cs|
    decreases |cs|
  {
    if cs == [] then s else Run(Step(s, cs[0]), cs[1..])
  }

  /** An index file this program could have written. */
  predicate ValidSnapshot(snap: Snapshot) {
    ValidDirectoryList(snap.directories) && (snap.directories == [] ==> snap.files == {})
  }

  /**
   * What every step keeps: a valid directory list, a current directory
   * that is listed, no indexed file without a current directory, and a
   * valid index file.
   */
  predicate Invariant(s: AppState) {
    && ValidDirectoryList(s.directories)
    && (s.current.Some? ==> s.current.value in s.directories)
    && (s.current.None? ==> s.files == {})
    && (s.persisted.Some? ==> ValidSnapshot(s.persisted.value))
  }

  /** The window at start-up, after reading the index file if there is
      one: the stored directories are listed, the first one is current, and
      no file is shown until its rescan finishes. */
  function Start(stored: Option<Snapshot>): (r: AppState)
    requires stored.Some? ==> ValidSnapshot(stored.value)
    ensures Invariant(r) && Contained(r)
    ensures r.files == {}
    ensures stored.Some? ==> r.directories == stored.value.directories && r.persisted == stored
    ensures stored.Some? ==> (InSync(r) <==> stored.value.files == {})
  {
    LoadIndex(Initial, stored)
  }

  lemma SaveKeepsInvariant(s: AppState)
    requires Invariant(s)
    ensures Invariant(Save(s))
  {
    if s.directories == [] {
      assert s.current.None?;
    }
  }

  lemma AddKeepsInvariant(s: AppState, d: Path)
    requires Invariant(s)
    ensures Invariant(Step(s, Add(d)))
  {
    AddDirectoryKeepsListValid(s, d);
  }

  lemma DeleteKeepsInvariant(s: AppState, index: int, confirmed: bool)
    requires Invariant(s)
    ensures Invariant(Step(s, Delete(index, confirmed)))
  {
    var r := DeleteDirectory(s, index, confirmed);
    if r.Success? {
      DeleteDirectoryKeepsListValid(s, index, confirmed);
      var t := r.value;
      assert Step(s, Delete(index, confirmed)) == t;
      if |s.directories| > 1 {
        var next := if index + 1 < |s.directories| then s.directories[index + 1] else s.directories[index - 1];
        assert next in Elements(s.directories);
      }
    }
  }

  lemma RescanKeepsInvariant(s: AppState, walk: Walk)
    requires Invariant(s)
    ensures Invariant(Step(s, Rescan(walk)))
  {
    if s.current.Some? && s.current != Some("") {
      var kept := KeptFiles(Exclusions, walk);
      var indexed := s.(files := Elements(kept));
      if |kept| > 0 {
        SaveKeepsInvariant(indexed);
      }
    }
  }

  /** Every step keeps the invariant. */
  lemma StepKeepsInvariant(s: AppState, c: Command)
    requires Invariant(s)
    ensures Invariant(Step(s, c))
  {
    match c
    case Add(d) => AddKeepsInvariant(s, d);
    case Select(i) =>
    case Delete(i, confirmed) => DeleteKeepsInvariant(s, i, confirmed);
    case Rescan(walk) => RescanKeepsInvariant(s, walk);
    case Watch(e) =>
      var r := Dispatch(s, e);
      if r.persisted != s.persisted {
        SaveKeepsInvariant(r.(persisted := s.persisted));
      }
  }

  /** From start-up on, any sequence of steps keeps the invariant: at most
      ten directories, none listed twice, none protected. */
  lemma {:induction false} RunKeepsInvariant(s: AppState, cs: seq<Command>)
    requires Invariant(s)
    ensures Invariant(Run(s, cs))
    ensures |Run(s, cs).directories| <= MaxDirectories
    decreases |cs|
  {
    if cs != [] {
      StepKeepsInvariant(s, cs[0]);
      RunKeepsInvariant(Step(s, cs[0]), cs[1..]);
    }
  }

  /** The walk a finished scan reports stays inside the directory being
      indexed. */
  ghost predicate WalkFits(s: AppState, c: Command) {
    c.Rescan? && s.current.Some? ==> WalkWithin(s.current.value, c.walk)
  }

  /** Once every indexed file lies inside the current directory, every
      step keeps it so, provided scans walk inside that directory. */
  lemma StepKeepsContained(s: AppState, c: Command)
    requires Contained(s) && WalkFits(s, c)
    ensures Contained(Step(s, c))
  {
    match c
    case Add(d) =>
    case Select(i) =>
    case Delete(i, confirmed) =>
    case Rescan(walk) =>
      if s.current.Some? {
        IndexFilesContained(s, walk);
      }
    case Watch(e) => DispatchKeepsContained(s, e);
  }

  /** The rescan that start-up triggers indexes the first stored
      directory: afterwards the shown files are exactly the walk's eligible
      files. */
  lemma StartThenRescan(stored: Snapshot, walk: Walk)
    requires ValidSnapshot(stored) && stored.directories != []
    ensures var r := Step(Start(Some(stored)), Rescan(walk));
      && r.current == Some(stored.directories[0])
      && forall p :: p in r.files <==> Eligible(Exclusions, walk, p)
  {
    var s := Start(Some(stored));
    assert s.current == Some(stored.directories[0]) && stored.directories[0] != "";
    IndexFilesContents(s, walk);
  }
}
