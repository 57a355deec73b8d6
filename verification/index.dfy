/**
 * The indexer's state and the transitions the window applies to it: the
 * list of monitored directories (`add_directory`, `change_directory`,
 * `delete_directory`), indexing the current directory (`index_files`),
 * and reading and writing the persisted index (`load_or_index_files`,
 * `save_index`).
 */
module Index {
  import opened Wrappers
  import opened Paths
  import opened Scanner
  import opened Seqs

  /** At most this many directories can be monitored. */
  const MaxDirectories: nat := 10

  /** Directories `add_directory` refuses, compared after `abspath`. This
      set is larger than, and differently shaped from, the prefixes the
      scan skips. */
  const ProtectedDirectories: set<string> :=
    {"C:\\Windows", "C:\\Windows\\System32", "C:\\Windows\\SysWOW64",
     "C:\\Windows\\Temp", "C:\\Windows\\Hyper-V", "C:\\Program Files",
     "C:\\Program Files (x86)", "C:\\Recovery", "C:\\System Volume Information",
     "C:\\Perflogs", "C:\\Users", "C:\\Users\\AppData", "C:\\$Recycle.Bin",
     "C:\\Boot", "C:\\EFI", "Z:\\"}

  /** The content of the index file: what `save_index` writes. */
  datatype Snapshot = Snapshot(directories: seq<Path>, lastModifiedTime: int, files: set<Path>)

  /**
   * The window's index state. `persisted` is the content of the index
   * file, `None` while there is none.
   */
  datatype AppState = AppState(
    directories: seq<Path>,
    current: Option<Path>,
    files: set<Path>,
    lastModifiedTime: int,
    persisted: Option<Snapshot>)

  /** The state the window starts from, before the index file is read. */
  const Initial: AppState := AppState([], None, {}, 0, None)

  function SnapshotOf(s: AppState): Snapshot {
    Snapshot(s.directories, s.lastModifiedTime, s.files)
  }

  /** The index file holds exactly what the window shows. */
  predicate InSync(s: AppState) {
    s.persisted == Some(SnapshotOf(s))
  }

  /** `save_index`: the index file now holds the state's snapshot. */
  function Save(s: AppState): (r: AppState)
    ensures InSync(r)
    ensures r.directories == s.directories && r.current == s.current && r.files == s.files
    ensures r.lastModifiedTime == s.lastModifiedTime
  {
    s.(persisted := Some(SnapshotOf(s)))
  }

  /** A directory list `add_directory` could have built: within the limit,
      no raw duplicates, no empty or protected entry. */
  predicate ValidDirectoryList(dirs: seq<Path>) {
    && |dirs| <= MaxDirectories
    && NoDuplicates(dirs)
    && forall i :: 0 <= i < |dirs| ==> dirs[i] != "" && AbsPath(dirs[i]) !in ProtectedDirectories
  }

  /** Every indexed file lies inside the current directory. */
  predicate Contained(s: AppState) {
    forall f :: f in s.files ==> s.current.Some? && IsSafePath(s.current.value, f)
  }

  /** Why `add_directory` refused a directory. */
  datatype AddError = NoSelection | ProtectedDirectory | DuplicateDirectory | LimitReached

  /**
   * `add_directory` with the directory the dialog returned (`""` when it
   * was cancelled). The checks run in `add_directory`'s order: protected
   * (after `abspath`), already listed (raw string), limit. A new directory
   * is appended and becomes the current one, which clears the file set;
   * indexing it is the separate `IndexFiles` step.
   */
  function AddDirectory(s: AppState, d: Path): (r: Result<AppState, AddError>)
    ensures r.Success? <==>
      d != "" && AbsPath(d) !in ProtectedDirectories && d !in s.directories && |s.directories| < MaxDirectories
    ensures d == "" ==> r == Failure(NoSelection)
    ensures d != "" && AbsPath(d) in ProtectedDirectories ==> r == Failure(ProtectedDirectory)
    ensures d != "" && AbsPath(d) !in ProtectedDirectories && d in s.directories ==> r == Failure(DuplicateDirectory)
    ensures d != "" && AbsPath(d) !in ProtectedDirectories && d !in s.directories && |s.directories| >= MaxDirectories ==>
      r == Failure(LimitReached)
    ensures r.Success? ==>
      && r.value.directories == s.directories + [d]
      && r.value.current == Some(d)
      && r.value.files == {}
      && r.value.lastModifiedTime == s.lastModifiedTime
      && r.value.persisted == s.persisted
  {
    if d == "" then Failure(NoSelection)
    else if AbsPath(d) in ProtectedDirectories then Failure(ProtectedDirectory)
    else if d in s.directories then Failure(DuplicateDirectory)
    else if |s.directories| >= MaxDirectories then Failure(LimitReached)
    else
      var added := s.(directories := s.directories + [d]);
      Success(ChangeDirectory(added, |added.directories| - 1))
  }

  /**
   * `change_directory(index)`: a valid index makes that directory current
   * and clears the file set; any other index changes nothing. The list
   * and the index file are untouched.
   */
  function ChangeDirectory(s: AppState, index: int): (r: AppState)
    ensures r.directories == s.directories && r.persisted == s.persisted
    ensures r.lastModifiedTime == s.lastModifiedTime
    ensures 0 <= index < |s.directories| ==> r.current == Some(s.directories[index]) && r.files == {}
    ensures !(0 <= index < |s.directories|) ==> r == s
  {
    if 0 <= index < |s.directories| then
      s.(current := Some(s.directories[index]), files := {})
    else
      s
  }

  /** Why `delete_directory` removed nothing. */
  datatype DeleteError = NoDirectories | InvalidSelection | Declined

  /** The list with the entry at `index` taken out. */
  function RemoveAt(xs: seq<Path>, index: nat): (r: seq<Path>)
    requires index < |xs|
    ensures |r| == |xs| - 1
    ensures forall j :: 0 <= j < index ==> r[j] == xs[j]
    ensures forall j :: index <= j < |r| ==> r[j] == xs[j + 1]
  {
    xs[..index] + xs[index + 1..]
  }

  /**
   * The drop-down entry selected after its selected entry at `removed` was
   * taken out, leaving `remaining` entries: the one that moved into its
   * place, or the new last entry when the last one was removed.
   */
  function Reselected(removed: nat, remaining: nat): (k: nat)
    requires 0 < remaining && removed <= remaining
    ensures k < remaining
    ensures k == removed || (k == remaining - 1 && removed == remaining)
  {
    if removed < remaining then removed else remaining - 1
  }

  /**
   * `delete_directory` for the selected `index`, with `confirmed` the
   * user's answer to the confirmation question. Removing the entry from
   * the drop-down re-enters `change_directory` for the entry selected
   * next, when there is one: it becomes current and the file set is
   * cleared (its rescan is a later step). When no entry is left and the
   * deleted directory was current, there is no current directory and the
   * file set is cleared. The result is saved.
   */
  function DeleteDirectory(s: AppState, index: int, confirmed: bool): (r: Result<AppState, DeleteError>)
    ensures s.directories == [] ==> r == Failure(NoDirectories)
    ensures s.directories != [] && !(0 <= index < |s.directories|) ==> r == Failure(InvalidSelection)
    ensures 0 <= index < |s.directories| && !confirmed ==> r == Failure(Declined)
    ensures r.Success? <==> 0 <= index < |s.directories| && confirmed
    ensures r.Success? ==> r.value.directories == RemoveAt(s.directories, index) && InSync(r.value)
    ensures r.Success? ==> r.value.lastModifiedTime == s.lastModifiedTime
    ensures r.Success? && |s.directories| > 1 ==>
      var next := if index + 1 < |s.directories| then s.directories[index + 1] else s.directories[index - 1];
      && r.value.files == {}
      && (next != s.directories[index] ==> r.value.current == Some(next))
      && (next == s.directories[index] ==> r.value.current == None)
    ensures r.Success? && |s.directories| == 1 ==>
      && (s.current == Some(s.directories[0]) ==> r.value.current == None && r.value.files == {})
      && (s.current != Some(s.directories[0]) ==> r.value.current == s.current && r.value.files == s.files)
  {
    if s.directories == [] then Failure(NoDirectories)
    else if !(0 <= index < |s.directories|) then Failure(InvalidSelection)
    else if !confirmed then Failure(Declined)
    else
      var removed := s.directories[index];
      var rest := RemoveAt(s.directories, index);
      var popped := s.(directories := rest);
      var reselected := if rest != [] then ChangeDirectory(popped, Reselected(index, |rest|)) else popped;
      var cleared := if reselected.current == Some(removed) then reselected.(current := None, files := {}) else reselected;
      Success(Save(cleared))
  }

  /**
   * `index_files` with the walk of the current directory: nothing happens
   * without a current directory; otherwise the file set becomes the
   * scan's kept files, and the index is saved only when at least one file
   * was kept.
   */
  function IndexFiles(s: AppState, walk: Walk): (r: AppState)
    ensures s.current == None || s.current == Some("") ==> r == s
    ensures r.directories == s.directories && r.current == s.current
    ensures r.lastModifiedTime == s.lastModifiedTime
  {
    if s.current == None || s.current == Some("") then s
    else
      var kept := KeptFiles(Exclusions, walk);
      var indexed := s.(files := Elements(kept));
      if |kept| == 0 then indexed else Save(indexed)
  }

  /** Indexing keeps exactly the eligible files of the walk, and saves
      exactly when it kept one. */
  lemma IndexFilesContents(s: AppState, walk: Walk)
    requires s.current.Some? && s.current != Some("")
    ensures forall p :: p in IndexFiles(s, walk).files <==> Eligible(Exclusions, walk, p)
    ensures InSync(IndexFiles(s, walk)) <==> (IndexFiles(s, walk).files != {} || InSync(s.(files := {})))
  {
    var kept := KeptFiles(Exclusions, walk);
    forall p
      ensures p in IndexFiles(s, walk).files <==> Eligible(Exclusions, walk, p)
    {
      KeptFilesAreEligible(Exclusions, walk, p);
    }
    if |kept| > 0 {
      assert kept[0] in IndexFiles(s, walk).files;
    }
  }

  /** Indexing a walk that stays inside the current directory leaves every
      indexed file inside it. */
  lemma IndexFilesContained(s: AppState, walk: Walk)
    requires s.current.Some? && WalkWithin(s.current.value, walk)
    ensures Contained(IndexFiles(s, walk))
  {
    var r := IndexFiles(s, walk);
    if s.current != Some("") {
      forall f | f in r.files
        ensures IsSafePath(s.current.value, f)
      {
        KeptFilesWithin(Exclusions, s.current.value, walk, f);
      }
    }
  }

  /**
   * `load_or_index_files` with the content of the index file, if there is
   * one. The directories, files and time are taken over. When a directory
   * is listed, selecting the first one in the drop-down re-enters
   * `change_directory`: it becomes current and the loaded files are
   * cleared (its rescan is a later step). With no directory, the loaded
   * files stay and the current directory is kept.
   */
  function LoadIndex(s: AppState, stored: Option<Snapshot>): (r: AppState)
    ensures stored == None ==> r == s
    ensures stored.Some? ==>
      && r.directories == stored.value.directories
      && r.lastModifiedTime == stored.value.lastModifiedTime
      && r.persisted == stored
    ensures stored.Some? && stored.value.directories != [] ==>
      r.current == Some(stored.value.directories[0]) && r.files == {}
    ensures stored.Some? && stored.value.directories == [] ==>
      r.current == s.current && r.files == stored.value.files && InSync(r)
  {
    match stored
    case None => s
    case Some(snap) =>
      var loaded := AppState(snap.directories, s.current, snap.files, snap.lastModifiedTime, stored);
      if snap.directories != [] then ChangeDirectory(loaded.(current := Some(snap.directories[0])), 0)
      else loaded
  }

  /** Loading what was saved restores the directories and the time. The
      files come back only when no directory is listed; otherwise they are
      cleared for the rescan of the first directory, which becomes
      current. */
  lemma SaveThenLoad(s: AppState, t: AppState)
    ensures var r := LoadIndex(t, Save(s).persisted);
      && r.directories == s.directories && r.lastModifiedTime == s.lastModifiedTime
      && (s.directories == [] ==> r.files == s.files && InSync(r))
      && (s.directories != [] ==> r.files == {} && r.current == Some(s.directories[0]))
  {
  }

  /** Adding a directory keeps the list valid. */
  lemma AddDirectoryKeepsListValid(s: AppState, d: Path)
    requires ValidDirectoryList(s.directories)
    ensures AddDirectory(s, d).Success? ==> ValidDirectoryList(AddDirectory(s, d).value.directories)
  {
  }

  /** Deleting a directory keeps the list valid, and keeps every other
      entry. */
  lemma DeleteDirectoryKeepsListValid(s: AppState, index: int, confirmed: bool)
    requires ValidDirectoryList(s.directories)
    ensures var r := DeleteDirectory(s, index, confirmed);
      r.Success? ==>
        && ValidDirectoryList(r.value.directories)
        && Elements(r.value.directories) == Elements(s.directories) - {s.directories[index]}
  {
    var r := DeleteDirectory(s, index, confirmed);
    if r.Success? {
      var xs, ys := s.directories, r.value.directories;
      forall x | x in Elements(xs) - {xs[index]}
        ensures x in ys
      {
        var j :| 0 <= j < |xs| && xs[j] == x;
        if j < index {
          assert ys[j] == x;
        } else {
          assert ys[j - 1] == x;
        }
      }
    }
  }

  /** Deleting a newly added directory right away restores the list; the
      previously last directory becomes current, if there is one. */
  lemma AddThenDelete(s: AppState, d: Path)
    requires AddDirectory(s, d).Success?
    ensures var r := DeleteDirectory(AddDirectory(s, d).value, |s.directories|, true);
      && r.Success? && r.value.directories == s.directories && r.value.files == {}
      && (s.directories == [] ==> r.value.current == None)
      && (s.directories != [] ==> r.value.current == Some(s.directories[|s.directories| - 1]))
  {
    var added := AddDirectory(s, d).value;
    assert RemoveAt(added.directories, |s.directories|) == s.directories;
  }

  /** The duplicate check compares raw strings, so the same directory
      written with the other separator can be listed twice. */
  lemma DuplicateCheckIsRaw()
    ensures AddDirectory(Initial, "D:\\Data").Success?
    ensures AddDirectory(AddDirectory(Initial, "D:\\Data").value, "D:/Data").Success?
  {
    assert AbsPath("D:\\Data") == "D:\\Data";
    var s := AddDirectory(Initial, "D:\\Data").value;
    assert AbsPath("D:/Data") == "D:\\Data";
    assert "D:/Data" != "D:\\Data";
    assert s.directories == ["D:\\Data"];
  }

  /** The protected check compares after `abspath`, so a protected
      directory written with forward slashes is refused as well. */
  lemma ProtectedCheckIsNormalised()
    ensures AddDirectory(Initial, "C:/Windows") == Failure(ProtectedDirectory)
  {
    assert AbsPath("C:/Windows") == "C:\\Windows";
  }

  /** A subdirectory of a protected directory is not protected: only the
      listed directories themselves are refused. */
  lemma ProtectedCheckIsExact()
    ensures AddDirectory(Initial, "C:\\Windows\\Fonts").Success?
  {
    assert AbsPath("C:\\Windows\\Fonts") == "C:\\Windows\\Fonts";
  }

  /** A scan that keeps no file clears the shown files but does not save,
      so the index file keeps the files of the earlier index. */
  lemma EmptyScanLeavesIndexStale(s: AppState, walk: Walk)
    requires s.current.Some? && s.current != Some("")
    requires InSync(s) && s.files != {}
    requires KeptFiles(Exclusions, walk) == []
    ensures IndexFiles(s, walk).files == {}
    ensures !InSync(IndexFiles(s, walk))
  {
    assert IndexFiles(s, walk).persisted == s.persisted;
  }
}
