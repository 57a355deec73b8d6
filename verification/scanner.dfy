/**
 * The directory scan (`index_files.scan_folder`) as a pure computation over
 * a walk that has already been listed: which files it keeps, and which
 * progress and completion signals it emits.
 */
module Scanner {
  import opened Paths
  import opened Seqs

  /** Directory prefixes whose subtrees the scan skips. This set is smaller
      than, and differently shaped from, the set `add_directory` refuses. */
  const ScanExcludedDirectories: set<string> :=
    {"C:\\Windows", "C:\\Program Files", "C:\\Program Files (x86)", "Z:\\"}

  /** Extensions (lower-case, with the dot) of files the scan never keeps. */
  const ExcludedFileTypes: set<string> :=
    {".ini", ".tmp", ".bak", ".log", ".sys", ".dll", ".reg", ".cab", ".msi",
     ".drv", ".inf", ".db", ".ink", ".exe", ".scr"}

  /** The exclusion rules a scan applies: directory prefixes whose subtrees
      it skips, and file extensions it never keeps. */
  datatype ScanPolicy = ScanPolicy(prunedPrefixes: set<string>, excludedTypes: set<string>)

  /** The rules `scan_folder` compiles in. */
  const Exclusions: ScanPolicy := ScanPolicy(ScanExcludedDirectories, ExcludedFileTypes)

  /** One step of `os.walk`: a directory and the names of the files in it. */
  datatype WalkEntry = WalkEntry(root: Path, fileNames: seq<string>)

  type Walk = seq<WalkEntry>

  /** A directory is skipped when its absolute path starts, as a plain
      string, with an excluded prefix. */
  predicate IsPrunedRoot(policy: ScanPolicy, root: Path) {
    exists ex :: ex in policy.prunedPrefixes && StartsWith(AbsPath(root), ex)
  }

  /** A directory below a skipped one is skipped too: its absolute path
      starts with the same prefix. So the scan keeps nothing from a pruned
      subtree, although `os.walk` still descends into it. */
  lemma PrunedSubtree(policy: ScanPolicy, root: Path, name: string)
    requires IsPrunedRoot(policy, root)
    ensures IsPrunedRoot(policy, Join(root, name))
  {
    var ex :| ex in policy.prunedPrefixes && StartsWith(AbsPath(root), ex);
    var sub := Join(root, name);
    JoinShape(root, name);
    AbsPathKeepsPrefix(root, sub);
    assert AbsPath(sub)[..|ex|] == AbsPath(root)[..|ex|];
  }

  /** A file is skipped when its lower-cased extension is excluded. */
  predicate IsExcludedFile(policy: ScanPolicy, path: Path) {
    Lower(Extension(path)) in policy.excludedTypes
  }

  /** A listed file is skipped exactly when the lower-cased text from the
      last dot of its name is an excluded type, provided some character
      before that dot is not a dot. */
  lemma ExcludedFileByName(policy: ScanPolicy, root: Path, name: string, d: nat, j: nat)
    requires SepFree(name)
    requires d < |name| && IsDot(name[d])
    requires forall k :: d < k < |name| ==> !IsDot(name[k])
    requires j < d && !IsDot(name[j])
    ensures IsExcludedFile(policy, Join(root, name)) <==> Lower(name[d..]) in policy.excludedTypes
  {
    ExtensionOfJoin(root, name);
    NameExtensionFound(name, d, j);
  }

  /** The path of one listed file, unless its extension is excluded. */
  function KeptName(policy: ScanPolicy, root: Path, name: string): seq<Path> {
    var p := Join(root, name);
    if IsExcludedFile(policy, p) then [] else [p]
  }

  /** The paths kept from one directory's file names, in order. */
  function KeptNames(policy: ScanPolicy, root: Path, names: seq<string>): seq<Path> {
    Gather(name => KeptName(policy, root, name), names)
  }

  /** The kept files of one walked directory. */
  function KeptOf(policy: ScanPolicy, e: WalkEntry): seq<Path> {
    if IsPrunedRoot(policy, e.root) then [] else KeptNames(policy, e.root, e.fileNames)
  }

  /** Reference definition of the scan's file list: each walked directory's
      kept files, in walk order. */
  function KeptFiles(policy: ScanPolicy, walk: Walk): seq<Path> {
    if walk == [] then [] else KeptOf(policy, walk[0]) + KeptFiles(policy, walk[1..])
  }

  /** A path the scan should keep: some walked directory outside every
      excluded prefix lists a file of that path whose extension is not
      excluded. */
  ghost predicate Eligible(policy: ScanPolicy, walk: Walk, p: Path) {
    exists i, j :: 0 <= i < |walk| && 0 <= j < |walk[i].fileNames| &&
      p == Join(walk[i].root, walk[i].fileNames[j]) &&
      !IsPrunedRoot(policy, walk[i].root) && !IsExcludedFile(policy, p)
  }

  /** `p` is the path of one of the directory's listed files. */
  ghost predicate ListedIn(e: WalkEntry, p: Path) {
    exists j :: 0 <= j < |e.fileNames| && p == Join(e.root, e.fileNames[j])
  }

  lemma KeptNameMembership(policy: ScanPolicy, root: Path, name: string, p: Path)
    ensures p in KeptName(policy, root, name) <==> p == Join(root, name) && !IsExcludedFile(policy, p)
  {
    var q := Join(root, name);
    if IsExcludedFile(policy, q) {
      assert KeptName(policy, root, name) == [];
    } else {
      assert KeptName(policy, root, name) == [q];
    }
  }

  /** A file listed in a directory is its first listed file or one listed
      after it. */
  lemma ListedInCons(root: Path, names: seq<string>, p: Path)
    requires names != []
    ensures ListedIn(WalkEntry(root, names), p) <==>
      p == Join(root, names[0]) || ListedIn(WalkEntry(root, names[1..]), p)
  {
    var rest := names[1..];
    if ListedIn(WalkEntry(root, names), p) {
      var j :| 0 <= j < |names| && p == Join(root, names[j]);
      if 0 < j {
        assert p == Join(root, rest[j - 1]);
      }
    }
    if ListedIn(WalkEntry(root, rest), p) {
      var j :| 0 <= j < |rest| && p == Join(root, rest[j]);
      assert p == Join(root, names[j + 1]);
    }
  }

  /** A directory's kept files are exactly its listed files whose
      extension is not excluded. */
  lemma {:induction false} KeptNamesMembership(policy: ScanPolicy, root: Path, names: seq<string>, p: Path)
    ensures p in KeptNames(policy, root, names) <==> !IsExcludedFile(policy, p) && ListedIn(WalkEntry(root, names), p)
    decreases |names|
  {
    if names != [] {
      KeptNamesMembership(policy, root, names[1..], p);
      KeptNameMembership(policy, root, names[0], p);
      ListedInCons(root, names, p);
    }
  }

  /** Eligibility in a walk splits into being admitted from its first
      directory or eligibility in the rest. */
  lemma EligibleCons(policy: ScanPolicy, walk: Walk, p: Path)
    requires walk != []
    ensures Eligible(policy, walk, p) <==>
      (!IsPrunedRoot(policy, walk[0].root) && !IsExcludedFile(policy, p) && ListedIn(walk[0], p)) ||
      Eligible(policy, walk[1..], p)
  {
    var rest := walk[1..];
    if Eligible(policy, walk, p) {
      var i, j :| 0 <= i < |walk| && 0 <= j < |walk[i].fileNames| &&
        p == Join(walk[i].root, walk[i].fileNames[j]) &&
        !IsPrunedRoot(policy, walk[i].root) && !IsExcludedFile(policy, p);
      if 0 < i {
        assert rest[i - 1] == walk[i];
      }
    }
    if Eligible(policy, rest, p) {
      var i, j :| 0 <= i < |rest| && 0 <= j < |rest[i].fileNames| &&
        p == Join(rest[i].root, rest[i].fileNames[j]) &&
        !IsPrunedRoot(policy, rest[i].root) && !IsExcludedFile(policy, p);
      assert walk[i + 1] == rest[i];
    }
  }

  /** Every file the scan keeps is eligible, and every eligible file is
      kept. */
  lemma {:induction false} KeptFilesAreEligible(policy: ScanPolicy, walk: Walk, p: Path)
    ensures p in KeptFiles(policy, walk) <==> Eligible(policy, walk, p)
    decreases |walk|
  {
    if walk != [] {
      KeptFilesAreEligible(policy, walk[1..], p);
      KeptNamesMembership(policy, walk[0].root, walk[0].fileNames, p);
      EligibleCons(policy, walk, p);
    }
  }

  /** The scan keeps files in walk order: scanning two consecutive parts of
      a walk keeps the first part's files, then the second's. */
  lemma {:induction false} KeptFilesAppend(policy: ScanPolicy, a: Walk, b: Walk)
    ensures KeptFiles(policy, a + b) == KeptFiles(policy, a) + KeptFiles(policy, b)
    decreases |a|
  {
    if a == [] {
      assert a + b == b;
    } else {
      assert (a + b)[1..] == a[1..] + b;
      assert (a + b)[0] == a[0];
      KeptFilesAppend(policy, a[1..], b);
      var x, y, z := KeptOf(policy, a[0]), KeptFiles(policy, a[1..]), KeptFiles(policy, b);
      assert KeptFiles(policy, a + b) == x + (y + z);
      assert x + (y + z) == (x + y) + z;
    }
  }

  /** Every directory of the walk lies inside `base`, and file names carry
      no separator: what `os.walk(base)` reports. */
  ghost predicate WalkWithin(base: Path, walk: Walk) {
    forall i :: 0 <= i < |walk| ==>
      IsSafePath(base, walk[i].root) &&
      forall j :: 0 <= j < |walk[i].fileNames| ==> SepFree(walk[i].fileNames[j])
  }

  /** A scan of a walk under `base` keeps only paths inside `base`. */
  lemma KeptFilesWithin(policy: ScanPolicy, base: Path, walk: Walk, p: Path)
    requires WalkWithin(base, walk)
    requires p in KeptFiles(policy, walk)
    ensures IsSafePath(base, p)
  {
    KeptFilesAreEligible(policy, walk, p);
    var i, j :| 0 <= i < |walk| && 0 <= j < |walk[i].fileNames| &&
      p == Join(walk[i].root, walk[i].fileNames[j]);
    JoinStaysInside(base, walk[i].root, walk[i].fileNames[j]);
  }

  /** The exclusion is a raw string prefix, not a component prefix: a
      sibling directory whose name merely begins like an excluded one is
      skipped as well, although it does not lie inside that directory. */
  lemma PrunedByStringPrefix()
    ensures IsPrunedRoot(Exclusions, "C:/WindowsApps")
    ensures !IsSafePath("C:\\Windows", "C:/WindowsApps")
  {
    WindowsAppsStartsLikeWindows();
    WindowsAppsIsOutsideWindows();
  }

  lemma WindowsAppsStartsLikeWindows()
    ensures IsPrunedRoot(Exclusions, "C:/WindowsApps")
  {
    var abs := AbsPath("C:/WindowsApps");
    assert abs == "C:\\WindowsApps";
    assert abs[..|"C:\\Windows"|] == "C:\\Windows";
    assert "C:\\Windows" in ScanExcludedDirectories;
  }

  lemma WindowsAppsIsOutsideWindows()
    ensures !IsSafePath("C:\\Windows", "C:/WindowsApps")
  {
    CanonOfWindows();
    KeyOfDriveChild("C:\\Windows", "c:", "windows");
    CanonOfWindowsApps();
    KeyOfDriveChild("C:/WindowsApps", "c:", "windowsapps");
    assert "windows" != "windowsapps";
  }

  lemma CanonOfWindows()
    ensures Canon("C:\\Windows") == Join("c:", "windows")
  {
    assert Join("c:", "windows") == "c:\\windows";
  }

  lemma CanonOfWindowsApps()
    ensures Canon("C:/WindowsApps") == Join("c:", "windowsapps")
  {
    assert Join("c:", "windowsapps") == "c:\\windowsapps";
  }

  /** The progress the scan reports after indexing the `i`-th of `total`
      files, in whole percent. */
  function Percent(i: nat, total: nat): (p: nat)
    requires 0 < total
    ensures p * total <= i * 100 < (p + 1) * total
  {
    i * 100 / total
  }

  lemma DivMonotone(a: nat, b: nat, d: nat)
    requires 0 < d && a <= b
    ensures a / d <= b / d
  {
    var qa, qb := a / d, b / d;
    assert qa * d <= a;
    assert b < qb * d + d;
    if qa > qb {
      MulMonotone(qb + 1, qa, d);
    }
  }

  lemma MulMonotone(x: nat, y: nat, d: nat)
    requires x <= y
    ensures x * d <= y * d
  {
  }

  lemma PercentMonotone(i: nat, j: nat, total: nat)
    requires 0 < total && i <= j
    ensures Percent(i, total) <= Percent(j, total)
  {
    DivMonotone(i * 100, j * 100, total);
  }

  lemma PercentBounds(i: nat, total: nat)
    requires 0 < total && i <= total
    ensures Percent(i, total) <= 100
    ensures Percent(i, total) == 100 <==> i == total
  {
    var q := i * 100 / total;
    assert q * total <= i * 100 < q * total + total;
    MulMonotone(i, total, 100);
    if i < total {
      MulMonotone(i + 1, total, 100);
      if 100 <= q {
        MulMonotone(100, q, total);
      }
    } else {
      if q < 100 {
        MulMonotone(q + 1, 100, total);
      }
      if 100 < q {
        MulMonotone(101, q, total);
      }
    }
  }

  /** What the scan emits: a progress percentage or the completion
      notice. */
  datatype Signal = Progress(percent: nat) | IndexingComplete

  /**
   * The progress values emitted while `total` files are indexed: one value
   * each time the whole percentage rises, so the values strictly increase,
   * lie in 1..100, end at 100, and are exactly the positive percentages
   * some file reaches.
   */
  method EmitProgress(total: nat) returns (values: seq<nat>)
    requires 0 < total
    ensures forall k, l :: 0 <= k < l < |values| ==> values[k] < values[l]
    ensures forall k :: 0 <= k < |values| ==> 1 <= values[k] <= 100
    ensures |values| > 0 && values[|values| - 1] == 100
    ensures forall v :: v in values <==> 0 < v && exists i :: 1 <= i <= total && Percent(i, total) == v
  {
    var current := 0;
    values := [];
    var i := 1;
    while i <= total
      invariant 1 <= i <= total + 1
      invariant current == Percent(i - 1, total)
      invariant forall k, l :: 0 <= k < l < |values| ==> values[k] < values[l]
      invariant forall k :: 0 <= k < |values| ==> 1 <= values[k] <= current
      invariant 0 < current ==> |values| > 0 && values[|values| - 1] == current
      invariant forall v :: v in values <==> 0 < v && exists j :: 1 <= j < i && Percent(j, total) == v
    {
      var next := Percent(i, total);
      PercentMonotone(i - 1, i, total);
      if next > current {
        current := next;
        values := values + [current];
      }
      forall v | 0 < v && exists j :: 1 <= j < i + 1 && Percent(j, total) == v
        ensures v in values
      {
        var j :| 1 <= j < i + 1 && Percent(j, total) == v;
        if j == i {
          assert v == current;
        } else {
          assert v in values;
        }
      }
      i := i + 1;
    }
    PercentBounds(total, total);
  }

  lemma KeptNamesSnoc(policy: ScanPolicy, root: Path, names: seq<string>, j: nat)
    requires j < |names|
    ensures KeptNames(policy, root, names[..j + 1]) == KeptNames(policy, root, names[..j]) + KeptName(policy, root, names[j])
  {
    GatherSnoc(name => KeptName(policy, root, name), names, j);
  }

  /** The files kept from one directory's listing, in listing order. */
  method CollectNames(policy: ScanPolicy, root: Path, names: seq<string>) returns (kept: seq<Path>)
    ensures kept == KeptNames(policy, root, names)
  {
    kept := [];
    var j := 0;
    while j < |names|
      invariant 0 <= j <= |names|
      invariant kept == KeptNames(policy, root, names[..j])
    {
      var fullPath := Join(root, names[j]);
      KeptNamesSnoc(policy, root, names, j);
      if !IsExcludedFile(policy, fullPath) {
        kept := kept + [fullPath];
      }
      j := j + 1;
    }
    assert names[..j] == names;
  }

  lemma KeptFilesSnoc(policy: ScanPolicy, walk: Walk, i: nat)
    requires i < |walk|
    ensures KeptFiles(policy, walk[..i + 1]) == KeptFiles(policy, walk[..i]) + KeptOf(policy, walk[i])
  {
    assert walk[..i + 1] == walk[..i] + [walk[i]];
    KeptFilesAppend(policy, walk[..i], [walk[i]]);
    assert [walk[i]][1..] == [];
    assert KeptFiles(policy, [walk[i]]) == KeptOf(policy, walk[i]) + [];
  }

  /** The files kept from one walked directory: none when it is pruned. */
  method CollectEntry(policy: ScanPolicy, entry: WalkEntry) returns (kept: seq<Path>)
    ensures kept == KeptOf(policy, entry)
  {
    kept := [];
    if !IsPrunedRoot(policy, entry.root) {
      kept := CollectNames(policy, entry.root, entry.fileNames);
    }
  }

  /** The list of files the scan collects, walking directories in order. */
  method CollectFiles(policy: ScanPolicy, walk: Walk) returns (files: seq<Path>)
    ensures files == KeptFiles(policy, walk)
  {
    files := [];
    var i := 0;
    while i < |walk|
      invariant 0 <= i <= |walk|
      invariant files == KeptFiles(policy, walk[..i])
    {
      var kept := CollectEntry(policy, walk[i]);
      files := files + kept;
      KeptFilesSnoc(policy, walk, i);
      i := i + 1;
    }
    assert walk[..i] == walk;
  }

  /** One progress signal per value, in order. */
  function ProgressSignals(values: seq<nat>): (signals: seq<Signal>)
    ensures |signals| == |values|
    ensures forall k :: 0 <= k < |values| ==> signals[k] == Progress(values[k])
  {
    if values == [] then [] else [Progress(values[0])] + ProgressSignals(values[1..])
  }

  /**
   * `scan_folder`: collect the files, then report progress. With no file
   * kept, it reports 100 and completion at once. Otherwise the progress
   * reported while indexing strictly increases and reaches 100, and 100 is
   * reported once more before completion.
   */
  method ScanFolder(walk: Walk) returns (files: seq<Path>, signals: seq<Signal>)
    ensures files == KeptFiles(Exclusions, walk)
    ensures |signals| >= 2
    ensures signals[|signals| - 1] == IndexingComplete
    ensures signals[|signals| - 2] == Progress(100)
    ensures forall k :: 0 <= k < |signals| - 1 ==> signals[k].Progress? && 1 <= signals[k].percent <= 100
    ensures forall k, l :: 0 <= k < l < |signals| - 1 ==> signals[k].percent <= signals[l].percent
    ensures |files| == 0 ==> signals == [Progress(100), IndexingComplete]
    ensures |files| > 0 ==> |signals| >= 3 && signals[|signals| - 3] == Progress(100)
    ensures |files| > 0 ==> forall k, l :: 0 <= k < l < |signals| - 2 ==> signals[k].percent < signals[l].percent
  {
    files := CollectFiles(Exclusions, walk);
    signals := ReportProgress(|files|);
  }

  /** The signals emitted after `total` files were collected. */
  method ReportProgress(total: nat) returns (signals: seq<Signal>)
    ensures |signals| >= 2
    ensures signals[|signals| - 1] == IndexingComplete
    ensures signals[|signals| - 2] == Progress(100)
    ensures forall k :: 0 <= k < |signals| - 1 ==> signals[k].Progress? && 1 <= signals[k].percent <= 100
    ensures forall k, l :: 0 <= k < l < |signals| - 1 ==> signals[k].percent <= signals[l].percent
    ensures total == 0 ==> signals == [Progress(100), IndexingComplete]
    ensures total > 0 ==> |signals| >= 3 && signals[|signals| - 3] == Progress(100)
    ensures total > 0 ==> forall k, l :: 0 <= k < l < |signals| - 2 ==> signals[k].percent < signals[l].percent
  {
    if total == 0 {
      signals := [Progress(100), IndexingComplete];
      return;
    }
    var values := EmitProgress(total);
    var inLoop := ProgressSignals(values);
    signals := inLoop + [Progress(100), IndexingComplete];
  }
}
