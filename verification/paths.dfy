/**
 * Windows path strings as the indexer handles them: the character maps
 * behind `os.path.abspath` and `str.lower`, `os.path.join` of a walked
 * directory with a file name, `os.path.splitext`, and the containment
 * check `is_safe_path`, which compares paths component by component the
 * way `os.path.commonpath` does.
 */
module Paths {

  type Path = string

  /** The separator Windows paths are written with. */
  const Sep: char := '\\'

  /** Both separators Windows accepts (ntpath's `sep` and `altsep`). */
  const Seps: set<char> := {'\\', '/'}

  /** The character `os.path.splitext` splits at. */
  const Dots: set<char> := {'.'}

  predicate IsSep(c: char) { c in Seps }

  predicate IsDot(c: char) { c in Dots }

  predicate SepFree(s: string) { forall i :: 0 <= i < |s| ==> !IsSep(s[i]) }

  /** Python's `str.startswith`. */
  predicate StartsWith(s: string, prefix: string) {
    |prefix| <= |s| && s[..|prefix|] == prefix
  }

  /** Python's `str.endswith`. */
  predicate EndsWith(s: string, suffix: string) {
    |suffix| <= |s| && s[|s| - |suffix|..] == suffix
  }

  /** Applies a character map to every character of a string. */
  function MapChars(s: string, f: char -> char): (r: string)
    ensures |r| == |s|
    ensures forall i :: 0 <= i < |s| ==> r[i] == f(s[i])
  {
    seq(|s|, i requires 0 <= i < |s| => f(s[i]))
  }

  lemma MapCharsAppend(a: string, b: string, f: char -> char)
    ensures MapChars(a + b, f) == MapChars(a, f) + MapChars(b, f)
  {
    assert forall i :: 0 <= i < |a + b| ==> MapChars(a + b, f)[i] == (MapChars(a, f) + MapChars(b, f))[i];
  }

  /** The ASCII part of `str.lower`. */
  function LowerChar(c: char): char {
    if 'A' <= c <= 'Z' then (c as int + 32) as char else c
  }

  function Lower(s: string): string { MapChars(s, LowerChar) }

  function SlashChar(c: char): char { if c == '/' then Sep else c }

  /**
   * `os.path.abspath` on the absolute paths the folder dialog returns:
   * forward slashes become backslashes. Such paths contain no `.` or `..`
   * component and no repeated separator, so this is all the normalisation
   * does to them.
   */
  function AbsPath(p: Path): Path { MapChars(p, SlashChar) }

  /** Normalising keeps the length, turns every separator into `\` and
      keeps every other character. */
  lemma AbsPathShape(p: Path)
    ensures |AbsPath(p)| == |p|
    ensures forall i :: 0 <= i < |p| ==>
      (IsSep(p[i]) ==> AbsPath(p)[i] == Sep) && (!IsSep(p[i]) ==> AbsPath(p)[i] == p[i])
  {
  }

  /** Normalising twice changes nothing more. */
  lemma AbsPathIdempotent(p: Path)
    ensures AbsPath(AbsPath(p)) == AbsPath(p)
  {
    assert forall i :: 0 <= i < |p| ==> AbsPath(AbsPath(p))[i] == AbsPath(p)[i];
  }

  /** A string prefix survives normalisation. */
  lemma AbsPathKeepsPrefix(p: Path, q: Path)
    requires StartsWith(q, p)
    ensures StartsWith(AbsPath(q), AbsPath(p))
  {
    assert forall i :: 0 <= i < |p| ==> q[i] == p[i];
    assert forall i :: 0 <= i < |p| ==> AbsPath(q)[i] == AbsPath(p)[i];
  }

  /** What `os.path.commonpath` compares a character as: after `abspath`,
      with `/` replaced by `\` and lower-cased. */
  function CanonChar(c: char): char { LowerChar(SlashChar(c)) }

  function Canon(p: Path): Path { MapChars(p, CanonChar) }

  lemma CanonCharKeepsSeparators(c: char)
    ensures IsSep(CanonChar(c)) <==> IsSep(c)
  {
  }

  /** Index of the last character satisfying `f`, or -1 when there is none
      (`str.rfind`). */
  function LastWhere(s: string, f: set<char>): (k: int)
    ensures -1 <= k < |s|
    ensures 0 <= k ==> s[k] in f
    ensures forall j :: k < j < |s| ==> s[j] !in f
  {
    if |s| == 0 then -1
    else if s[|s| - 1] in f then |s| - 1
    else LastWhere(s[..|s| - 1], f)
  }

  /** `LastWhere` is determined by its contract. */
  lemma LastWhereUnique(s: string, f: set<char>, k: int)
    requires -1 <= k < |s|
    requires 0 <= k ==> s[k] in f
    requires forall j :: k < j < |s| ==> s[j] !in f
    ensures LastWhere(s, f) == k
  {
  }

  /** A piece between separators is a component unless it is empty or `.`
      (commonpath drops those). */
  function Keep(piece: string): seq<string> {
    if piece == "" || piece == "." then [] else [piece]
  }

  /** The components of a path, in order, as commonpath splits it. */
  function Components(p: Path): (cs: seq<string>)
    ensures forall i :: 0 <= i < |cs| ==> cs[i] != "" && cs[i] != "." && SepFree(cs[i])
    decreases |p|
  {
    var k := LastWhere(p, Seps);
    if k < 0 then Keep(p) else Components(p[..k]) + Keep(p[k + 1..])
  }

  /** The components `is_safe_path` compares. */
  function Key(p: Path): seq<string> { Components(Canon(p)) }

  /** `os.path.join(root, name)` for a directory reported by a walk and one
      of its file names: a separator is inserted unless the root is empty
      or already ends with one. */
  function Join(root: Path, name: string): Path {
    if |root| == 0 || IsSep(root[|root| - 1]) then root + name else root + [Sep] + name
  }

  /** The joined path starts with the directory and ends with the name,
      with one separator between them unless the directory is empty or
      already ends with one. */
  lemma JoinShape(root: Path, name: string)
    ensures var r := Join(root, name);
      && StartsWith(r, root) && EndsWith(r, name)
      && (|r| == |root| + |name| <==> |root| == 0 || IsSep(root[|root| - 1]))
      && (|r| != |root| + |name| ==> |r| == |root| + 1 + |name| && r[|root|] == Sep)
  {
  }

  lemma ComponentsOfJoin(root: Path, name: string)
    requires SepFree(name)
    ensures Components(Join(root, name)) == Components(root) + Keep(name)
  {
    if |root| == 0 {
      LastWhereUnique(name, Seps, -1);
      assert Join(root, name) == name;
    } else if IsSep(root[|root| - 1]) {
      ComponentsAfterSeparator(root, name);
    } else {
      ComponentsAfterInsertedSeparator(root, name);
    }
  }

  lemma ComponentsAfterSeparator(root: Path, name: string)
    requires SepFree(name) && |root| > 0 && IsSep(root[|root| - 1])
    ensures Components(root + name) == Components(root) + Keep(name)
  {
    var p := root + name;
    var k := |root| - 1;
    assert forall j :: k < j < |p| ==> p[j] == name[j - |root|];
    LastWhereUnique(p, Seps, k);
    LastWhereUnique(root, Seps, k);
    assert p[..k] == root[..k];
    assert p[k + 1..] == name;
    assert root[k + 1..] == "";
  }

  lemma ComponentsAfterInsertedSeparator(root: Path, name: string)
    requires SepFree(name) && |root| > 0 && !IsSep(root[|root| - 1])
    ensures Components(root + [Sep] + name) == Components(root) + Keep(name)
  {
    var p := root + [Sep] + name;
    var k := |root|;
    assert forall j :: k < j < |p| ==> p[j] == name[j - k - 1];
    LastWhereUnique(p, Seps, k);
    assert p[..k] == root;
    assert p[k + 1..] == name;
  }

  lemma CanonOfJoin(root: Path, name: string)
    ensures Canon(Join(root, name)) == Join(Canon(root), Canon(name))
  {
    if |root| > 0 {
      CanonCharKeepsSeparators(root[|root| - 1]);
    }
    if |root| == 0 || IsSep(root[|root| - 1]) {
      MapCharsAppend(root, name, CanonChar);
    } else {
      MapCharsAppend(root + [Sep], name, CanonChar);
      MapCharsAppend(root, [Sep], CanonChar);
    }
  }

  /** The longest common prefix of two component lists. */
  function CommonPrefix(a: seq<string>, b: seq<string>): (c: seq<string>)
    ensures c <= a && c <= b
    ensures |c| == |a| || |c| == |b| || a[|c|] != b[|c|]
  {
    if |a| == 0 || |b| == 0 || a[0] != b[0] then []
    else [a[0]] + CommonPrefix(a[1..], b[1..])
  }

  /**
   * `is_safe_path(base, target)`: the common path of `base` alone equals
   * the common path of `base` and `target`. On Windows, commonpath raises
   * for paths on different drives; the callers then drop the event, which
   * is what a false answer here leads to as well.
   */
  function IsSafePath(base: Path, target: Path): (r: bool)
    ensures r <==> Key(base) <= Key(target)
  {
    CommonPrefixOfPrefix(Key(base), Key(target));
    CommonPrefix(Key(base), Key(target)) == Key(base)
  }

  /** A list is its own common prefix with any list it is a prefix of. */
  lemma CommonPrefixOfPrefix(b: seq<string>, t: seq<string>)
    ensures CommonPrefix(b, t) == b <==> b <= t
  {
    var c := CommonPrefix(b, t);
    if b <= t {
      assert c == b[..|c|];
    }
  }

  lemma IsSafePathReflexive(p: Path)
    ensures IsSafePath(p, p)
  {
  }

  lemma IsSafePathTransitive(a: Path, b: Path, c: Path)
    requires IsSafePath(a, b) && IsSafePath(b, c)
    ensures IsSafePath(a, c)
  {
  }

  /** A file reported in a directory that lies inside `base` lies inside
      `base` too. */
  lemma JoinStaysInside(base: Path, root: Path, name: string)
    requires IsSafePath(base, root)
    requires SepFree(name)
    ensures IsSafePath(base, Join(root, name))
  {
    CanonOfJoin(root, name);
    forall i | 0 <= i < |name|
      ensures !IsSep(Canon(name)[i])
    {
      CanonCharKeepsSeparators(name[i]);
    }
    ComponentsOfJoin(Canon(root), Canon(name));
  }

  /** The key of a directory directly below a drive. */
  lemma KeyOfDriveChild(p: Path, drive: string, name: string)
    requires SepFree(drive) && drive != "" && drive != "."
    requires SepFree(name) && name != "" && name != "."
    requires Canon(p) == Join(drive, name)
    ensures Key(p) == [drive, name]
  {
    LastWhereUnique(drive, Seps, -1);
    ComponentsOfJoin(drive, name);
  }

  /** The file name part of a path: everything after the last separator. */
  function BaseName(p: Path): string {
    p[LastWhere(p, Seps) + 1..]
  }

  /** The base name is a separator-free end of the path, preceded by a
      separator unless it is the whole path. */
  lemma BaseNameShape(p: Path)
    ensures SepFree(BaseName(p))
    ensures EndsWith(p, BaseName(p))
    ensures |BaseName(p)| < |p| ==> IsSep(p[|p| - |BaseName(p)| - 1])
  {
  }

  /**
   * The extension `os.path.splitext` splits off a file name: from its last
   * dot, provided some character before that dot is not a dot (so a
   * leading-dot name such as `.profile` has none).
   */
  function NameExtension(name: string): string {
    var d := LastWhere(name, Dots);
    if 0 <= d && exists j :: 0 <= j < d && !IsDot(name[j]) then name[d..] else ""
  }

  /** An extension is empty, or it is a dot followed by dot-free text that
      ends the name, and the name has a character other than a dot before
      it. */
  lemma NameExtensionShape(name: string)
    ensures var e := NameExtension(name);
      && (e == "" || (IsDot(e[0]) && EndsWith(name, e)))
      && (forall j :: 1 <= j < |e| ==> !IsDot(e[j]))
      && (e != "" ==> exists j :: 0 <= j < |name| - |e| && !IsDot(name[j]))
  {
  }

  /** The converse: a dot with no dot after it and a character other than a
      dot before it starts the extension. With `NameExtensionShape`, the
      extension is empty exactly when there is no such dot. */
  lemma NameExtensionFound(name: string, d: nat, j: nat)
    requires d < |name| && IsDot(name[d])
    requires forall k :: d < k < |name| ==> !IsDot(name[k])
    requires j < d && !IsDot(name[j])
    ensures NameExtension(name) == name[d..]
  {
    LastWhereUnique(name, Dots, d);
  }

  /** `os.path.splitext(p)[1]`: the extension of the path's file name. */
  function Extension(p: Path): string { NameExtension(BaseName(p)) }

  /** A walked file's name and extension are those of the name the walk
      reported. */
  lemma ExtensionOfJoin(root: Path, name: string)
    requires SepFree(name)
    ensures BaseName(Join(root, name)) == name
    ensures Extension(Join(root, name)) == Extension(name)
  {
    var p := Join(root, name);
    LastWhereUnique(name, Seps, -1);
    assert BaseName(name) == name;
    if |root| == 0 {
    } else if IsSep(root[|root| - 1]) {
      LastWhereUnique(p, Seps, |root| - 1);
      assert p[|root|..] == name;
    } else {
      LastWhereUnique(p, Seps, |root|);
      assert p[|root| + 1..] == name;
    }
  }
}
