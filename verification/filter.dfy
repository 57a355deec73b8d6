/**
 * The result-list filter of `apply_filter` and `filter_files`: a file is
 * shown when its lower-cased base name contains the search text and ends
 * with the extension chosen in each of the two drop-downs, whose first
 * entry means "any".
 */
module Filter {
  import opened Paths
  import opened Seqs

  /** The first entry of the file-type drop-down: no type restriction. */
  const AnyCommonType: string := "Common Files Filter"

  /** The first entry of the developer/engineering drop-down: no
      restriction. */
  const AnyDevType: string := "Dev/Eng Files Filter"

  /** The characters `str.strip()` removes (those `str.isspace` accepts). */
  const Whitespace: set<char> :=
    {' ', '\t', '\n', '\r', '\U{0B}', '\U{0C}', '\U{1C}', '\U{1D}', '\U{1E}', '\U{1F}',
     '\U{85}', '\U{A0}', '\U{1680}', '\U{2000}', '\U{2001}', '\U{2002}', '\U{2003}',
     '\U{2004}', '\U{2005}', '\U{2006}', '\U{2007}', '\U{2008}', '\U{2009}', '\U{200A}',
     '\U{2028}', '\U{2029}', '\U{202F}', '\U{205F}', '\U{3000}'}

  /** How many whitespace characters the text starts with. */
  function LeadingCount(s: string): (n: nat)
    ensures n <= |s|
    ensures forall i :: 0 <= i < n ==> s[i] in Whitespace
    ensures n < |s| ==> s[n] !in Whitespace
  {
    if s != [] && s[0] in Whitespace then 1 + LeadingCount(s[1..]) else 0
  }

  /** How many whitespace characters the text ends with. */
  function TrailingCount(s: string): (n: nat)
    ensures n <= |s|
    ensures forall i :: |s| - n <= i < |s| ==> s[i] in Whitespace
    ensures n < |s| ==> s[|s| - n - 1] !in Whitespace
  {
    if s != [] && s[|s| - 1] in Whitespace then 1 + TrailingCount(s[..|s| - 1]) else 0
  }

  /** The text without its leading whitespace. */
  function TrimStart(s: string): string
  {
    s[LeadingCount(s)..]
  }

  /** The text without its trailing whitespace. */
  function TrimEnd(s: string): string
  {
    s[..|s| - TrailingCount(s)]
  }

  /** The leading whitespace is all that `TrimStart` removes: the rest is a
      suffix of the text that does not start with whitespace. */
  lemma TrimStartShape(s: string)
    ensures EndsWith(s, TrimStart(s))
    ensures forall i :: 0 <= i < |s| - |TrimStart(s)| ==> s[i] in Whitespace
    ensures TrimStart(s) != [] ==> TrimStart(s)[0] !in Whitespace
  {
  }

  /** The trailing whitespace is all that `TrimEnd` removes: the rest is a
      prefix of the text that does not end with whitespace. */
  lemma TrimEndShape(s: string)
    ensures StartsWith(s, TrimEnd(s))
    ensures forall i :: |TrimEnd(s)| <= i < |s| ==> s[i] in Whitespace
    ensures TrimEnd(s) != [] ==> TrimEnd(s)[|TrimEnd(s)| - 1] !in Whitespace
  {
  }

  /** `str.strip()`: the text between its leading and trailing
      whitespace. */
  function Strip(s: string): (r: string)
    ensures LeadingCount(s) + |r| <= |s| && r == s[LeadingCount(s)..LeadingCount(s) + |r|]
    ensures forall k :: 0 <= k < LeadingCount(s) ==> s[k] in Whitespace
    ensures forall k :: LeadingCount(s) + |r| <= k < |s| ==> s[k] in Whitespace
    ensures r != [] ==> r[0] !in Whitespace && r[|r| - 1] !in Whitespace
  {
    TrimEnd(TrimStart(s))
  }

  /** `LeadingCount` is determined by its contract. */
  lemma LeadingCountUnique(s: string, n: nat)
    requires n <= |s|
    requires forall i :: 0 <= i < n ==> s[i] in Whitespace
    requires n < |s| ==> s[n] !in Whitespace
    ensures LeadingCount(s) == n
  {
  }

  /** `TrailingCount` is determined by its contract. */
  lemma TrailingCountUnique(s: string, n: nat)
    requires n <= |s|
    requires forall i :: |s| - n <= i < |s| ==> s[i] in Whitespace
    requires n < |s| ==> s[|s| - n - 1] !in Whitespace
    ensures TrailingCount(s) == n
  {
  }

  /** Any text padded with a blank in front and a tab behind strips to
      what the text itself strips to. */
  lemma {:induction false} StripOfPadded(t: string)
    ensures Strip(" " + t + "\t") == Strip(t)
  {
    if LeadingCount(t) == |t| {
      PaddedBlank(t);
    } else {
      TrimStartOfPadded(t);
      TrimEndOfTab(TrimStart(t));
    }
  }

  /** The leading blank counts once more than the rest. */
  lemma LeadingCountOfPadded(t: string)
    ensures LeadingCount(" " + t + "\t") == 1 + LeadingCount(t + "\t")
  {
    DropHead(" ", t, "\t");
  }

  /** A tab behind the text adds to the leading whitespace only when all of
      the text is whitespace. */
  lemma LeadingCountOfTabbed(t: string)
    ensures LeadingCount(t + "\t") == if LeadingCount(t) < |t| then LeadingCount(t) else |t| + 1
  {
    var u := t + "\t";
    assert forall i :: 0 <= i < |t| ==> u[i] == t[i];
    assert u[|t|] == '\t';
    LeadingCountUnique(u, if LeadingCount(t) < |t| then LeadingCount(t) else |t| + 1);
  }

  /** Blank text stays blank when padded: both strip to nothing. */
  lemma PaddedBlank(t: string)
    requires LeadingCount(t) == |t|
    ensures TrimStart(" " + t + "\t") == [] && TrimStart(t) == []
  {
    LeadingCountOfPadded(t);
    LeadingCountOfTabbed(t);
  }

  /** A one-element head comes off a concatenation again. */
  lemma DropHead<T>(h: seq<T>, t: seq<T>, e: seq<T>)
    requires |h| == 1
    ensures (h + t + e)[1..] == t + e
  {
  }

  /** Slicing the front off a concatenation within its first part. */
  lemma SliceOfAppend<T>(a: seq<T>, b: seq<T>, n: nat)
    requires n <= |a|
    ensures (a + b)[n..] == a[n..] + b
  {
  }

  /** The text left after `k` leading whitespace characters, when that is
      how many there are. */
  lemma TrimStartFrom(s: string, k: nat)
    requires LeadingCount(s) == k
    ensures TrimStart(s) == s[k..]
  {
  }

  /** Slicing past a one-element head slices the rest. */
  lemma SliceAfterHead<T>(h: seq<T>, t: seq<T>, e: seq<T>, n: nat)
    requires |h| == 1 && n <= |t + e|
    ensures (h + t + e)[n + 1..] == (t + e)[n..]
  {
  }

  /** Text that is not blank keeps the tab when its leading whitespace,
      padding included, is trimmed. */
  lemma TrimStartOfPadded(t: string)
    requires LeadingCount(t) < |t|
    ensures TrimStart(" " + t + "\t") == TrimStart(t) + "\t"
  {
    var n := LeadingCount(t);
    LeadingCountOfPadded(t);
    LeadingCountOfTabbed(t);
    TrimStartFrom(" " + t + "\t", n + 1);
    TrimStartFrom(t, n);
    SliceAfterHead(" ", t, "\t", n);
    SliceOfAppend(t, "\t", n);
    assert TrimStart(" " + t + "\t") == t[n..] + "\t";
  }

  /** A trailing tab after text that starts with a non-whitespace character
      is trimmed with the rest of the trailing whitespace. */
  lemma TrimEndOfTab(y: string)
    requires y != [] && y[0] !in Whitespace
    ensures TrimEnd(y + "\t") == TrimEnd(y)
  {
    var m := TrailingCount(y);
    assert m < |y|;
    TrailingCountUnique(y + "\t", m + 1);
    assert (y + "\t")[..|y| - m] == y[..|y| - m];
  }

  /** `needle` occurs in `hay` at position `i`. */
  predicate OccursAt(hay: string, needle: string, i: int) {
    0 <= i && i + |needle| <= |hay| && hay[i..i + |needle|] == needle
  }

  /** Python's `needle in hay` on strings. */
  predicate Contains(hay: string, needle: string) {
    exists i :: 0 <= i <= |hay| && OccursAt(hay, needle, i)
  }

  /** The two drop-down selections and the search-bar text. */
  datatype Settings = Settings(commonType: string, devType: string, searchText: string)

  /** What the search bar is compared as: stripped, then lower-cased. */
  function Query(f: Settings): string {
    Lower(Strip(f.searchText))
  }

  /** Whether a file is listed: its lower-cased base name contains the
      query and satisfies both drop-downs. */
  predicate Matches(f: Settings, path: Path) {
    var name := Lower(BaseName(path));
    && Contains(name, Query(f))
    && (f.commonType == AnyCommonType || EndsWith(name, f.commonType))
    && (f.devType == AnyDevType || EndsWith(name, f.devType))
  }

  /** Reference definition of the list shown: the matching files, in the
      order of the snapshot. */
  function Shown(f: Settings, files: seq<Path>): seq<Path> {
    Select(p => Matches(f, p), files)
  }

  /** A file is listed exactly when it is in the snapshot and matches. */
  lemma ShownMembership(f: Settings, files: seq<Path>, p: Path)
    ensures p in Shown(f, files) <==> p in files && Matches(f, p)
  {
    SelectMembership(q => Matches(f, q), files, p);
  }

  /**
   * `apply_filter` over a snapshot of the indexed files: the list shows
   * exactly the matching files, in snapshot order.
   */
  method ApplyFilter(f: Settings, files: seq<Path>) returns (shown: seq<Path>)
    ensures shown == Shown(f, files)
    ensures forall p :: p in shown <==> p in files && Matches(f, p)
  {
    shown := [];
    var j := 0;
    while j < |files|
      invariant 0 <= j <= |files|
      invariant shown == Shown(f, files[..j])
    {
      SelectSnoc(p => Matches(f, p), files, j);
      if Matches(f, files[j]) {
        shown := shown + [files[j]];
      }
      j := j + 1;
    }
    assert files[..j] == files;
    forall p
      ensures p in shown <==> p in files && Matches(f, p)
    {
      ShownMembership(f, files, p);
    }
  }

  /** With both drop-downs on their first entry and a blank search bar,
      every file matches. */
  lemma DefaultsMatch(f: Settings, p: Path)
    requires f.commonType == AnyCommonType && f.devType == AnyDevType
    requires forall k :: 0 <= k < |f.searchText| ==> f.searchText[k] in Whitespace
    ensures Matches(f, p)
  {
    assert Strip(f.searchText) == [];
    assert OccursAt(Lower(BaseName(p)), Query(f), 0);
  }

  /** With both drop-downs on their first entry and a blank search bar,
      every file is listed, in snapshot order. */
  lemma {:induction false} DefaultsShowEverything(f: Settings, files: seq<Path>)
    requires f.commonType == AnyCommonType && f.devType == AnyDevType
    requires forall k :: 0 <= k < |f.searchText| ==> f.searchText[k] in Whitespace
    ensures Shown(f, files) == files
    decreases |files|
  {
    if files != [] {
      DefaultsMatch(f, files[0]);
      DefaultsShowEverything(f, files[1..]);
    }
  }

  /** The search text is compared stripped: a blank before it and a tab
      after it do not change whether a file matches. */
  lemma SurroundingWhitespaceIgnored(f: Settings, p: Path)
    ensures Matches(f.(searchText := " " + f.searchText + "\t"), p) == Matches(f, p)
  {
    StripOfPadded(f.searchText);
    assert Query(f.(searchText := " " + f.searchText + "\t")) == Query(f);
  }

  /** Lower-casing keeps whitespace and everything else apart. */
  lemma LowerKeepsWhitespace(c: char)
    ensures LowerChar(c) in Whitespace <==> c in Whitespace
  {
  }

  lemma LowerIdempotent(s: string)
    ensures Lower(Lower(s)) == Lower(s)
  {
    assert forall i :: 0 <= i < |s| ==> Lower(Lower(s))[i] == Lower(s)[i];
  }

  /** Lower-casing keeps every position's whitespace status. */
  lemma LowerKeepsWhitespaceAt(s: string)
    ensures forall i :: 0 <= i < |s| ==> (Lower(s)[i] in Whitespace <==> s[i] in Whitespace)
  {
    forall i | 0 <= i < |s|
      ensures Lower(s)[i] in Whitespace <==> s[i] in Whitespace
    {
      LowerKeepsWhitespace(s[i]);
    }
  }

  /** Trimming commutes with lower-casing. */
  lemma TrimStartOfLower(s: string)
    ensures TrimStart(Lower(s)) == Lower(TrimStart(s))
  {
    var n := LeadingCount(s);
    LowerKeepsWhitespaceAt(s);
    LeadingCountUnique(Lower(s), n);
    assert Lower(s)[n..] == Lower(s[n..]);
  }

  lemma TrimEndOfLower(s: string)
    ensures TrimEnd(Lower(s)) == Lower(TrimEnd(s))
  {
    var m := TrailingCount(s);
    LowerKeepsWhitespaceAt(s);
    TrailingCountUnique(Lower(s), m);
    assert Lower(s)[..|s| - m] == Lower(s[..|s| - m]);
  }

  lemma StripOfLower(s: string)
    ensures Strip(Lower(s)) == Lower(Strip(s))
  {
    TrimStartOfLower(s);
    TrimEndOfLower(TrimStart(s));
  }

  /** The search text is compared lower-cased: typing it in capitals lists
      the same files. */
  lemma SearchIgnoresCase(f: Settings, p: Path)
    ensures Matches(f.(searchText := Lower(f.searchText)), p) == Matches(f, p)
  {
    var t := f.searchText;
    StripOfLower(t);
    LowerIdempotent(Strip(t));
    assert Query(f.(searchText := Lower(t))) == Query(f);
  }
}
