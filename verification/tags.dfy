/**
 * `TagManager`: the tags attached to files, as a map from a file path to
 * its list of tags, written to the tags file after every change; and the
 * window's tag dialog (`manage_tags`), which replaces a file's list.
 */
module Tags {
  import opened Wrappers
  import opened Seqs
  import opened Filter

  type TagMap = map<string, seq<string>>

  /** The tags in memory and the content of the tags file (`None` while
      there is none). */
  datatype TagStore = TagStore(tags: TagMap, persisted: Option<TagMap>)

  /** `save_tags`. */
  function SaveTags(t: TagStore): TagStore {
    t.(persisted := Some(t.tags))
  }

  /** `get_tags`: the file's tags, none for an untagged file. */
  function GetTags(tags: TagMap, path: string): (r: seq<string>)
    ensures WellFormed(tags) ==> (r == [] <==> path !in tags) && NoDuplicates(r)
  {
    if path in tags then tags[path] else []
  }

  /** A map `add_tag` and `remove_tag` keep: no file with an empty tag list,
      no tag twice on a file. */
  predicate WellFormed(tags: TagMap) {
    forall p :: p in tags ==> tags[p] != [] && NoDuplicates(tags[p])
  }

  /**
   * `add_tag`: a tag the file does not carry yet is appended to its list
   * (created if needed) and the tags are saved; otherwise nothing changes.
   * Other files keep their tags.
   */
  function AddTag(t: TagStore, path: string, tag: string): (r: TagStore)
    ensures tag in GetTags(r.tags, path)
    ensures tag in GetTags(t.tags, path) ==> r == t
    ensures tag !in GetTags(t.tags, path) ==>
      GetTags(r.tags, path) == GetTags(t.tags, path) + [tag] && r.persisted == Some(r.tags)
    ensures forall q :: q != path ==> (q in r.tags <==> q in t.tags) && GetTags(r.tags, q) == GetTags(t.tags, q)
  {
    var listed := if path in t.tags then t else t.(tags := t.tags[path := []]);
    var current := listed.tags[path];
    if tag in current then listed
    else SaveTags(listed.(tags := listed.tags[path := current + [tag]]))
  }

  /** Where `x` first occurs in the list. */
  function FirstIndex<T(==)>(xs: seq<T>, x: T): (k: nat)
    requires x in xs
    ensures k < |xs| && xs[k] == x && x !in xs[..k]
  {
    if xs[0] == x then 0
    else
      assert xs[1..][..FirstIndex(xs[1..], x)] == xs[1..1 + FirstIndex(xs[1..], x)];
      1 + FirstIndex(xs[1..], x)
  }

  /** The list without the first occurrence of `x` (`list.remove`): the
      other tags keep their order. */
  function RemoveFirst<T(==)>(xs: seq<T>, x: T): (r: seq<T>)
    requires x in xs
    ensures |r| == |xs| - 1
    ensures multiset(r) == multiset(xs) - multiset{x}
  {
    assert xs == [xs[0]] + xs[1..];
    if xs[0] == x then xs[1..] else [xs[0]] + RemoveFirst(xs[1..], x)
  }

  /** `list.remove` takes out the first occurrence and keeps the order of
      the others. */
  lemma {:induction false} RemoveFirstKeepsOrder<T>(xs: seq<T>, x: T)
    requires x in xs
    ensures RemoveFirst(xs, x) == xs[..FirstIndex(xs, x)] + xs[FirstIndex(xs, x) + 1..]
    decreases |xs|
  {
    if xs[0] != x {
      var ys := xs[1..];
      var k := FirstIndex(ys, x);
      assert FirstIndex(xs, x) == k + 1;
      var r := RemoveFirst(ys, x);
      assert RemoveFirst(xs, x) == [xs[0]] + r;
      RemoveFirstKeepsOrder(ys, x);
      assert r == ys[..k] + ys[k + 1..];
      ConsSplice(xs, k);
      assert [xs[0]] + r == xs[..k + 1] + xs[k + 2..];
    }
  }

  /** Putting the head back in front of a tail with one position cut out
      cuts the next position out of the whole list. */
  lemma ConsSplice<T>(xs: seq<T>, k: nat)
    requires k + 1 < |xs|
    ensures [xs[0]] + (xs[1..][..k] + xs[1..][k + 1..]) == xs[..k + 1] + xs[k + 2..]
  {
    assert [xs[0]] + xs[1..][..k] == xs[..k + 1];
  }

  /** Removing the last element of a list ending in `x` that holds `x` only
      there gives the rest. */
  lemma {:induction false} RemoveFirstOfLast<T>(xs: seq<T>, x: T)
    requires x !in xs
    ensures RemoveFirst(xs + [x], x) == xs
    decreases |xs|
  {
    if xs != [] {
      assert (xs + [x])[1..] == xs[1..] + [x];
      RemoveFirstOfLast(xs[1..], x);
      assert [xs[0]] + xs[1..] == xs;
    }
  }

  /**
   * `remove_tag`: a tag the file carries is removed from its list, the
   * file is dropped from the map when no tag is left, and the tags are
   * saved; otherwise nothing changes. Other files keep their tags.
   */
  function RemoveTag(t: TagStore, path: string, tag: string): (r: TagStore)
    ensures tag !in GetTags(t.tags, path) ==> r == t
    ensures tag in GetTags(t.tags, path) ==>
      && multiset(GetTags(r.tags, path)) == multiset(GetTags(t.tags, path)) - multiset{tag}
      && (path in r.tags <==> GetTags(r.tags, path) != [])
      && r.persisted == Some(r.tags)
    ensures forall q :: q != path ==> (q in r.tags <==> q in t.tags) && GetTags(r.tags, q) == GetTags(t.tags, q)
  {
    if path in t.tags && tag in t.tags[path] then
      var rest := RemoveFirst(t.tags[path], tag);
      if rest == [] then SaveTags(t.(tags := t.tags - {path}))
      else SaveTags(t.(tags := t.tags[path := rest]))
    else t
  }

  /** Removing a tag the file carries takes its first occurrence out of the
      file's list and keeps the order of the other tags. */
  lemma RemoveTagKeepsOrder(t: TagStore, path: string, tag: string)
    requires tag in GetTags(t.tags, path)
    ensures var xs := GetTags(t.tags, path); var k := FirstIndex(xs, tag);
      GetTags(RemoveTag(t, path, tag).tags, path) == xs[..k] + xs[k + 1..]
  {
    RemoveFirstKeepsOrder(t.tags[path], tag);
  }

  /** Adding a tag keeps the map well formed. */
  lemma AddTagKeepsWellFormed(t: TagStore, path: string, tag: string)
    requires WellFormed(t.tags)
    ensures WellFormed(AddTag(t, path, tag).tags)
  {
    var r := AddTag(t, path, tag);
    if tag !in GetTags(t.tags, path) {
      var xs := GetTags(t.tags, path);
      assert r.tags[path] == xs + [tag];
      assert NoDuplicates(xs + [tag]) by {
        forall i, j | 0 <= i < j < |xs + [tag]|
          ensures (xs + [tag])[i] != (xs + [tag])[j]
        {
          if j == |xs| {
            assert (xs + [tag])[i] == xs[i];
          }
        }
      }
    }
  }

  /** Removing a tag keeps the map well formed, and the file no longer
      carries the tag. */
  lemma RemoveTagKeepsWellFormed(t: TagStore, path: string, tag: string)
    requires WellFormed(t.tags)
    ensures WellFormed(RemoveTag(t, path, tag).tags)
    ensures tag !in GetTags(RemoveTag(t, path, tag).tags, path)
  {
    var r := RemoveTag(t, path, tag);
    if tag in GetTags(t.tags, path) {
      var xs := t.tags[path];
      var ys := GetTags(r.tags, path);
      assert multiset(ys) == multiset(xs) - multiset{tag};
      MultisetNoDuplicates(xs, ys, tag);
    }
  }

  /** A list without duplicates that loses one occurrence of `x` keeps no
      duplicates and loses `x`. */
  lemma MultisetNoDuplicates(xs: seq<string>, ys: seq<string>, x: string)
    requires NoDuplicates(xs) && x in xs
    requires multiset(ys) == multiset(xs) - multiset{x}
    ensures NoDuplicates(ys) && x !in ys
  {
    CountOnce(xs, x);
    assert multiset(ys)[x] == 0;
    forall i, j | 0 <= i < j < |ys|
      ensures ys[i] != ys[j]
    {
      if ys[i] == ys[j] {
        var y := ys[i];
        MultisetAtLeastTwo(ys, i, j);
        CountOnce(xs, y);
      }
    }
  }

  /** In a list without duplicates every element occurs once. */
  lemma {:induction false} CountOnce(xs: seq<string>, x: string)
    requires NoDuplicates(xs)
    ensures multiset(xs)[x] <= 1
    decreases |xs|
  {
    if xs != [] {
      assert xs == [xs[0]] + xs[1..];
      CountOnce(xs[1..], x);
      if xs[0] == x {
        assert x !in xs[1..];
      }
    }
  }

  /** Two positions holding the same element make it occur twice. */
  lemma MultisetAtLeastTwo(ys: seq<string>, i: nat, j: nat)
    requires i < j < |ys| && ys[i] == ys[j]
    ensures multiset(ys)[ys[i]] >= 2
  {
    var y := ys[i];
    assert ys == ys[..j] + ys[j..];
    assert y in ys[..j];
    assert y in ys[j..];
  }

  /** Adding a tag a file does not carry and removing it again restores
      the tags. */
  lemma AddThenRemove(t: TagStore, path: string, tag: string)
    requires WellFormed(t.tags)
    requires tag !in GetTags(t.tags, path)
    ensures RemoveTag(AddTag(t, path, tag), path, tag).tags == t.tags
  {
    if path in t.tags {
      AddThenRemoveTagged(t, path, tag);
    } else {
      AddThenRemoveUntagged(t, path, tag);
    }
  }

  lemma AddThenRemoveTagged(t: TagStore, path: string, tag: string)
    requires path in t.tags && t.tags[path] != [] && tag !in t.tags[path]
    ensures RemoveTag(AddTag(t, path, tag), path, tag).tags == t.tags
  {
    var xs := t.tags[path];
    var added := AddTag(t, path, tag);
    assert added.tags == t.tags[path := xs + [tag]];
    RemoveFirstOfLast(xs, tag);
    assert t.tags[path := xs + [tag]][path := xs] == t.tags[path := xs];
    assert t.tags[path := xs] == t.tags;
  }

  lemma AddThenRemoveUntagged(t: TagStore, path: string, tag: string)
    requires path !in t.tags
    ensures RemoveTag(AddTag(t, path, tag), path, tag).tags == t.tags
  {
    var added := AddTag(t, path, tag);
    assert [] + [tag] == [tag];
    assert t.tags[path := []][path := [tag]] == t.tags[path := [tag]];
    assert added.tags == t.tags[path := [tag]];
    assert RemoveFirst([tag], tag) == [];
    assert t.tags[path := [tag]] - {path} == t.tags;
  }

  /** A tag as the tag dialog writes it: non-blank, without a comma and
      without surrounding whitespace. */
  predicate Clean(x: string) {
    x != [] && ',' !in x && x[0] !in Whitespace && x[|x| - 1] !in Whitespace
  }

  /** A clean tag is its own stripped text. */
  lemma CleanIsStripped(x: string)
    requires Clean(x)
    ensures Strip(x) == x
  {
    StripAfterBlank([], x);
    assert [] + x == x;
  }

  /** One comma-separated piece of the dialog's text: its stripped text,
      unless that is blank. */
  function TagPiece(piece: string): seq<string> {
    if Strip(piece) != [] then [Strip(piece)] else []
  }

  /** The tag list `manage_tags` builds from the dialog's text: the text is
      split at every comma, each piece is stripped and blank pieces are
      dropped. */
  function TagList(input: string): seq<string> {
    Gather(TagPiece, Split(input, ','))
  }

  /** The dialog's initial text, `", ".join(tags)`. */
  function JoinTags(xs: seq<string>): string
    decreases |xs|
  {
    if xs == [] then ""
    else if |xs| == 1 then xs[0]
    else xs[0] + ", " + JoinTags(xs[1..])
  }

  /** Every tag the dialog produces is clean. */
  lemma {:induction false} TagListClean(input: string)
    ensures forall i :: 0 <= i < |TagList(input)| ==> Clean(TagList(input)[i])
  {
    KeptPiecesClean(Split(input, ','));
  }

  lemma {:induction false} KeptPiecesClean(pieces: seq<string>)
    requires forall i :: 0 <= i < |pieces| ==> ',' !in pieces[i]
    ensures forall i :: 0 <= i < |Gather(TagPiece, pieces)| ==> Clean(Gather(TagPiece, pieces)[i])
    decreases |pieces|
  {
    if pieces != [] {
      KeptPiecesClean(pieces[1..]);
      var p := pieces[0];
      if Strip(p) != [] {
        StripIsClean(p);
      }
    }
  }

  /** A non-blank stripped piece of comma-free text is a clean tag. */
  lemma StripIsClean(p: string)
    requires ',' !in p && Strip(p) != []
    ensures Clean(Strip(p))
  {
    var x := Strip(p);
    assert forall k :: 0 <= k < |x| ==> x[k] == p[LeadingCount(p) + k];
  }

  /** Whitespace in front of a text that starts and ends with other
      characters is all that stripping removes. */
  lemma StripAfterBlank(lead: string, x: string)
    requires forall k :: 0 <= k < |lead| ==> lead[k] in Whitespace
    requires x != [] && x[0] !in Whitespace && x[|x| - 1] !in Whitespace
    ensures Strip(lead + x) == x
  {
    var s := lead + x;
    LeadingCountUnique(s, |lead|);
    var r := Strip(s);
    assert s[|lead|] == x[0];
    assert r != [];
    assert s[|s| - 1] == x[|x| - 1];
    assert |lead| + |r| == |s|;
    assert r == s[|lead|..];
  }

  /** Blank text strips to nothing. */
  lemma StripOfBlank(lead: string)
    requires forall k :: 0 <= k < |lead| ==> lead[k] in Whitespace
    ensures Strip(lead) == []
  {
    LeadingCountUnique(lead, |lead|);
  }

  /** Gathering over a sequence with a known head. */
  lemma GatherCons<T, U>(step: T -> seq<U>, x: T, xs: seq<T>)
    ensures Gather(step, [x] + xs) == step(x) + Gather(step, xs)
  {
    assert ([x] + xs)[1..] == xs;
  }

  /** Blank text holds no tag. */
  lemma TagListOfBlank(lead: string)
    requires forall k :: 0 <= k < |lead| ==> lead[k] in Whitespace
    ensures TagList(lead) == []
  {
    BlankHasNoComma(lead);
    SplitWithout(lead, ',');
    StripOfBlank(lead);
    assert TagPiece(lead) == [];
    GatherCons(TagPiece, lead, []);
  }

  /** Blank text holds no comma. */
  lemma BlankHasNoComma(lead: string)
    requires forall k :: 0 <= k < |lead| ==> lead[k] in Whitespace
    ensures ',' !in lead
  {
    assert ',' !in Whitespace;
  }

  /** One clean tag after a blank prefix reads as that tag. */
  lemma TagListOfOne(lead: string, x: string)
    requires forall k :: 0 <= k < |lead| ==> lead[k] in Whitespace
    requires Clean(x)
    ensures TagList(lead + x) == [x]
  {
    BlankHasNoComma(lead);
    assert ',' !in lead + x;
    SplitWithout(lead + x, ',');
    StripAfterBlank(lead, x);
    GatherCons(TagPiece, lead + x, []);
  }

  /** A clean tag and a comma in front of more text read as that tag
      followed by the tags of the rest. */
  lemma TagListOfCons(lead: string, x: string, rest: string)
    requires forall k :: 0 <= k < |lead| ==> lead[k] in Whitespace
    requires Clean(x)
    ensures TagList(lead + x + [','] + rest) == [x] + TagList(rest)
  {
    BlankHasNoComma(lead);
    assert ',' !in lead + x;
    SplitAfterPiece(lead + x, ',', rest);
    StripAfterBlank(lead, x);
    GatherCons(TagPiece, lead + x, Split(rest, ','));
  }

  lemma JoinedShape(lead: string, x: string, rest: string)
    ensures lead + (x + ", " + rest) == lead + x + [','] + (" " + rest)
  {
  }

  /** Clean tags joined as the dialog shows them, after any blank prefix,
      read back as the same list. */
  lemma {:induction false} TagListOfJoined(lead: string, xs: seq<string>)
    requires forall k :: 0 <= k < |lead| ==> lead[k] in Whitespace
    requires forall i :: 0 <= i < |xs| ==> Clean(xs[i])
    ensures TagList(lead + JoinTags(xs)) == xs
    decreases |xs|
  {
    if xs == [] {
      assert lead + JoinTags(xs) == lead;
      TagListOfBlank(lead);
    } else if |xs| == 1 {
      TagListOfOne(lead, xs[0]);
    } else {
      var x, rest := xs[0], JoinTags(xs[1..]);
      assert JoinTags(xs) == x + ", " + rest;
      JoinedShape(lead, x, rest);
      TagListOfCons(lead, x, " " + rest);
      TagListOfJoined(" ", xs[1..]);
      assert [x] + xs[1..] == xs;
    }
  }

  /**
   * `manage_tags` for a file: nothing happens when the file is missing or
   * the dialog is cancelled (`ok` false); otherwise the file's list becomes
   * the tags read from the dialog's text, even when that list is empty,
   * and the tags are saved.
   */
  function ManageTags(t: TagStore, path: string, found: bool, input: string, ok: bool): (r: TagStore)
    ensures path == [] || !found || !ok ==> r == t
    ensures path != [] && found && ok ==>
      && path in r.tags
      && GetTags(r.tags, path) == TagList(input)
      && r.persisted == Some(r.tags)
    ensures forall q :: q != path ==> (q in r.tags <==> q in t.tags) && GetTags(r.tags, q) == GetTags(t.tags, q)
  {
    if path == [] || !found || !ok then t
    else SaveTags(t.(tags := t.tags[path := TagList(input)]))
  }

  /** Every tag the dialog writes is clean, so a map of clean tags stays
      one. */
  lemma ManageTagsKeepsClean(t: TagStore, path: string, found: bool, input: string, ok: bool)
    requires forall p :: p in t.tags ==> forall i :: 0 <= i < |t.tags[p]| ==> Clean(t.tags[p][i])
    ensures var r := ManageTags(t, path, found, input, ok);
      forall p :: p in r.tags ==> forall i :: 0 <= i < |r.tags[p]| ==> Clean(r.tags[p][i])
  {
    TagListClean(input);
  }

  /** Accepting the dialog without editing its text keeps a file's clean
      tags; an untagged file is then listed with no tags. */
  lemma ManageTagsUnedited(t: TagStore, path: string)
    requires path != []
    requires forall i :: 0 <= i < |GetTags(t.tags, path)| ==> Clean(GetTags(t.tags, path)[i])
    ensures var r := ManageTags(t, path, true, JoinTags(GetTags(t.tags, path)), true);
      && GetTags(r.tags, path) == GetTags(t.tags, path)
      && (path in t.tags ==> r.tags == t.tags)
  {
    var xs := GetTags(t.tags, path);
    TagListOfJoined([], xs);
    assert [] + JoinTags(xs) == JoinTags(xs);
    assert TagList(JoinTags(xs)) == xs;
    if path in t.tags {
      assert t.tags[path := xs] == t.tags;
    }
  }

  /** The dialog can write the same tag twice, so its result need not be
      well formed. */
  lemma ManageTagsCanRepeat(t: TagStore, path: string, x: string)
    requires path != [] && Clean(x)
    ensures var r := ManageTags(t, path, true, x + ", " + x, true);
      GetTags(r.tags, path) == [x, x] && !WellFormed(r.tags)
  {
    TagListOfJoined([], [x, x]);
    assert [] + JoinTags([x, x]) == x + ", " + x;
  }

  /** Blank dialog text lists the file with no tags, so the result need not
      be well formed. */
  lemma ManageTagsCanEmpty(t: TagStore, path: string, blank: string)
    requires path != []
    requires forall k :: 0 <= k < |blank| ==> blank[k] in Whitespace
    ensures var r := ManageTags(t, path, true, blank, true);
      path in r.tags && r.tags[path] == [] && !WellFormed(r.tags)
  {
    TagListOfJoined(blank, []);
    assert blank + JoinTags([]) == blank;
  }
}
