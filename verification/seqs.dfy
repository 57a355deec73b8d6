/** Small facts about sequences that several modules share. */
module Seqs {

  /** The set of a sequence's elements. */
  function Elements<T>(xs: seq<T>): set<T> {
    set x | x in xs
  }

  predicate NoDuplicates<T(==)>(xs: seq<T>) {
    forall i, j :: 0 <= i < j < |xs| ==> xs[i] != xs[j]
  }

  /** The elements `keep` accepts, in their order. */
  function Select<T>(keep: T -> bool, xs: seq<T>): seq<T> {
    if xs == [] then [] else (if keep(xs[0]) then [xs[0]] else []) + Select(keep, xs[1..])
  }

  /** An element is selected exactly when it is in the sequence and
      accepted. */
  lemma {:induction false} SelectMembership<T>(keep: T -> bool, xs: seq<T>, x: T)
    ensures x in Select(keep, xs) <==> x in xs && keep(x)
    decreases |xs|
  {
    if xs != [] {
      SelectMembership(keep, xs[1..], x);
      assert x in xs <==> x == xs[0] || x in xs[1..];
    }
  }

  /** Selecting from two parts selects from the first part, then from the
      second. */
  lemma {:induction false} SelectAppend<T>(keep: T -> bool, a: seq<T>, b: seq<T>)
    ensures Select(keep, a + b) == Select(keep, a) + Select(keep, b)
    decreases |a|
  {
    if a == [] {
      assert a + b == b;
    } else {
      var h := if keep(a[0]) then [a[0]] else [];
      assert (a + b)[1..] == a[1..] + b;
      assert Select(keep, a + b) == h + Select(keep, a[1..] + b);
      SelectAppend(keep, a[1..], b);
      assert h + (Select(keep, a[1..]) + Select(keep, b)) == (h + Select(keep, a[1..])) + Select(keep, b);
    }
  }

  /** Selecting from a prefix one element longer. */
  lemma SelectSnoc<T>(keep: T -> bool, xs: seq<T>, j: nat)
    requires j < |xs|
    ensures Select(keep, xs[..j + 1]) == Select(keep, xs[..j]) + (if keep(xs[j]) then [xs[j]] else [])
  {
    assert xs[..j + 1] == xs[..j] + [xs[j]];
    SelectAppend(keep, xs[..j], [xs[j]]);
    assert [xs[j]][1..] == [];
  }

  /** The pieces `step` gives for the elements, concatenated in order. */
  function Gather<T, U>(step: T -> seq<U>, xs: seq<T>): seq<U> {
    if xs == [] then [] else step(xs[0]) + Gather(step, xs[1..])
  }

  /** Gathering over two parts gathers over the first, then the second. */
  lemma {:induction false} GatherAppend<T, U>(step: T -> seq<U>, a: seq<T>, b: seq<T>)
    ensures Gather(step, a + b) == Gather(step, a) + Gather(step, b)
    decreases |a|
  {
    if a == [] {
      assert a + b == b;
    } else {
      assert (a + b)[1..] == a[1..] + b;
      assert Gather(step, a + b) == step(a[0]) + Gather(step, a[1..] + b);
      GatherAppend(step, a[1..], b);
      assert step(a[0]) + (Gather(step, a[1..]) + Gather(step, b)) == (step(a[0]) + Gather(step, a[1..])) + Gather(step, b);
    }
  }

  /** Gathering over a prefix one element longer. */
  lemma GatherSnoc<T, U>(step: T -> seq<U>, xs: seq<T>, j: nat)
    requires j < |xs|
    ensures Gather(step, xs[..j + 1]) == Gather(step, xs[..j]) + step(xs[j])
  {
    assert xs[..j + 1] == xs[..j] + [xs[j]];
    GatherAppend(step, xs[..j], [xs[j]]);
    assert [xs[j]][1..] == [];
    assert Gather(step, [xs[j]]) == step(xs[j]) + Gather(step, []);
  }

  /** `str.split(sep)`: the pieces between the separators, in order; an
      empty sequence is one empty piece. */
  function Split<T(==)>(s: seq<T>, sep: T): (r: seq<seq<T>>)
    ensures |r| >= 1
    ensures forall i :: 0 <= i < |r| ==> sep !in r[i]
  {
    if s == [] then [[]]
    else
      var rest := Split(s[1..], sep);
      if s[0] == sep then [[]] + rest else [[s[0]] + rest[0]] + rest[1..]
  }

  /** A sequence without the separator is one piece. */
  lemma {:induction false} SplitWithout<T>(s: seq<T>, sep: T)
    requires sep !in s
    ensures Split(s, sep) == [s]
    decreases |s|
  {
    if s != [] {
      assert sep !in s[1..];
      SplitWithout(s[1..], sep);
      assert [s[0]] + s[1..] == s;
    }
  }

  /** A separator-free first piece is split off before the separator. */
  lemma {:induction false} SplitAfterPiece<T>(a: seq<T>, sep: T, b: seq<T>)
    requires sep !in a
    ensures Split(a + [sep] + b, sep) == [a] + Split(b, sep)
    decreases |a|
  {
    if a == [] {
      assert a + [sep] + b == [sep] + b;
      assert ([sep] + b)[1..] == b;
    } else {
      assert (a + [sep] + b)[1..] == a[1..] + [sep] + b;
      SplitAfterPiece(a[1..], sep, b);
      assert [a[0]] + a[1..] == a;
    }
  }
}
