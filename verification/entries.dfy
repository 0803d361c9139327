/** The (label, score) pairs that the classifier ranks, and the orderings
    used to talk about rankings of them. */
module Entries {

  /** A class name, one line of the label file. */
  type Label = string

  /** A class probability. The app stores a 32-bit float; the model uses an
      exact real, which keeps the ordering and drops rounding and NaN. */
  type Score = real

  /** One `Pair<String, Float>` of the app: a label and its probability. */
  datatype Entry = Entry(name: Label, score: Score)

  function Min(a: int, b: int): int
  {
    if a <= b then a else b
  }

  /** The labels of `s`, in order. */
  function LabelsOf(s: seq<Entry>): (r: seq<Label>)
    ensures |r| == |s|
    ensures forall i :: 0 <= i < |s| ==> r[i] == s[i].name
  {
    seq(|s|, i requires 0 <= i < |s| => s[i].name)
  }

  /** No element occurs twice. */
  predicate Distinct<T(==)>(s: seq<T>)
  {
    forall i, j :: 0 <= i < j < |s| ==> s[i] != s[j]
  }

  /** No label occurs twice: what a map's entry list guarantees. */
  predicate UniqueLabels(s: seq<Entry>)
  {
    Distinct(LabelsOf(s))
  }

  /** Non-increasing by score. */
  predicate Descending(s: seq<Entry>)
  {
    forall i, j :: 0 <= i < j < |s| ==> s[i].score >= s[j].score
  }

  /** The entries of `s` whose score is `v`, in their order in `s`. Two
      rankings keep ties in the same relative order exactly when these
      subsequences agree for every `v`. */
  function Ties(s: seq<Entry>, v: Score): seq<Entry>
  {
    if s == [] then []
    else (if s[0].score == v then [s[0]] else []) + Ties(s[1..], v)
  }

  /** `output` is a stable sort of `input` by descending score: ordered, and
      every group of equal scores appears in its input order. Keeping every
      tie group also makes `output` a permutation of `input`
      (see `TiesDetermineMultiset`). */
  ghost predicate StableDescendingSortOf(input: seq<Entry>, output: seq<Entry>)
  {
    && Descending(output)
    && forall v :: Ties(output, v) == Ties(input, v)
  }

  lemma TiesCons(x: Entry, t: seq<Entry>, v: Score)
    ensures Ties([x] + t, v) == (if x.score == v then [x] else []) + Ties(t, v)
  {
  }

  lemma {:induction false} TiesCount(s: seq<Entry>, x: Entry)
    ensures multiset(Ties(s, x.score))[x] == multiset(s)[x]
  {
    if s != [] {
      TiesCount(s[1..], x);
      assert s == [s[0]] + s[1..];
    }
  }

  /** Agreeing on every tie group means being permutations of each other. */
  lemma TiesDetermineMultiset(a: seq<Entry>, b: seq<Entry>)
    requires forall v :: Ties(a, v) == Ties(b, v)
    ensures multiset(a) == multiset(b)
  {
    forall x
      ensures multiset(a)[x] == multiset(b)[x]
    {
      TiesCount(a, x);
      TiesCount(b, x);
    }
  }

  lemma {:induction false} TiesMembers(s: seq<Entry>, v: Score, x: Entry)
    requires x in Ties(s, v)
    ensures x in s && x.score == v
  {
    if s != [] {
      TiesCons(s[0], s[1..], v);
      assert s == [s[0]] + s[1..];
      if x != s[0] || s[0].score != v {
        TiesMembers(s[1..], v, x);
      }
    }
  }

  /** The tie groups of a prefix are prefixes of the tie groups. */
  lemma {:induction false} TiesOfPrefix(s: seq<Entry>, n: nat, v: Score)
    requires n <= |s|
    ensures Ties(s[..n], v) <= Ties(s, v)
  {
    if n > 0 {
      assert s[..n][1..] == s[1..][..n - 1];
      TiesOfPrefix(s[1..], n - 1, v);
    }
  }

  lemma {:induction false} TiesAppend(x: seq<Entry>, y: seq<Entry>, v: Score)
    ensures Ties(x + y, v) == Ties(x, v) + Ties(y, v)
  {
    if x != [] {
      assert (x + y)[1..] == x[1..] + y;
      TiesAppend(x[1..], y, v);
    } else {
      assert x + y == y;
    }
  }

  /** Positions in a tie group follow positions in the list: an entry
      scoring `v` at index `i` is followed, in `Ties(s, v)`, by everything
      scoring `v` after it. */
  lemma TiesPositionsIncrease(s: seq<Entry>, v: Score, i: nat, j: nat)
    requires i < j <= |s| && s[i].score == v
    ensures |Ties(s[..i], v)| < |Ties(s[..j], v)|
  {
    assert s[..i + 1] == s[..i] + [s[i]];
    TiesAppend(s[..i], [s[i]], v);
    assert s[..j][..i + 1] == s[..i + 1];
    TiesOfPrefix(s[..j], i + 1, v);
  }

  /** The entry at index `i`, scoring `v`, sits in `Ties(s, v)` at the
      position given by the number of ties before it. */
  lemma TiesPosition(s: seq<Entry>, v: Score, i: nat)
    requires i < |s| && s[i].score == v
    ensures |Ties(s[..i], v)| < |Ties(s, v)|
    ensures Ties(s, v)[|Ties(s[..i], v)|] == s[i]
  {
    assert s[..i + 1] == s[..i] + [s[i]];
    TiesAppend(s[..i], [s[i]], v);
    TiesOfPrefix(s, i + 1, v);
  }

  /** Every position of a tie group comes from an index of the list with
      exactly that many ties before it. */
  lemma {:induction false} TiesSource(s: seq<Entry>, v: Score, p: nat) returns (i: nat)
    requires p < |Ties(s, v)|
    ensures i < |s| && s[i].score == v && s[i] == Ties(s, v)[p]
    ensures |Ties(s[..i], v)| == p
  {
    TiesCons(s[0], s[1..], v);
    assert s == [s[0]] + s[1..];
    if s[0].score == v && p == 0 {
      i := 0;
    } else {
      var q := if s[0].score == v then p - 1 else p;
      var k := TiesSource(s[1..], v, q);
      i := k + 1;
      assert s[..i] == [s[0]] + s[1..][..k];
      TiesCons(s[0], s[1..][..k], v);
    }
  }
}
