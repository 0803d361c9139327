/** `sortedByDescending { (_, value) -> value }`: a stable sort of the map's
    entries by descending score, modelled as an insertion sort. */
module StableSort {
  import opened Entries

  /** Places `e` in front of the first entry whose score does not exceed its
      own, so `e` goes ahead of every entry of `s` with an equal score. */
  function Insert(e: Entry, s: seq<Entry>): (r: seq<Entry>)
    requires Descending(s)
    ensures Descending(r)
    ensures multiset(r) == multiset(s) + multiset{e}
  {
    if s == [] || e.score >= s[0].score then
      ConsDescending(e, s);
      [e] + s
    else
      var rest := Insert(e, s[1..]);
      assert s == [s[0]] + s[1..];
      BoundedByHead(e, s, rest);
      ConsDescending(s[0], rest);
      [s[0]] + rest
  }

  /** Prepending an entry that scores at least as much as the head keeps a
      sequence descending. */
  lemma ConsDescending(x: Entry, t: seq<Entry>)
    requires Descending(t)
    requires t != [] ==> x.score >= t[0].score
    ensures Descending([x] + t)
  {
  }

  lemma BoundedByHead(e: Entry, s: seq<Entry>, rest: seq<Entry>)
    requires Descending(s) && s != [] && e.score < s[0].score
    requires multiset(rest) == multiset(s[1..]) + multiset{e}
    ensures rest != [] ==> rest[0].score <= s[0].score
  {
    if rest != [] {
      assert rest[0] in multiset(rest);
      if rest[0] != e {
        assert rest[0] in multiset(s[1..]);
        assert rest[0] in s[1..];
      }
    }
  }

  /** Inserting `e` adds it at the head of its tie group: every entry of `s`
      with the same score stays behind it. */
  lemma {:induction false} InsertTies(e: Entry, s: seq<Entry>, v: Score)
    requires Descending(s)
    ensures Ties(Insert(e, s), v) == (if e.score == v then [e] else []) + Ties(s, v)
  {
    if s == [] || e.score >= s[0].score {
      TiesCons(e, s, v);
    } else {
      var rest := Insert(e, s[1..]);
      InsertTies(e, s[1..], v);
      TiesCons(s[0], rest, v);
      TiesCons(s[0], s[1..], v);
      assert s == [s[0]] + s[1..];
    }
  }

  /** The entries of `s`, highest score first. */
  function Sort(s: seq<Entry>): (r: seq<Entry>)
    ensures Descending(r)
    ensures multiset(r) == multiset(s)
    ensures |r| == |s|
  {
    if s == [] then []
    else
      assert s == [s[0]] + s[1..];
      var r := Insert(s[0], Sort(s[1..]));
      assert |r| == |multiset(r)| == |multiset(s)| == |s|;
      r
  }

  /** A list that is already ranked comes out of `Sort` unchanged. */
  lemma {:induction false} SortOfDescending(s: seq<Entry>)
    requires Descending(s)
    ensures Sort(s) == s
  {
    if s != [] {
      assert Descending(s[1..]);
      SortOfDescending(s[1..]);
      assert s == [s[0]] + s[1..];
    }
  }

  /** `Sort` is stable: each group of equal scores keeps its order in `s`. */
  lemma {:induction false} SortTies(s: seq<Entry>, v: Score)
    ensures Ties(Sort(s), v) == Ties(s, v)
  {
    if s != [] {
      SortTies(s[1..], v);
      InsertTies(s[0], Sort(s[1..]), v);
      TiesCons(s[0], s[1..], v);
      assert s == [s[0]] + s[1..];
    }
  }

  /** `Sort` meets the contract of `sortedByDescending`. */
  lemma SortIsStableDescendingSort(s: seq<Entry>)
    ensures StableDescendingSortOf(s, Sort(s))
  {
    forall v
      ensures Ties(Sort(s), v) == Ties(s, v)
    {
      SortTies(s, v);
    }
  }

  /** Entries of `Insert(e, s)` come from `s` or are `e`. */
  lemma InsertMembers(e: Entry, s: seq<Entry>, x: Entry)
    requires Descending(s)
    requires x in Insert(e, s)
    ensures x == e || x in s
  {
  }

  /** Inserting an entry whose label is new keeps labels unique. */
  lemma {:induction false} InsertKeepsUniqueLabels(e: Entry, s: seq<Entry>)
    requires Descending(s) && UniqueLabels(s)
    requires forall x :: x in s ==> x.name != e.name
    ensures UniqueLabels(Insert(e, s))
  {
    if s != [] && e.score < s[0].score {
      var rest := Insert(e, s[1..]);
      InsertKeepsUniqueLabels(e, s[1..]);
      forall j | 0 <= j < |rest|
        ensures rest[j].name != s[0].name
      {
        InsertMembers(e, s[1..], rest[j]);
      }
      assert Insert(e, s) == [s[0]] + rest;
    }
  }

  /** Sorting a map's entry list keeps its labels unique. */
  lemma {:induction false} SortKeepsUniqueLabels(s: seq<Entry>)
    requires UniqueLabels(s)
    ensures UniqueLabels(Sort(s))
  {
    if s != [] {
      var t := Sort(s[1..]);
      SortKeepsUniqueLabels(s[1..]);
      forall x | x in t
        ensures x.name != s[0].name
      {
        assert x in multiset(t);
      }
      InsertKeepsUniqueLabels(s[0], t);
    }
  }

  /** The first entry of a descending sequence scores highest. */
  lemma HeadIsMax(s: seq<Entry>, x: Entry)
    requires Descending(s) && x in s
    ensures x.score <= s[0].score
  {
  }

  /** Two descending sequences with the same tie groups are equal. */
  lemma {:induction false} DescendingTiesUnique(a: seq<Entry>, b: seq<Entry>)
    requires Descending(a) && Descending(b)
    requires forall v :: Ties(a, v) == Ties(b, v)
    ensures a == b
  {
    TiesDetermineMultiset(a, b);
    assert |a| == |multiset(a)| == |multiset(b)| == |b|;
    if a != [] {
      var a0, b0 := a[0], b[0];
      var a', b' := a[1..], b[1..];
      assert a == [a0] + a' && b == [b0] + b';
      // a0 is a tie of its own score in b, so b0 scores at least as much; and back.
      TiesCons(a0, a', a0.score);
      TiesMembers(b, a0.score, a0);
      HeadIsMax(b, a0);
      TiesCons(b0, b', b0.score);
      TiesMembers(a, b0.score, b0);
      HeadIsMax(a, b0);
      var v := a0.score;
      assert b0.score == v;
      forall u
        ensures Ties(a', u) == Ties(b', u)
      {
        TiesCons(a0, a', u);
        TiesCons(b0, b', u);
        assert Ties(a, u) == Ties(b, u);
        if u != v {
          assert [] + Ties(a', u) == Ties(a', u) && [] + Ties(b', u) == Ties(b', u);
        } else {
          assert ([a0] + Ties(a', u))[1..] == Ties(a', u);
          assert ([b0] + Ties(b', u))[1..] == Ties(b', u);
        }
      }
      assert a0 == b0 by {
        assert ([a0] + Ties(a', v))[0] == a0;
        assert ([b0] + Ties(b', v))[0] == b0;
      }
      DescendingTiesUnique(a', b');
    }
  }

  /** A stable descending sort has only one possible result, so `Sort` is
      the result of any stable sort by descending score, whatever its
      algorithm. */
  lemma StableSortUnique(s: seq<Entry>, r: seq<Entry>)
    requires StableDescendingSortOf(s, r)
    ensures r == Sort(s)
  {
    SortIsStableDescendingSort(s);
    DescendingTiesUnique(r, Sort(s));
  }
}
