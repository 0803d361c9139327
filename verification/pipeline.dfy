/** The tail of `runTFLiteInference` after the model has run: normalise the
    outputs, pair them with the labels, keep the best `TopKCount`. */
module Pipeline {
  import opened Wrappers
  import opened Entries
  import opened LinkedMap
  import opened Pairing
  import opened TopK
  import opened Normalizer

  /** Pairs `labels` with `probabilities` and ranks the pairs: the top ten
      of the pairing. With `s` the first `n` labels, `n` the shorter
      length: there are `min(10, number of distinct labels in s)` entries
      (so `min(10, n)` when those labels are distinct, never more); every
      returned entry is a label of `s` with the probability of its last
      occurrence there; no label appears twice; scores do not increase; no
      label of `s` left out scores more than any label returned; and equal
      scores, both among the returned entries and at the cut-off, go in the
      order of the labels' first occurrence in `s`. */
  method RankLabels(labels: seq<Label>, probabilities: seq<Score>) returns (topResults: seq<Entry>)
    ensures |topResults| <= TopKCount
    ensures |topResults| <= Min(|labels|, |probabilities|)
    ensures |topResults| == Min(TopKCount, |set k | k in labels[..Min(|labels|, |probabilities|)]|)
    ensures Distinct(labels[..Min(|labels|, |probabilities|)]) ==>
              |topResults| == Min(TopKCount, Min(|labels|, |probabilities|))
    ensures Descending(topResults)
    ensures UniqueLabels(topResults)
    ensures forall e :: e in topResults ==>
              var s := labels[..Min(|labels|, |probabilities|)];
              e.name in s && e.score == probabilities[LastIndex(s, e.name)]
    ensures forall k, e :: k in labels[..Min(|labels|, |probabilities|)] && k !in LabelsOf(topResults) && e in topResults ==>
              probabilities[LastIndex(labels[..Min(|labels|, |probabilities|)], k)] <= e.score
    ensures forall a, b :: 0 <= a < b < |topResults| && topResults[a].score == topResults[b].score ==>
              var s := labels[..Min(|labels|, |probabilities|)];
              topResults[a].name in s && topResults[b].name in s && FirstIndex(s, topResults[a].name) < FirstIndex(s, topResults[b].name)
    ensures forall k, e :: k in labels[..Min(|labels|, |probabilities|)] && k !in LabelsOf(topResults) && e in topResults
                           && probabilities[LastIndex(labels[..Min(|labels|, |probabilities|)], k)] == e.score ==>
              var s := labels[..Min(|labels|, |probabilities|)];
              e.name in s && FirstIndex(s, e.name) < FirstIndex(s, k)
  {
    var labeledProbability := PairLabels(labels, probabilities);
    var r := GetTopKResults(labeledProbability, TopKCount);
    topResults := r.value;
    ghost var s := labels[..Min(|labels|, |probabilities|)];
    TopKUniqueLabels(labeledProbability, TopKCount);
    RankedEntriesArePaired(labeledProbability, s, probabilities);
    RankSelectsHighest(labeledProbability, s, probabilities);
    RankTieOrder(labeledProbability, s);
    RankCutOffTie(labeledProbability, s, probabilities);
  }

  /** Every entry of the ranking is a paired label with the probability
      of its last occurrence. */
  lemma RankedEntriesArePaired(m: seq<Entry>, s: seq<Label>, probabilities: seq<Score>)
    requires |s| <= |probabilities|
    requires UniqueLabels(m)
    requires forall k :: k in LabelsOf(m) <==> k in s
    requires forall k :: k in s ==> Get(m, k) == Some(probabilities[LastIndex(s, k)])
    ensures forall e :: e in GetTopKResults(m, TopKCount).value ==>
              e.name in s && e.score == probabilities[LastIndex(s, e.name)]
  {
    var r := GetTopKResults(m, TopKCount).value;
    forall e | e in r
      ensures e.name in s && e.score == probabilities[LastIndex(s, e.name)]
    {
      assert e in multiset(r);
      var i :| 0 <= i < |m| && m[i] == e;
      assert LabelsOf(m)[i] == e.name;
      assert Get(m, e.name) == Some(e.score);
    }
  }

  /** The ranking really is the top: a paired label that is not returned
      scores no more than any returned entry. */
  lemma RankSelectsHighest(m: seq<Entry>, s: seq<Label>, probabilities: seq<Score>)
    requires |s| <= |probabilities|
    requires UniqueLabels(m)
    requires forall k :: k in LabelsOf(m) <==> k in s
    requires forall k :: k in s ==> Get(m, k) == Some(probabilities[LastIndex(s, k)])
    ensures var r := GetTopKResults(m, TopKCount).value;
            forall k, e :: k in s && k !in LabelsOf(r) && e in r ==> probabilities[LastIndex(s, k)] <= e.score
  {
    var r := GetTopKResults(m, TopKCount).value;
    forall k, e | k in s && k !in LabelsOf(r) && e in r
      ensures probabilities[LastIndex(s, k)] <= e.score
    {
      var i := PairedEntry(m, s, probabilities, k);
      var x := m[i];
      LeftOut(m, r, x, i, k);
      var j :| 0 <= j < |r| && r[j] == e;
      TopKSelectsHighest(m, TopKCount, x, j);
    }
  }

  /** Ties keep the map's order, which is the order of first occurrence:
      of two returned entries with equal scores, the one whose label occurs
      first among the paired labels comes first. */
  lemma RankTieOrder(m: seq<Entry>, s: seq<Label>)
    requires UniqueLabels(m)
    requires FirstOccurrenceOrder(LabelsOf(m), s)
    ensures var r := GetTopKResults(m, TopKCount).value;
            forall a, b :: 0 <= a < b < |r| && r[a].score == r[b].score ==>
              r[a].name in s && r[b].name in s && FirstIndex(s, r[a].name) < FirstIndex(s, r[b].name)
  {
    var r := GetTopKResults(m, TopKCount).value;
    forall a, b | 0 <= a < b < |r| && r[a].score == r[b].score
      ensures r[a].name in s && r[b].name in s && FirstIndex(s, r[a].name) < FirstIndex(s, r[b].name)
    {
      var v := r[a].score;
      TopKKeepsTieOrder(m, TopKCount, v);
      var ia := TiedSourceInMap(m, r, v, a);
      var ib := TiedSourceInMap(m, r, v, b);
      TiesPositionsIncrease(r, v, a, b);
      if ib <= ia {
        if ib < ia {
          TiesPositionsIncrease(m, v, ib, ia);
        }
        assert false;
      }
      assert LabelsOf(m)[ia] == r[a].name && LabelsOf(m)[ib] == r[b].name;
    }
  }

  /** The cut at the tenth place keeps the map's order too: a paired label
      left out with the same score as a returned entry occurs first after
      that entry's label. */
  lemma RankCutOffTie(m: seq<Entry>, s: seq<Label>, probabilities: seq<Score>)
    requires |s| <= |probabilities|
    requires UniqueLabels(m)
    requires forall k :: k in LabelsOf(m) <==> k in s
    requires forall k :: k in s ==> Get(m, k) == Some(probabilities[LastIndex(s, k)])
    requires FirstOccurrenceOrder(LabelsOf(m), s)
    ensures var r := GetTopKResults(m, TopKCount).value;
            forall k, e :: k in s && k !in LabelsOf(r) && e in r && probabilities[LastIndex(s, k)] == e.score ==>
              e.name in s && FirstIndex(s, e.name) < FirstIndex(s, k)
  {
    var r := GetTopKResults(m, TopKCount).value;
    forall k, e | k in s && k !in LabelsOf(r) && e in r && probabilities[LastIndex(s, k)] == e.score
      ensures e.name in s && FirstIndex(s, e.name) < FirstIndex(s, k)
    {
      var i := PairedEntry(m, s, probabilities, k);
      var j := IndexIn(r, e);
      TopKKeepsTieOrder(m, TopKCount, e.score);
      LeftOutTieComesLater(m, r, s, i, j);
    }
  }

  /** An index at which `e` occurs in `r`. */
  lemma IndexIn(r: seq<Entry>, e: Entry) returns (j: nat)
    requires e in r
    ensures j < |r| && r[j] == e
  {
    j :| 0 <= j < |r| && r[j] == e;
  }

  /** When the returned entries scoring `v` are the first entries of the
      map scoring `v`, an entry of the map with the score of the `j`-th
      returned entry, but itself not returned, stands after it in the map. */
  lemma LeftOutTieComesLater(m: seq<Entry>, r: seq<Entry>, s: seq<Label>, i: nat, j: nat)
    requires UniqueLabels(m)
    requires FirstOccurrenceOrder(LabelsOf(m), s)
    requires i < |m| && j < |r| && m[i].score == r[j].score && m[i].name !in LabelsOf(r)
    requires Ties(r, r[j].score) <= Ties(m, r[j].score)
    ensures r[j].name in s && m[i].name in s && FirstIndex(s, r[j].name) < FirstIndex(s, m[i].name)
  {
    var v := r[j].score;
    var ie := TiedSourceInMap(m, r, v, j);
    assert LabelsOf(r)[j] == r[j].name;
    if i < ie {
      TiesBeforeAreReturned(m, r, v, i, ie);
      assert false;
    }
    assert LabelsOf(m)[ie] == r[j].name && LabelsOf(m)[i] == m[i].name;
  }

  /** When the returned ties are the first ties of the map, a tie of the
      map ahead of a returned one is returned as well. */
  lemma TiesBeforeAreReturned(m: seq<Entry>, r: seq<Entry>, v: Score, i: nat, ie: nat)
    requires Ties(r, v) <= Ties(m, v)
    requires i < ie < |m| && m[i].score == v
    requires |Ties(m[..ie], v)| < |Ties(r, v)|
    ensures m[i] in r
  {
    TiesPositionsIncrease(m, v, i, ie);
    TiesPosition(m, v, i);
    assert Ties(r, v)[|Ties(m[..i], v)|] == m[i];
    TiesMembers(r, v, m[i]);
  }

  /** A returned entry scoring `v` is the entry of the map at an index with
      as many ties before it as the entry has before it in the ranking. */
  lemma TiedSourceInMap(m: seq<Entry>, r: seq<Entry>, v: Score, a: nat) returns (i: nat)
    requires Ties(r, v) <= Ties(m, v)
    requires a < |r| && r[a].score == v
    ensures i < |m| && m[i] == r[a]
    ensures |Ties(m[..i], v)| == |Ties(r[..a], v)| < |Ties(r, v)|
  {
    TiesPosition(r, v, a);
    i := TiesSource(m, v, |Ties(r[..a], v)|);
  }

  /** The entry of the map that holds the paired label `k`. */
  lemma PairedEntry(m: seq<Entry>, s: seq<Label>, probabilities: seq<Score>, k: Label) returns (i: nat)
    requires |s| <= |probabilities|
    requires UniqueLabels(m)
    requires forall k :: k in LabelsOf(m) <==> k in s
    requires forall k :: k in s ==> Get(m, k) == Some(probabilities[LastIndex(s, k)])
    requires k in s
    ensures i < |m| && m[i].name == k && m[i].score == probabilities[LastIndex(s, k)]
  {
    assert k in LabelsOf(m);
    i :| 0 <= i < |m| && LabelsOf(m)[i] == k;
  }

  /** An entry of the map whose label the ranking lacks is one the ranking
      left out. */
  lemma LeftOut(m: seq<Entry>, r: seq<Entry>, x: Entry, i: nat, k: Label)
    requires i < |m| && m[i] == x && x.name == k && k !in LabelsOf(r)
    ensures x in multiset(m) - multiset(r)
  {
    assert x in multiset(m);
  }

  /** From raw model outputs to the displayed ranking: `RankLabels` applied
      to the softmax of the logits, so besides its promises every returned
      score is a probability in [0, 1]. */
  method Classify(labels: seq<Label>, logits: seq<real>, exp: real -> real) returns (topResults: seq<Entry>)
    requires IsExp(exp)
    ensures |topResults| <= TopKCount
    ensures |topResults| <= Min(|labels|, |logits|)
    ensures |topResults| == Min(TopKCount, |set k | k in labels[..Min(|labels|, |logits|)]|)
    ensures Distinct(labels[..Min(|labels|, |logits|)]) ==>
              |topResults| == Min(TopKCount, Min(|labels|, |logits|))
    ensures Descending(topResults)
    ensures UniqueLabels(topResults)
    ensures forall e :: e in topResults ==>
              var s := labels[..Min(|labels|, |logits|)];
              e.name in s && e.score == Softmax(logits, exp)[LastIndex(s, e.name)]
    ensures forall k, e :: k in labels[..Min(|labels|, |logits|)] && k !in LabelsOf(topResults) && e in topResults ==>
              Softmax(logits, exp)[LastIndex(labels[..Min(|labels|, |logits|)], k)] <= e.score
    ensures forall a, b :: 0 <= a < b < |topResults| && topResults[a].score == topResults[b].score ==>
              var s := labels[..Min(|labels|, |logits|)];
              topResults[a].name in s && topResults[b].name in s && FirstIndex(s, topResults[a].name) < FirstIndex(s, topResults[b].name)
    ensures forall k, e :: k in labels[..Min(|labels|, |logits|)] && k !in LabelsOf(topResults) && e in topResults
                           && Softmax(logits, exp)[LastIndex(labels[..Min(|labels|, |logits|)], k)] == e.score ==>
              var s := labels[..Min(|labels|, |logits|)];
              e.name in s && FirstIndex(s, e.name) < FirstIndex(s, k)
    ensures forall e :: e in topResults ==> 0.0 <= e.score <= 1.0
  {
    var probabilities := Softmax(logits, exp);
    topResults := RankLabels(labels, probabilities);
  }

  /** Three classes scored 0.659, 0.242 and 0.099, asked for their top two:
      the two most probable, best first. */
  lemma TopTwoExample()
    ensures GetTopKResults([Entry("cat", 0.659), Entry("dog", 0.242), Entry("bird", 0.099)], 2)
            == Success([Entry("cat", 0.659), Entry("dog", 0.242)])
  {
    TopTwoOfRanked(Entry("cat", 0.659), Entry("dog", 0.242), Entry("bird", 0.099));
  }

  lemma TopTwoOfRanked(x: Entry, y: Entry, z: Entry)
    requires x.score >= y.score >= z.score
    ensures GetTopKResults([x, y, z], 2) == Success([x, y])
  {
    RankedThree(x, y, z);
    TopKOfRanked([x, y, z], 2);
  }

  lemma RankedThree(x: Entry, y: Entry, z: Entry)
    requires x.score >= y.score >= z.score
    ensures Descending([x, y, z])
    ensures [x, y, z][..Min(2, 3)] == [x, y]
  {
  }
}
