/** `getTopKResults`: the entries of the label map, best first, cut to the
    requested count. */
module TopK {
  import opened Wrappers
  import opened Entries
  import opened StableSort

  /** The count `runTFLiteInference` passes to `getTopKResults`. */
  const TopKCount: int := 10

  /** `List.take` refuses a negative count with an IllegalArgumentException. */
  datatype TakeError = NegativeCount(requested: int)

  /** `List.take(n)`: the first `n` elements, or all of them when there are
      fewer; a negative `n` is an error. */
  function Take(s: seq<Entry>, n: int): (r: Result<seq<Entry>, TakeError>)
    ensures r.Failure? <==> n < 0
    ensures r.Failure? ==> r.error == NegativeCount(n)
    ensures r.Success? ==> r.value <= s && |r.value| == Min(n, |s|)
    ensures r.Success? ==> multiset(r.value) <= multiset(s)
  {
    if n < 0 then Failure(NegativeCount(n))
    else
      PrefixMultiset(s, Min(n, |s|));
      Success(s[..Min(n, |s|)])
  }

  /** `getTopKResults(labeledProbability, topK)`: sort the entry list by
      descending score, then take `min(topK, size)` of them. The result has
      exactly that many entries, is non-increasing by score and holds
      entries of the map; a negative `topK` is the error `take` raises. */
  function GetTopKResults(labeledProbability: seq<Entry>, topK: int): (r: Result<seq<Entry>, TakeError>)
    ensures r.Failure? <==> topK < 0
    ensures r.Success? ==> |r.value| == Min(topK, |labeledProbability|)
    ensures r.Success? ==> Descending(r.value)
    ensures r.Success? ==> multiset(r.value) <= multiset(labeledProbability)
  {
    var sortedResults := Sort(labeledProbability);
    Take(sortedResults, Min(topK, |sortedResults|))
  }

  lemma PrefixMultiset(s: seq<Entry>, n: nat)
    requires n <= |s|
    ensures multiset(s) == multiset(s[..n]) + multiset(s[n..])
  {
    assert s == s[..n] + s[n..];
  }

  /** Every label appears at most once in the result, as in the map. */
  lemma TopKUniqueLabels(labeledProbability: seq<Entry>, topK: int)
    requires topK >= 0 && UniqueLabels(labeledProbability)
    ensures UniqueLabels(GetTopKResults(labeledProbability, topK).value)
  {
    SortKeepsUniqueLabels(labeledProbability);
  }

  /** The result is the first `min(topK, size)` entries of the stable
      descending sort of the map's entries. */
  lemma TopKIsSortPrefix(labeledProbability: seq<Entry>, topK: int)
    requires topK >= 0
    ensures var r := GetTopKResults(labeledProbability, topK);
            r.Success? && r.value <= Sort(labeledProbability)
  {
  }

  /** Ties keep the map's order: for every score, the returned entries with
      that score are the first few of the map's entries with that score, in
      the map's order. */
  lemma TopKKeepsTieOrder(labeledProbability: seq<Entry>, topK: int, v: Score)
    requires topK >= 0
    ensures Ties(GetTopKResults(labeledProbability, topK).value, v) <= Ties(labeledProbability, v)
  {
    var sorted := Sort(labeledProbability);
    SortTies(labeledProbability, v);
    TiesOfPrefix(sorted, Min(topK, |sorted|), v);
  }

  /** The result really is the top: every entry left out scores at most as
      much as every entry returned. */
  lemma TopKSelectsHighest(labeledProbability: seq<Entry>, topK: int, x: Entry, i: nat)
    requires topK >= 0
    requires x in multiset(labeledProbability) - multiset(GetTopKResults(labeledProbability, topK).value)
    requires i < |GetTopKResults(labeledProbability, topK).value|
    ensures x.score <= GetTopKResults(labeledProbability, topK).value[i].score
  {
    var sorted := Sort(labeledProbability);
    var n := Min(topK, |sorted|);
    PrefixMultiset(sorted, n);
    assert x in multiset(sorted[n..]);
    var p :| 0 <= p < |sorted[n..]| && sorted[n..][p] == x;
    assert sorted[i].score >= sorted[n + p].score;
  }

  /** Asking for at least as many entries as the map holds returns all of
      them, reordered, with no padding and no error. */
  lemma TopKAllIsPermutation(labeledProbability: seq<Entry>, topK: int)
    requires topK >= |labeledProbability|
    ensures var r := GetTopKResults(labeledProbability, topK);
            r.Success? && multiset(r.value) == multiset(labeledProbability)
            && r.value == Sort(labeledProbability)
  {
    var sorted := Sort(labeledProbability);
    var r := GetTopKResults(labeledProbability, topK);
    assert r.value <= sorted && |r.value| == |sorted|;
    assert r.value == sorted;
    assert multiset(sorted) == multiset(labeledProbability);
  }

  /** A map whose entries are already ranked gives its first `topK`
      entries, in map order. */
  lemma TopKOfRanked(labeledProbability: seq<Entry>, topK: int)
    requires topK >= 0 && Descending(labeledProbability)
    ensures GetTopKResults(labeledProbability, topK)
            == Success(labeledProbability[..Min(topK, |labeledProbability|)])
  {
    SortOfDescending(labeledProbability);
  }
}
