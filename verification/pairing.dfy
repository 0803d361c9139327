/** The loop of `runTFLiteInference` that pairs each label with the
    probability at the same index and stores the pair in an
    insertion-ordered map. */
module Pairing {
  import opened Wrappers
  import opened Entries
  import opened LinkedMap

  /** Index of the first occurrence of `x` in `s`. */
  function FirstIndex<T(==)>(s: seq<T>, x: T): (i: nat)
    requires x in s
    ensures i < |s| && s[i] == x && x !in s[..i]
  {
    if s[0] == x then 0
    else
      var k := FirstIndex(s[1..], x);
      assert s[..k + 1] == [s[0]] + s[1..][..k];
      k + 1
  }

  /** Index of the last occurrence of `x` in `s`. */
  function LastIndex<T(==)>(s: seq<T>, x: T): (i: nat)
    requires x in s
    ensures i < |s| && s[i] == x && x !in s[i + 1..]
  {
    var n := |s| - 1;
    if s[n] == x then n
    else
      assert x in s[..n] by {
        var j :| 0 <= j < |s| && s[j] == x;
        assert s[..n][j] == x;
      }
      var k := LastIndex(s[..n], x);
      assert s[k + 1..] == s[..n][k + 1..] + [s[n]];
      k
  }

  lemma FirstIndexAppend<T>(t: seq<T>, y: T, k: T)
    requires k in t
    ensures k in t + [y] && FirstIndex(t + [y], k) == FirstIndex(t, k)
  {
    assert (t + [y])[FirstIndex(t, k)] == k;
  }

  lemma FirstIndexAppendNew<T>(t: seq<T>, y: T)
    requires y !in t
    ensures y in t + [y] && FirstIndex(t + [y], y) == |t|
  {
  }

  /** The elements of `ls` appear in the order of their first occurrences
      in `s`. */
  predicate FirstOccurrenceOrder<T(==)>(ls: seq<T>, s: seq<T>)
  {
    forall a, b :: 0 <= a < b < |ls| ==>
      && ls[a] in s && ls[b] in s
      && FirstIndex(s, ls[a]) < FirstIndex(s, ls[b])
  }

  /** `m` is what the pairing loop has built once it has read the labels
      `t`, each paired with the probability at the same index. */
  ghost predicate PairingOf(m: seq<Entry>, t: seq<Label>, probabilities: seq<Score>)
    requires |t| <= |probabilities|
  {
    && UniqueLabels(m)
    && (forall k :: k in LabelsOf(m) <==> k in t)
    && (forall k :: k in t ==> Get(m, k) == Some(probabilities[LastIndex(t, k)]))
    && FirstOccurrenceOrder(LabelsOf(m), t)
    && |m| <= |t|
    && (Distinct(t) ==> |m| == |t|)
  }

  /** `labeledProbability` after `for (i in labels.indices)` has stored
      `labels[i] -> probabilities[i]` for every index below both lengths.
      With `n` the smaller length: the keys are exactly the first `n`
      labels, each key holds the probability at its LAST occurrence (a later
      duplicate overwrites), the entries run in the order of each key's
      FIRST occurrence (an overwritten key keeps its place), and there is
      one entry per distinct label: at most `n`, exactly `n` when those
      labels are distinct. Only the first `n` of either list is read, and no
      index is out of range. */
  method PairLabels(labels: seq<Label>, probabilities: seq<Score>) returns (m: seq<Entry>)
    ensures UniqueLabels(m)
    ensures forall k :: k in LabelsOf(m) <==> k in labels[..Min(|labels|, |probabilities|)]
    ensures forall k :: k in labels[..Min(|labels|, |probabilities|)] ==>
              Get(m, k) == Some(probabilities[LastIndex(labels[..Min(|labels|, |probabilities|)], k)])
    ensures FirstOccurrenceOrder(LabelsOf(m), labels[..Min(|labels|, |probabilities|)])
    ensures |m| <= Min(|labels|, |probabilities|)
    ensures Distinct(labels[..Min(|labels|, |probabilities|)]) ==> |m| == Min(|labels|, |probabilities|)
    ensures |m| == |set k | k in labels[..Min(|labels|, |probabilities|)]|
  {
    m := [];
    for i := 0 to |labels|
      invariant m == PairedUpTo(labels, probabilities, i)
    {
      PairedUpToStep(labels, probabilities, i);
      if i < |probabilities| {
        m := Put(m, labels[i], probabilities[i]);
      }
    }
    PairedUpToIsPairing(labels, probabilities, |labels|);
    PairingFacts(m, labels[..Min(|labels|, |probabilities|)], probabilities);
    KeysCount(m, labels[..Min(|labels|, |probabilities|)]);
  }

  /** The map after the first `n` turns of the pairing loop. */
  function PairedUpTo(labels: seq<Label>, probabilities: seq<Score>, n: nat): (m: seq<Entry>)
    requires n <= |labels|
    ensures UniqueLabels(m)
  {
    if n == 0 then []
    else
      var m := PairedUpTo(labels, probabilities, n - 1);
      if n - 1 < |probabilities| then Put(m, labels[n - 1], probabilities[n - 1]) else m
  }

  /** One more turn of the loop. */
  lemma PairedUpToStep(labels: seq<Label>, probabilities: seq<Score>, i: nat)
    requires i < |labels|
    ensures i < |probabilities| ==>
              PairedUpTo(labels, probabilities, i + 1) == Put(PairedUpTo(labels, probabilities, i), labels[i], probabilities[i])
    ensures i >= |probabilities| ==>
              PairedUpTo(labels, probabilities, i + 1) == PairedUpTo(labels, probabilities, i)
  {
  }

  /** After `n` turns the map pairs exactly the labels read so far: those
      below `n` and below the number of probabilities. */
  lemma {:induction false} PairedUpToIsPairing(labels: seq<Label>, probabilities: seq<Score>, n: nat)
    requires n <= |labels|
    ensures PairingOf(PairedUpTo(labels, probabilities, n), labels[..Min(n, |probabilities|)], probabilities)
  {
    if n == 0 {
      PairingEmpty(labels, probabilities);
    } else {
      PairedUpToIsPairing(labels, probabilities, n - 1);
      PairingStep(PairedUpTo(labels, probabilities, n - 1), labels, probabilities, n);
    }
  }

  /** Before the loop: the empty map pairs no labels. */
  lemma PairingEmpty(labels: seq<Label>, probabilities: seq<Score>)
    ensures PairingOf([], labels[..Min(0, |probabilities|)], probabilities)
  {
  }

  /** Turn `n` of the loop (reading index `n - 1`): below both lengths it
      stores `labels[n - 1]` with `probabilities[n - 1]`; past the
      probabilities it reads nothing. */
  lemma PairingStep(m: seq<Entry>, labels: seq<Label>, probabilities: seq<Score>, n: nat)
    requires 0 < n <= |labels|
    requires PairingOf(m, labels[..Min(n - 1, |probabilities|)], probabilities)
    ensures UniqueLabels(m)
    ensures n - 1 < |probabilities| ==>
              PairingOf(Put(m, labels[n - 1], probabilities[n - 1]), labels[..Min(n, |probabilities|)], probabilities)
    ensures n - 1 >= |probabilities| ==>
              PairingOf(m, labels[..Min(n, |probabilities|)], probabilities)
  {
    var i := n - 1;
    if i < |probabilities| {
      assert labels[..Min(i, |probabilities|)] == labels[..i];
      assert labels[..Min(n, |probabilities|)] == labels[..i] + [labels[i]];
      PutExtendsPairing(m, labels[..i], labels[i], probabilities);
    } else {
      assert Min(n, |probabilities|) == Min(i, |probabilities|);
    }
  }

  /** What `PairingOf` says, clause by clause. */
  lemma PairingFacts(m: seq<Entry>, t: seq<Label>, probabilities: seq<Score>)
    requires |t| <= |probabilities| && PairingOf(m, t, probabilities)
    ensures UniqueLabels(m)
    ensures forall k :: k in LabelsOf(m) <==> k in t
    ensures forall k :: k in t ==> Get(m, k) == Some(probabilities[LastIndex(t, k)])
    ensures FirstOccurrenceOrder(LabelsOf(m), t)
    ensures |m| <= |t|
    ensures Distinct(t) ==> |m| == |t|
  {
  }

  /** A map whose keys are the labels of `t` holds one entry per distinct
      label of `t`. */
  lemma KeysCount(m: seq<Entry>, t: seq<Label>)
    requires UniqueLabels(m)
    requires forall k :: k in LabelsOf(m) <==> k in t
    ensures |m| == |set k | k in t|
  {
    var ls := LabelsOf(m);
    DistinctCount(ls);
    assert (set k | k in ls) == (set k | k in t);
  }

  /** A sequence without repetitions has as many distinct elements as
      positions. */
  lemma {:induction false} DistinctCount<T>(s: seq<T>)
    requires Distinct(s)
    ensures |set x | x in s| == |s|
  {
    if s != [] {
      assert Distinct(s[1..]);
      DistinctCount(s[1..]);
      assert s[0] !in s[1..];
      assert (set x | x in s) == {s[0]} + (set x | x in s[1..]);
    }
  }

  /** One turn of the pairing loop: storing the next label with the
      probability at its index extends the pairing by that label. */
  lemma PutExtendsPairing(m: seq<Entry>, t: seq<Label>, l: Label, probabilities: seq<Score>)
    requires |t| < |probabilities|
    requires PairingOf(m, t, probabilities)
    ensures PairingOf(Put(m, l, probabilities[|t|]), t + [l], probabilities)
  {
    PutKeepsLastValues(m, t, l, probabilities);
    PutLabels(m, l, probabilities[|t|]);
    OrderStep(LabelsOf(m), LabelsOf(Put(m, l, probabilities[|t|])), t, l);
    PutKeepsDistinctSize(m, t, l, probabilities[|t|]);
  }

  /** After a turn every key read so far holds the probability of its last
      occurrence: the new label's own, or the value it had before. */
  lemma PutKeepsLastValues(m: seq<Entry>, t: seq<Label>, l: Label, probabilities: seq<Score>)
    requires |t| < |probabilities|
    requires UniqueLabels(m)
    requires forall k :: k in t ==> Get(m, k) == Some(probabilities[LastIndex(t, k)])
    ensures forall k :: k in t + [l] ==>
              Get(Put(m, l, probabilities[|t|]), k) == Some(probabilities[LastIndex(t + [l], k)])
  {
  }

  /** A turn with a label not read before adds an entry. */
  lemma PutKeepsDistinctSize(m: seq<Entry>, t: seq<Label>, l: Label, v: Score)
    requires UniqueLabels(m)
    requires forall k :: k in LabelsOf(m) <==> k in t
    requires Distinct(t) ==> |m| == |t|
    ensures Distinct(t + [l]) ==> |Put(m, l, v)| == |t| + 1
  {
    var s := t + [l];
    if Distinct(s) {
      assert Distinct(t) by {
        forall a, b | 0 <= a < b < |t|
          ensures t[a] != t[b]
        {
          assert s[a] == t[a] && s[b] == t[b];
        }
      }
      assert l !in t by {
        forall a | 0 <= a < |t|
          ensures t[a] != l
        {
          assert s[a] == t[a] && s[|t|] == l;
        }
      }
    }
  }

  /** One turn of the pairing loop keeps first-occurrence order: the labels
      of the map either stay as they were or gain the new label at the end. */
  lemma OrderStep<T>(ls: seq<T>, ls': seq<T>, t: seq<T>, l: T)
    requires forall k :: k in ls <==> k in t
    requires FirstOccurrenceOrder(ls, t)
    requires l in t ==> ls' == ls
    requires l !in t ==> ls' == ls + [l]
    ensures FirstOccurrenceOrder(ls', t + [l])
  {
    forall a, b | 0 <= a < b < |ls'|
      ensures ls'[a] in t + [l] && ls'[b] in t + [l]
      ensures FirstIndex(t + [l], ls'[a]) < FirstIndex(t + [l], ls'[b])
    {
      assert ls'[a] == ls[a];
      FirstIndexAppend(t, l, ls[a]);
      if b < |ls| {
        assert ls'[b] == ls[b];
        FirstIndexAppend(t, l, ls[b]);
      } else {
        FirstIndexAppendNew(t, l);
      }
    }
  }
}
