/** The insertion-ordered map (`mutableMapOf`, a `LinkedHashMap`) that holds
    the label/probability pairs, as the list of its entries in iteration
    order. Keys are unique; overwriting a key keeps its position. */
module LinkedMap {
  import opened Wrappers
  import opened Entries

  /** Position of the entry for `l`, if there is one. */
  function IndexOf(m: seq<Entry>, l: Label): (r: Option<nat>)
    ensures r.None? <==> l !in LabelsOf(m)
    ensures r.Some? ==> r.value < |m| && m[r.value].name == l
    ensures r.Some? ==> l !in LabelsOf(m[..r.value])
  {
    if m == [] then None
    else if m[0].name == l then
      assert LabelsOf(m)[0] == l;
      Some(0)
    else
      var rest := IndexOf(m[1..], l);
      assert LabelsOf(m) == [m[0].name] + LabelsOf(m[1..]);
      match rest
      case None => None
      case Some(k) =>
        assert LabelsOf(m[..k + 1]) == [m[0].name] + LabelsOf(m[1..][..k]);
        Some(k + 1)
  }

  /** `map[l]`: the value stored for `l`, or nothing. */
  function Get(m: seq<Entry>, l: Label): (r: Option<Score>)
    requires UniqueLabels(m)
    ensures r.None? <==> l !in LabelsOf(m)
    ensures forall i :: 0 <= i < |m| && m[i].name == l ==> r == Some(m[i].score)
  {
    match IndexOf(m, l)
    case None =>
      assert forall i :: 0 <= i < |m| ==> LabelsOf(m)[i] != l;
      None
    case Some(i) => Some(m[i].score)
  }

  /** `map[l] = v` on a `LinkedHashMap`: an existing key has its value
      replaced where it stands, a new key is appended at the end. */
  function Put(m: seq<Entry>, l: Label, v: Score): (r: seq<Entry>)
    requires UniqueLabels(m)
    ensures UniqueLabels(r)
    ensures Get(r, l) == Some(v)
    ensures forall k :: k != l ==> Get(r, k) == Get(m, k)
    ensures |r| == if l in LabelsOf(m) then |m| else |m| + 1
  {
    match IndexOf(m, l)
    case Some(i) =>
      var r := m[i := Entry(l, v)];
      assert LabelsOf(r) == LabelsOf(m);
      assert LabelsOf(m)[i] == l;
      r
    case None =>
      var r := m + [Entry(l, v)];
      assert LabelsOf(r) == LabelsOf(m) + [l];
      assert forall i :: 0 <= i < |m| ==> LabelsOf(m)[i] != l;
      r
  }

  /** Where `Put` leaves the keys: an existing key keeps its position and
      the others theirs; a new key goes after all the others. */
  lemma PutLabels(m: seq<Entry>, l: Label, v: Score)
    requires UniqueLabels(m)
    ensures l in LabelsOf(m) ==> LabelsOf(Put(m, l, v)) == LabelsOf(m)
    ensures l !in LabelsOf(m) ==> LabelsOf(Put(m, l, v)) == LabelsOf(m) + [l]
  {
  }
}
