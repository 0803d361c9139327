# Ranking tail of an on-device image classifier

The app runs a TensorFlow Lite image classifier and shows its best guesses.
Once the model has produced one raw score (logit) per class,
`runTFLiteInference` does three things:

1. It normalises the logits with `softmax`.
2. It pairs the i-th label with the i-th probability in a `mutableMapOf`.
   That map is an insertion-ordered `LinkedHashMap`. Indices past the
   probability array are skipped.
3. It asks `getTopKResults` for the best ten entries. That function sorts the
   map's entries by descending probability with the stable
   `sortedByDescending` and keeps the first `min(topK, size)` of them.

This project models those three steps in Dafny and proves what they
guarantee.

Modules, one per concept:

- `Entries`: a ranked entry, a `(label, score)` pair, together with the
  orderings used to talk about rankings:
  - `Descending`;
  - `UniqueLabels`;
  - `Ties(s, v)`, the subsequence of entries scoring `v`;
  - `StableDescendingSortOf`, the contract of `sortedByDescending`.
- `LinkedMap`: the insertion-ordered map, held as its entry list with
  unique keys. `Put` replaces the value of an existing key where it stands
  and appends a new key at the end.
- `Pairing`: the pairing loop as a method with a loop invariant. The
  invariant is `PairedUpTo`, the loop's map after `n` turns. Its independent
  characterization is `PairingOf`: keys, last-occurrence values,
  first-occurrence order and size.
- `StableSort`: the sort as a functional insertion sort. It is proved to be
  a stable sort by descending score, and every stable descending sort is
  proved to produce the same list. So the result does not depend on the
  sorting algorithm Kotlin uses.
- `TopK`: `List.take` and `getTopKResults`. Both return a `Result`,
  because `take` with a negative count throws.
- `Normalizer`: `softmax` over exact reals, with `exp` passed in as a
  parameter.
- `Pipeline`: the whole tail, from logits to the ranked list that is
  displayed.

The model follows the code in three places where a reader might expect
otherwise:

- Pairing goes through a map. A label that occurs twice therefore keeps only
  the probability of its LAST occurrence, at the position of its FIRST
  occurrence. The ranking then holds `min(k, distinct labels paired)` entries.
  That is fewer than `min(k, pairs)` when a label repeats and fewer than `k`
  distinct labels are paired (`Pipeline.RankLabels`).
- Equal scores are ordered by the map's iteration order, which is the order
  of first occurrence. That order is not the order of the pairs' indices.
- `getTopKResults` with a negative `topK` does not return an empty list. It
  fails, because `take` rejects a negative count
  (`TopK.NegativeCount`). The app always passes 10.

## Model

| member | source | states |
|---|---|---|
| LinkedMap.Put | app/src/main/java/com/example/mlkitimageapp/MainActivity.kt:108 | `map[label] = p` on a LinkedHashMap: afterwards the key maps to `p`, every other key keeps its value, keys stay unique, and the map grows by one exactly when the key is new |
| LinkedMap.PutLabels | app/src/main/java/com/example/mlkitimageapp/MainActivity.kt:105-108 | storing into an existing key leaves the iteration order untouched; a new key goes last |
| Pairing.PairLabels | app/src/main/java/com/example/mlkitimageapp/MainActivity.kt:105-110 | the loop reads only indices below both lengths. With `n` the smaller length, its keys are exactly the first `n` labels, and each key holds the probability at its last occurrence among them. The keys run in first-occurrence order. There is one entry per distinct label among them: at most `n`, and exactly `n` when those labels are distinct |
| Pairing.PairedUpToIsPairing | app/src/main/java/com/example/mlkitimageapp/MainActivity.kt:105-110 | after any number of turns the map holds exactly the pairing of the labels read so far (keys, last-occurrence values, first-occurrence order, size bounds) |
| Pairing.PairingStep | app/src/main/java/com/example/mlkitimageapp/MainActivity.kt:106-108 | one turn either stores `labels[i] -> probabilities[i]` and extends the pairing by that label, or, past the end of the probabilities, leaves it as it was |
| Pairing.PutExtendsPairing | app/src/main/java/com/example/mlkitimageapp/MainActivity.kt:108 | storing the next label with its probability turns the pairing of `t` into the pairing of `t + [label]` |
| Pairing.PutKeepsLastValues | app/src/main/java/com/example/mlkitimageapp/MainActivity.kt:108 | a later duplicate label overwrites the earlier value; every other key keeps the value of its own last occurrence |
| Pairing.PutKeepsDistinctSize | app/src/main/java/com/example/mlkitimageapp/MainActivity.kt:108 | while the labels read are distinct, every turn adds one entry |
| Pairing.OrderStep | app/src/main/java/com/example/mlkitimageapp/MainActivity.kt:105-108 | overwriting keeps a key's first position and a new key is appended, so the keys stay in first-occurrence order |
| Pairing.KeysCount | app/src/main/java/com/example/mlkitimageapp/MainActivity.kt:105-110 | a map whose keys are exactly the labels read holds one entry per distinct label |
| StableSort.Insert | app/src/main/java/com/example/mlkitimageapp/MainActivity.kt:123 | inserting into a descending list keeps it descending and adds exactly the one entry |
| StableSort.InsertTies | app/src/main/java/com/example/mlkitimageapp/MainActivity.kt:123 | the inserted entry goes ahead of the entries of equal score that are already placed |
| StableSort.Sort | app/src/main/java/com/example/mlkitimageapp/MainActivity.kt:123 | the sorted list is non-increasing by score and is a permutation of the entry list |
| StableSort.SortTies | app/src/main/java/com/example/mlkitimageapp/MainActivity.kt:123 | the sort is stable: for every score, the entries with that score keep their order in the map |
| StableSort.SortIsStableDescendingSort | app/src/main/java/com/example/mlkitimageapp/MainActivity.kt:123 | the sort meets the whole contract of `sortedByDescending`: descending and stable |
| StableSort.DescendingTiesUnique | app/src/main/java/com/example/mlkitimageapp/MainActivity.kt:123 | two descending lists with the same entries for every score are the same list |
| StableSort.StableSortUnique | app/src/main/java/com/example/mlkitimageapp/MainActivity.kt:123 | every stable descending sort of the entries gives exactly the modelled result, whatever the algorithm |
| StableSort.SortOfDescending | app/src/main/java/com/example/mlkitimageapp/MainActivity.kt:123 | entries already in descending order are left in place |
| StableSort.SortKeepsUniqueLabels | app/src/main/java/com/example/mlkitimageapp/MainActivity.kt:123 | sorting a map's entries keeps its labels unique |
| TopK.Take | app/src/main/java/com/example/mlkitimageapp/MainActivity.kt:124 | `take(n)` fails exactly for a negative `n`; otherwise it gives a prefix of length `min(n, size)` |
| TopK.GetTopKResults | app/src/main/java/com/example/mlkitimageapp/MainActivity.kt:122-125 | fails exactly for a negative `topK`. Otherwise the result has `min(topK, size)` entries, is non-increasing by score, and is drawn from the map's entries |
| TopK.TopKIsSortPrefix | app/src/main/java/com/example/mlkitimageapp/MainActivity.kt:123-124 | the result is a prefix of the stable sort of the entries |
| TopK.TopKKeepsTieOrder | app/src/main/java/com/example/mlkitimageapp/MainActivity.kt:123-124 | for every score, the returned entries with that score are the first few of the map's entries with that score, in map order |
| TopK.TopKSelectsHighest | app/src/main/java/com/example/mlkitimageapp/MainActivity.kt:123-124 | every entry left out scores no more than every entry returned |
| TopK.TopKUniqueLabels | app/src/main/java/com/example/mlkitimageapp/MainActivity.kt:123-124 | no label appears twice in the result |
| TopK.TopKAllIsPermutation | app/src/main/java/com/example/mlkitimageapp/MainActivity.kt:124 | asking for at least as many entries as the map holds returns all of them, reordered, with no padding and no error |
| TopK.TopKOfRanked | app/src/main/java/com/example/mlkitimageapp/MainActivity.kt:122-125 | a map that is already ranked gives its first `topK` entries |
| Normalizer.MaxOrNull | app/src/main/java/com/example/mlkitimageapp/MainActivity.kt:128 | `maxOrNull` is absent exactly for an empty array; otherwise it is an element at least as large as every element |
| Normalizer.Softmax | app/src/main/java/com/example/mlkitimageapp/MainActivity.kt:127-132 | one output per logit, each in [0, 1]; empty in gives empty out |
| Normalizer.DenominatorAtLeastOne | app/src/main/java/com/example/mlkitimageapp/MainActivity.kt:128-130 | after subtracting the maximum, the sum of exponentials is at least 1, so the division never divides by zero |
| Normalizer.SoftmaxSumsToOne | app/src/main/java/com/example/mlkitimageapp/MainActivity.kt:127-132 | for a non-empty input the probabilities add up to 1 |
| Normalizer.SoftmaxShiftInvariant | app/src/main/java/com/example/mlkitimageapp/MainActivity.kt:127-132 | adding a constant to every logit leaves the probabilities unchanged |
| Normalizer.SoftmaxPreservesOrder | app/src/main/java/com/example/mlkitimageapp/MainActivity.kt:127-132 | with an increasing `exp`, a larger logit never gets a smaller probability |
| Pipeline.RankLabels | app/src/main/java/com/example/mlkitimageapp/MainActivity.kt:105-112 | pairing followed by `getTopKResults(labeledProbability, 10)`. With `s` the paired labels, the result has exactly `min(10, distinct labels of s)` entries, so `min(10, pairs)` when they are distinct. It is descending with unique labels. Each entry is a label of `s` with the probability of its last occurrence, and no label of `s` that is left out scores more than any returned entry. Equal scores keep first-occurrence order, and at the cut-off the tied label that occurs first wins |
| Pipeline.RankedEntriesArePaired | app/src/main/java/com/example/mlkitimageapp/MainActivity.kt:108-112 | every entry of the top ten is a paired label carrying the probability of its last occurrence |
| Pipeline.RankSelectsHighest | app/src/main/java/com/example/mlkitimageapp/MainActivity.kt:112-124 | a paired label missing from the top ten scores no more than any entry in it |
| Pipeline.RankTieOrder | app/src/main/java/com/example/mlkitimageapp/MainActivity.kt:105-124 | of two returned entries with equal scores, the one whose label occurs first among the paired labels comes first, because the stable sort keeps the map's first-occurrence order |
| Pipeline.RankCutOffTie | app/src/main/java/com/example/mlkitimageapp/MainActivity.kt:105-124 | a paired label left out with the same score as a returned entry occurs first after that entry's label: ties at the tenth place go to the earlier label |
| Pipeline.Classify | app/src/main/java/com/example/mlkitimageapp/MainActivity.kt:103-112 | from logits to the displayed ranking: everything `RankLabels` promises, with `softmax(logits)` as the probabilities: exact count, descending, unique labels, provenance, top selection, tie order and the tie at the cut-off. Every score is a probability in [0, 1] |
| Pipeline.TopTwoExample | app/src/main/java/com/example/mlkitimageapp/MainActivity.kt:122-125 | cat 0.659, dog 0.242, bird 0.099 asked for two give cat then dog |

## Left out

- The activity lifecycle, window insets, views, the pick-image intent,
  `onActivityResult`, toasts and logging (MainActivity.kt:35-83, 118-119)
  are not part of this model. They are UI and OS plumbing.
- Loading the model and the label file through `FileUtil` and
  `Interpreter` (MainActivity.kt:50-58) is file I/O. The labels arrive as a
  parameter.
- Reading the input tensor's shape, the bilinear `ResizeOp`, `TensorBuffer`
  allocation and `tflite.run` (MainActivity.kt:86-101) are calls into a
  library whose code is not visible here. The logits arrive as a parameter.
- The `%.2f` percentage text of each result (MainActivity.kt:114-116) is
  presentation only.
- Scores are exact reals rather than 32-bit floats. Rounding, overflow of
  `exp`, NaN and the ordering of `-0.0` by `Float.compareTo` are not
  modelled.
- Normalizer.Softmax: `exp` is a parameter that only has to satisfy
  `exp(0) = 1` and `exp(x) >= 0`. The sum-to-one and shift-invariance
  lemmas are exact-arithmetic statements, not statements about the float
  results.
- The sorting algorithm: the model sorts by insertion, not with Kotlin's TimSort. Because
  `StableSortUnique` shows that every stable descending sort gives the same
  list, the algorithm makes no difference to the result.
