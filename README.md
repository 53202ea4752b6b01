# Random tree generator: a verified model

This project models the statistical core of the random tree generator
(`RandomGenerator` in `tgen/randgen.py`). The generator learns from aligned
pairs of dependency trees and dialogue acts (DAs). From these pairs it
builds three tables:

- `form_counts`: for each DA item and each parent formeme, how often each
  child entry (formeme, lemma, side) was seen;
- `child_cdfs`: for each formeme, a cumulative distribution over how many
  children its nodes had;
- `max_children`: for each formeme, the largest child count seen.

It then uses the tables in three ways:

- It merges the attachment counts of a DA's items into CDFs (cumulative
  distribution functions).
- It samples a child entry or a number of children from a CDF.
- It lists every one-node expansion (successor) of a candidate tree.

The project has seven modules:

- `Base` (base.dfy): labels, DA items, child entries, a typed `Error` for
  every failure the code can raise, `Option` and `Result`.
- `Counters` (counters.dfy): Python's `Counter`, as an association list.
  The list fixes an order of the keys, the model's counter order: a new key
  is added at the end, so keys stay in the order they were first counted.
  This order is the model's choice (see "Left out"). It covers `c[k] += n`
  and `Counter.update`.
- `Distributions` (distributions.dfy):
  - `cdfs_from_counts` as a loop method, proved equal to the reference CDF
    `CdfOf`, with the properties of `CdfOf` proved as lemmas;
  - `sample` as a first-hit scan, proved equal to `SampleOf`.
- `Training` (training.dfy): the counting loops of `train`. They are proved
  equal to left folds over the corpus. Each table entry is proved equal to
  an independent count over the corpus.
- `Merging` (merging.dfy): the merge loop of `get_merged_cdfs`. It is
  proved equal to a fold. Its counts are proved to be sums over the DA items
  that do not depend on item order.
- `Successors` (successors.dfy): successor expansion.
  - A candidate tree is its surface-ordered node list, root included. Each
    node stores its parent's position.
  - `Insert` adds one child and shifts the positions after it.
  - `PlanOf` says which (node, entry) pairs are expanded and in which order.
  - `CopyWithChild` builds one successor as a fresh array.
- `RandGen` (randgen.dfy): the `RandomGenerator` class with its three
  fields, and `train`, `get_merged_cdfs`, `get_number_of_children`,
  `get_best_child` and `get_all_sucessors` as methods that read or replace
  those fields. It also models, abstractly, the stored model: three
  records written and read in order.

The random draw is a parameter `u`, standing for the value of
`random.random()`. Tree and DA reading are left out: `train` receives the
already-read pairs.

Some behaviours of the code differ from what a reader might expect. The
model follows the code:

- Line 118 skips a node only when it has more children than its maximum. A
  node already at the maximum is still expanded, although one might expect
  a node at its maximum to be closed.
- A formeme missing from `max_children` or from the merged CDFs fails the
  lookup (`UnknownMaxChildren`, `UnknownCdf`). It is not treated as a cap
  of 0.
- An empty counter gives the empty CDF without error (lines 84-91). Only a
  non-empty counter that sums to 0 would divide by zero. Training never
  produces one. No error is raised for an empty map as such.
- Training pairs are what Python's `zip` yields, so the shorter input
  decides how many there are. A length mismatch is not an error.
- Reordering a DA's items leaves the merged counts unchanged
  (`Merging.MergeOfPermutation`). In the model's counter order, a
  reordering can change the order of keys in a merged CDF, because a
  counter lists its keys in the order they were first added; the same draw
  can then give a different key, although each key's probability is
  unchanged. This is a property of the model's counter order. It is not
  shown for the program, whose counters iterate in hash order.
- The stored model carries no version tag.

## Model

| member | source | states |
|---|---|---|
| Counters.Add | tgen/randgen.py:63 | the definition of `c[k] += n` on the association list: an existing key's count grows in place, a new key is appended; its counts are stated by `AddGet`, its key order by `AddKeys` |
| Counters.Update | tgen/randgen.py:77 | the definition of `Counter.update`: the argument's entries are added one at a time, in its order; stated by `UpdateGet` and `UpdateValid` |
| Counters.AddGet | tgen/randgen.py:63 | `c[k] += n` raises the count of `k` by `n` and leaves every other count unchanged |
| Counters.AddKeys | tgen/randgen.py:63 | in the model's counter order, a new key goes to the end and an existing key keeps its place |
| Counters.AddValid | tgen/randgen.py:63 | adding a positive count keeps keys distinct and counts positive |
| Counters.UpdateGet | tgen/randgen.py:77 | `Counter.update` adds the counts of its argument to each key's count |
| Counters.UpdateValid | tgen/randgen.py:77 | updating a valid counter with positive counts keeps it valid |
| Counters.GetPositive | tgen/randgen.py:63 | in a counter with positive counts, a key is present exactly when its count is positive |
| Counters.PrefixIncreasing | tgen/randgen.py:84-88 | with positive counts, the running total strictly increases along the counter |
| Counters.PrefixMonotone | tgen/randgen.py:84-88 | the running total never decreases and never exceeds the total |
| Distributions.CdfOf | tgen/randgen.py:84-91 | the CDF has one entry per counter key, in the model's counter order |
| Distributions.CdfFromCounter | tgen/randgen.py:84-91 | one counter's running totals divided by the last total are exactly `CdfOf`; it fails with a division by zero exactly when the counter is non-empty and sums to 0 |
| Distributions.CdfsFromCounts | tgen/randgen.py:80-92 | the result has exactly the input's keys, and each value is the counter's normalised running-total CDF; it fails with a division by zero exactly when some non-empty counter sums to 0; an empty counter gives the empty CDF |
| Distributions.CdfOfMonotone | tgen/randgen.py:84-90 | the bounds never decrease and lie in [0, 1] |
| Distributions.CdfOfIncreasing | tgen/randgen.py:84-90 | with positive counts the bounds strictly increase and are above 0 |
| Distributions.CdfOfLast | tgen/randgen.py:90 | the last bound of a non-empty CDF is exactly 1, as `tot / tot` |
| Distributions.CdfOfMass | tgen/randgen.py:87-90 | the step at each entry is that entry's share of the total count |
| Distributions.FirstAbove | tgen/randgen.py:98-100 | the index returned is the first whose bound is strictly above the draw, or the length when there is none |
| Distributions.Sample | tgen/randgen.py:94-101 | the scan returns what `SampleOf` gives: the empty CDF fails, otherwise the first key above the draw scaled by the last bound, or a failure when there is none |
| Distributions.SampleFirstHit | tgen/randgen.py:96-100 | sampling returns the key of the first entry whose bound exceeds the scaled draw |
| Distributions.SampleFails | tgen/randgen.py:96-101 | sampling fails exactly on the empty CDF or when no bound exceeds the scaled draw; a result is always a key of the CDF |
| Distributions.SampleSucceeds | tgen/randgen.py:96-100 | a draw in [0, 1) never fails on a non-empty CDF with a positive last bound |
| Distributions.SampleFromZeroMass | tgen/randgen.py:96-101 | on a non-decreasing CDF whose last bound is 0, sampling fails with 'Unable to generate' |
| Distributions.SampleCdfOf | tgen/randgen.py:84-100 | with positive counts, key `i` is returned for every draw in an interval whose length is that key's share of the total |
| Distributions.SampleCdfOfOnly | tgen/randgen.py:84-100 | conversely, on a valid counter a draw in [0, 1) that returns key `i` lies in key `i`'s interval; with `SampleCdfOf`, key `i` is returned exactly for the draws of its interval |
| Distributions.IntervalOfDraw | tgen/randgen.py:84-100 | the intervals of the keys cover [0, 1): every draw in [0, 1) lies in some key's interval |
| Training.CountItemNodes | tgen/randgen.py:60-63 | the node loop for one DA item, which creates the item's table when it is missing, equals the fold `CountNodes` |
| Training.CountPairForms | tgen/randgen.py:59-63 | the item-by-node loop for one pair equals the fold `CountDais` |
| Training.CountPairChildren | tgen/randgen.py:65-66 | the histogram loop for one tree equals the fold `CountTreeChildren` |
| Training.CollectCounts | tgen/randgen.py:54-66 | the counting loops over the zipped pairs equal the folds `FormCountsOf` and `ChildCountsOf` |
| Training.FormCountsUpToGet | tgen/randgen.py:56-63 | `form_counts[dai][pf][e]` is the sum over pairs of the item's occurrences times the matching nodes |
| Training.FormCountsUpToKeys | tgen/randgen.py:56-63 | an item gets an entry exactly when it occurs in a pair whose tree has a non-root node |
| Training.FormCountsUpToValid | tgen/randgen.py:56-63 | every attachment counter is non-empty, with distinct keys and positive counts |
| Training.ChildCountsUpToGet | tgen/randgen.py:65-66 | `child_counts[f][k]` is the number of non-root nodes with formeme `f` and `k` children |
| Training.ChildCountsUpToKeys | tgen/randgen.py:65-66 | a formeme gets a histogram exactly when some counted node has it |
| Training.ChildCountsUpToValid | tgen/randgen.py:65-66 | every histogram is non-empty, with distinct keys and positive counts |
| Training.MaxKey | tgen/randgen.py:69 | `max(keys())` is a key and is at least every key |
| Training.MaxChildrenOf | tgen/randgen.py:69-70 | `max_children` has exactly the histogram's formemes, each mapped to the largest key of its histogram |
| Training.TrainedMaxChildrenBound | tgen/randgen.py:65-70 | after training, every counted node's formeme has a maximum at least its child count |
| Merging.MergeTableGet | tgen/randgen.py:76-77 | merging one item's table adds its counts parent formeme by parent formeme |
| Merging.MergedUpToGet | tgen/randgen.py:74-77 | each merged count is the sum over the act's items, a repeated item counted each time |
| Merging.MergedUpToKeys | tgen/randgen.py:74-77 | a parent formeme is merged exactly when some item's table has it |
| Merging.MergedUpToValid | tgen/randgen.py:74-77 | merged counters are non-empty and valid |
| Merging.ItemSumPermutation | tgen/randgen.py:74-77 | the summed counts depend only on the multiset of items, not their order |
| Merging.MergeOfOk | tgen/randgen.py:74-77 | the merge succeeds exactly on the empty act or, once trained, when every item is known; otherwise it fails on an unknown item of the act |
| Merging.MergeOfPermutation | tgen/randgen.py:74-77 | reordering the act changes neither success nor the merged formemes and counts |
| Merging.MergeItem | tgen/randgen.py:76-77 | the loop over one item's parent formemes adds each of its counters into the merged counts and equals the fold step `MergeTable` |
| Merging.MergeCounts | tgen/randgen.py:74-77 | the nested merge loop equals `MergeOf`, including its failures |
| Successors.InsertShape | tgen/randgen.py:122-128 | the new node sits next to its attach node on the requested side with the attach node as parent; old nodes move to their shifted positions with shifted parents; parent indices stay in range |
| Successors.InsertRemove | tgen/randgen.py:122-128 | removing the new node gives back the candidate exactly |
| Successors.InsertChildCounts | tgen/randgen.py:122-128 | the new node has no children, the attach node gains exactly one, and every other node keeps its count |
| Successors.NodeStep | tgen/randgen.py:116-121 | the definition of one node's step: untrained or unknown-formeme failures, the skip when the node has more children than its maximum, the missing-CDF failure, else one (node, entry) per CDF key; stated by `PlanErrors` and `PlanMembers` |
| Successors.PlanOf | tgen/randgen.py:116-121 | the definition of the expansion plan: the nodes' steps in node order, stopping at the first failure; related to the source by `PlanErrors`, `PlanMembers`, `PlanOrdered` and `PlanSize` |
| Successors.PlanErrors | tgen/randgen.py:116-121 | the expansion fails exactly when some node's lookup fails, with the first such node's error |
| Successors.PlanMembers | tgen/randgen.py:116-121 | (node, entry) is expanded exactly when its formeme is known to both tables, it is not over its maximum, and the entry is a key of its CDF |
| Successors.PlanOrdered | tgen/randgen.py:116-121 | successors come in node order |
| Successors.PlanSize | tgen/randgen.py:116-121 | the number of successors is the sum of the CDF sizes over expanded nodes |
| Successors.SingleRootExample | tgen/randgen.py:114-130 | a lone root with a two-entry CDF and maximum 1 gives exactly two successors, each with one child |
| Successors.CopyWithChild | tgen/randgen.py:122-128 | the successor is a fresh array holding `Insert` of the candidate |
| Successors.SuccessorsAt | tgen/randgen.py:121-129 | one fresh, distinct successor per CDF key, in key order |
| Successors.AsWrittenNeverExpands | tgen/randgen.py:121 | as written, the expansion never yields a successor |
| Successors.AsWrittenFails | tgen/randgen.py:121 | as written, the expansion fails wherever the corrected one expands a node |
| Successors.AsWrittenLosesSuccessors | tgen/randgen.py:121 | as written, every tree that has successors fails instead |
| Successors.SingleRootAsWritten | tgen/randgen.py:121 | the lone-root example fails as written |
| RandGen.TrainedModel | tgen/randgen.py:67-70 | the definition of the tables after training: the attachment counts, the CDFs of the child-count histograms and their largest keys; stated by `TrainedConsistent` and the `Training` count lemmas |
| RandGen.TrainedConsistent | tgen/randgen.py:67-70 | after training, all tables are set; the CDF and maximum tables share keys; each CDF is non-empty, ends at 1 and has the maximum as its largest key |
| RandGen.LoadEncode | tgen/randgen.py:28-40 | loading a saved model restores exactly the saved tables |
| RandGen.LoadSucceeds | tgen/randgen.py:28-33 | a load succeeds exactly when the first three records are the three tables in order |
| RandGen.MergedCdfsOf | tgen/randgen.py:72-78 | the definition of `get_merged_cdfs`: the merge's failure, a division by zero when a merged counter cannot be normalised, or each merged counter's `CdfOf`; stated by `MergedCdfsOfValid` |
| RandGen.MergedCdfsOfValid | tgen/randgen.py:72-78 | with valid tables the merged CDFs exist exactly when every item is known; they cover every parent formeme some item's table has; each ends at 1; its keys are exactly the entries seen for the act |
| RandGen.NumberOfChildrenOf | tgen/randgen.py:103-106 | the definition of `get_number_of_children`: untrained fails, an unknown formeme gives 0, otherwise a sample of its CDF; stated by `NumberOfChildrenBound` and `TrainedChildrenObserved` |
| RandGen.NumberOfChildrenBound | tgen/randgen.py:103-106 | on consistent tables a draw in [0, 1) gives 0 for an unknown formeme and otherwise a key of its CDF not above its maximum |
| RandGen.TrainedChildrenObserved | tgen/randgen.py:103-106 | after training, a sampled number of children is one some training node with that formeme had |
| RandGen.RandomGenerator.constructor | tgen/randgen.py:23-26 | a new generator has none of its tables |
| RandGen.RandomGenerator.SaveModel | tgen/randgen.py:35-40 | the three tables, in field order |
| RandGen.RandomGenerator.LoadModel | tgen/randgen.py:28-33 | the tables are replaced record by record as `Load` says, stopping at the first missing or mismatched record |
| RandGen.RandomGenerator.Train | tgen/randgen.py:53-70 | all three tables are replaced by what the counts give, and the result is consistent |
| RandGen.RandomGenerator.GetMergedCdfs | tgen/randgen.py:72-78 | the CDFs of the merged counts, or the merge's failure |
| RandGen.RandomGenerator.GetNumberOfChildren | tgen/randgen.py:103-106 | fails when untrained, gives 0 for an unknown formeme, otherwise samples its CDF |
| RandGen.RandomGenerator.GetBestChild | tgen/randgen.py:108-109 | a sample of the given CDF; parent and act do not matter |
| RandGen.RandomGenerator.ExpandNode | tgen/randgen.py:117-129 | fails with `NodeStep`'s error when a lookup fails; otherwise returns fresh, distinct arrays that realise `NodeStep`'s (node, entry) list, each the `Insert` of the candidate |
| RandGen.RandomGenerator.GetAllSuccessors | tgen/randgen.py:111-131 | leaves the candidate unchanged; fails with the plan's first error; otherwise one fresh, distinct successor per planned (node, entry), each `Insert` of the candidate |

## Left out

- Reading trees and DAs (`read_ttrees`, `read_das`, `get_zone`) and all logging: foreign I/O. `train` receives the decoded pairs.
- `random.random()`: replaced by the draw parameter `u`. Nothing about the statistics of repeated sampling is stated.
- Floating point: `float(tot)` and the division are exact `real` arithmetic, so the last bound is exactly 1 rather than 1 within rounding.
- Pickle and files in `load_model`/`save_model`: the stored model is a sequence of three typed records. A record of the wrong kind stops the load, where pickle would accept any object.
- Treex tree internals (`get_descendants`, `create_child`, `shift_after_node`, `shift_before_node`, `tnode > tnode.parent`, `copy.deepcopy`): a tree is its surface-ordered node list with parent positions, and a copy is a fresh array.
- The `CandidateGenerator` and `Ranker` base classes: not shown, and nothing of theirs is used.
- Iteration order of the outer tables (`form_counts`, `child_counts`, merged counts, CDF maps): these are Dafny maps, since no result depends on their order.
- Counters.Add, Counters.Update, Distributions.CdfOf, Distributions.Sample, Successors.PlanOf: Python 2 orders a `Counter`'s keys by hash; the model uses first-insertion order instead. Which key a given draw selects, and the order of the successors within one node, are therefore the model's, not the program's.
- RandGen.Encode: states only that the stored model is three records; what they hold is stated by `LoadEncode`.

## Findings

| source | as written | input that shows it | evidently intended | confidence | as-written member | corrected member |
|---|---|---|---|---|---|---|
| tgen/randgen.py:121 | `cdfs[tnode.formeme].keys()` is called on a CDF, which is a list of (key, bound) pairs, so it raises `AttributeError` | a lone root with formeme `v:fin`, `max_children = {v:fin: 1}` and a CDF for `v:fin` with two entries | iterate the keys of the CDF in stored order | not executed | Successors.SingleRootAsWritten, Successors.AsWrittenLosesSuccessors | Successors.SingleRootExample, Successors.PlanMembers |
