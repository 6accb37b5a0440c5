# Brown clustering (BrownCluster.java) in Dafny

A model of the algorithmic core of `BrownCluster`, a Java implementation of
Brown et al.'s agglomerative word clustering. The model follows the
program's stages, one module each:

- **Text**: `splitLineInPhrases` tokenises a line. It splits at whitespace
  (`\s`) and drops empty pieces.
- **Phrases**:
  - `countPhrases` counts tokens;
  - `readAllPhrases` keeps the phrases seen at least `minFrequencyOfPhrase`
    times and folds the rest into the reserved `_UNKNOWN_` phrase;
  - `assignWordsToIndexBasedOnFrequency` numbers the kept phrases 0..n-1,
    most frequent first, with a stable sort.
- **Counts**: the `prev`/`next` context-count maps, their `addTo`, the bigram
  counting of one line and of a corpus, and the merge of two cluster rows.
  `ContextCountsImpl.mergeClusters` is not part of this model. It is given
  concrete behaviour here: the absorbed cluster's entries move to the
  survivor in both views.
- **Extract**: `extractContextCounts`. It maps each phrase through the
  inverted phrase table, sends unknown phrases to `_UNKNOWN_`, and counts
  every pair of consecutive phrases on a line in both views.
- **Rehome**: `mapPhraseCountsToClusterCounts` and `addCounts`, which
  re-express one phrase's context counts in cluster space.
- **Candidates**:
  - `computeAllScores`;
  - `removeMergeCandidates`;
  - `updateMergeCandidateScores`;
  - `findBestClusterToMerge`.

  Scores come from an oracle function standing for the mutual-information
  arithmetic.
- **History**: the cluster history tree as an arena of nodes with parent and
  child links, `updateClusterNodes`, `initializeHistoryNodes`, and the
  root-ward walk of `writeOutput` that builds each leaf's 0/1 code.
- **Agglomeration**:
  - `initializeClusters`;
  - the absorb pass `mergeInfrequentPhrasesWithFrequentPhraseClusters`;
  - the merge loop `iterativelyMergeClusters`, a recursive function that
    decreases on the length of the candidate list.
- **Output**: the output lines and their ordering. A line is the code, a tab,
  the phrase, a space and the id; lines are ordered by `String.compareTo`,
  modelled as lexicographic order on characters.
- **Clustering**: `doClustering`.
- **Pipeline**: `run`.
- **Sums**, **Sorting**, **IntKeys**, **Wrappers**: shared definitions. These
  are sums over maps, a stable insertion sort (standing for
  `Collections.sort`), ascending key enumeration, and `Result`/`Option`.

Hash-map iteration orders are not fixed by the program. The iteration order
of the phrase-count map is a parameter (`order`). Every other map is walked
over its keys in ascending order. Folds that sum are proved equal to an
order-free reference (a sum over the map), so their results do not depend
on that order. The one fold whose result can depend on the order is
`invert`: a later `put` replaces an earlier one, so when two ids carry the
same phrase, the larger id is kept (`Extract.InvertKeepsLast`). On phrase
tables, where no phrase is listed twice, this cannot happen.

Points where the code decides something worth stating:

- `removeMergeCandidates` (line 215) removes only the candidates naming
  the retired `cluster1`, in either position. Candidates of the survivor
  `cluster2` stay, and those whose `cluster2` is the survivor are rescored
  (line 210).
- `findBestClusterToMerge` returns -1 when no cluster below
  `maxNumberOfClusters` scores above `-Double.MAX_VALUE`. The name of
  cluster -1 is then null, and `mergeClusters` throws when it asks for its
  length (line 267). The model returns `Failure` there.
- The merge phase restricted to `maxNumberOfClusters` is commented out
  (line 72), so only the unrestricted phase of line 74 is modelled.

## Model

| member | source | states |
|---|---|---|
| Text.SplitLineInPhrases | src/main/java/be/bagofwords/brown/BrownCluster.java:456-465 | every phrase is non-empty and free of whitespace, and together the phrases hold exactly the non-whitespace characters of the line, in order; where the line is cut is fixed by Text.LineLayout and Text.SplitLayout |
| Text.SplitLayout | src/main/java/be/bagofwords/brown/BrownCluster.java:456-465 | phrases laid out with any non-empty whitespace between them, and any whitespace before and after, split back into exactly those phrases |
| Text.LineLayout | src/main/java/be/bagofwords/brown/BrownCluster.java:456-465 | every line is its phrases laid out with whitespace-only gaps, non-empty between two phrases; with Text.SplitLayout, the phrases are exactly the maximal runs of non-whitespace |
| Text.SplitJoin | src/main/java/be/bagofwords/brown/BrownCluster.java:456-465 | splitting phrases joined by single spaces gives back the same phrases |
| Text.SplitIsCanonical | src/main/java/be/bagofwords/brown/BrownCluster.java:456-465 | re-splitting the space-joined phrases of a line gives that line's phrases again |
| Phrases.Tokenize | src/main/java/be/bagofwords/brown/BrownCluster.java:441-446 | the corpus holds one phrase list per input line, each produced by splitLineInPhrases |
| Phrases.CountLine | src/main/java/be/bagofwords/brown/BrownCluster.java:444-446 | addTo(phrase, 1) over a line raises each phrase's count by its number of occurrences on the line, and adds exactly the line's phrases as keys |
| Phrases.CountPhrases | src/main/java/be/bagofwords/brown/BrownCluster.java:438-450 | the keys are exactly the corpus tokens, and each count is that token's number of occurrences (at least 1) |
| Phrases.Partition | src/main/java/be/bagofwords/brown/BrownCluster.java:413-419 | the kept list holds exactly the listed phrases the rule accepts, without repeats when the listing has none, and the dropped total is the summed count of the rejected ones |
| Phrases.ReadAllPhrasesAsWritten | src/main/java/be/bagofwords/brown/BrownCluster.java:407-426 | the selection as written: every listed phrase has a count; the phrases with count >= minFrequency in the order the count map is visited, followed by `_UNKNOWN_` exactly when the dropped total is positive; the counts are the phrase counts with `_UNKNOWN_` set to the dropped total in that case, and unchanged otherwise |
| Phrases.ReadAllPhrases | src/main/java/be/bagofwords/brown/BrownCluster.java:407-426 | the corrected selection: every listed phrase has a count; no repeats; a phrase other than `_UNKNOWN_` is kept iff its count reaches minFrequency, and keeps its count; the kept phrases come in the order the map is visited, followed by `_UNKNOWN_` iff the dropped total (which includes the corpus's own `_UNKNOWN_` tokens) is positive, and `_UNKNOWN_` then carries that total |
| Phrases.ReservedPhraseCollision | src/main/java/be/bagofwords/brown/BrownCluster.java:413-423 | on the line `_UNKNOWN_ _UNKNOWN_ a` with minFrequency 2, the selection as written lists `_UNKNOWN_` twice and records count 1 for it |
| Phrases.ReservedPhraseKeptOnce | src/main/java/be/bagofwords/brown/BrownCluster.java:413-423 | on the same corpus the corrected selection lists `_UNKNOWN_` once, carrying all 3 occurrences |
| Phrases.CollisionAsWritten | src/main/java/be/bagofwords/brown/BrownCluster.java:413-423 | from the counts {`_UNKNOWN_`: 2, a: 1} and minFrequency 2, the selection as written is the list [`_UNKNOWN_`, `_UNKNOWN_`] with `_UNKNOWN_` recorded as 1 |
| Phrases.CollisionCorrected | src/main/java/be/bagofwords/brown/BrownCluster.java:413-423 | from the same counts the corrected selection is the list [`_UNKNOWN_`] with `_UNKNOWN_` recorded as 3 |
| Phrases.AsWrittenWithoutReservedToken | src/main/java/be/bagofwords/brown/BrownCluster.java:413-423 | when `_UNKNOWN_` is not among the counted phrases, the selection as written and the corrected selection are equal |
| Phrases.ByFrequencyIsPreorder | src/main/java/be/bagofwords/brown/BrownCluster.java:429 | the descending-count comparator is a total preorder, as Collections.sort requires |
| Phrases.AssignWordsToIndexBasedOnFrequency | src/main/java/be/bagofwords/brown/BrownCluster.java:428-436 | ids are exactly 0..n-1; the id listing is a permutation of the input; counts do not increase with the id; equal-count phrases keep their input order (stability); distinct inputs get distinct ids |
| Phrases.RankedByCount | src/main/java/be/bagofwords/brown/BrownCluster.java:429 | a frequency-sorted permutation of counted phrases lists counted phrases with non-increasing counts |
| Counts.AddTo | src/main/java/be/bagofwords/brown/BrownCluster.java:382-383 | addTo creates the row when missing and raises exactly the one count (a, b) by k |
| Counts.AddToMass | src/main/java/be/bagofwords/brown/BrownCluster.java:382-383 | addTo raises the total mass by exactly k |
| Counts.EmptyCounts | src/main/java/be/bagofwords/brown/BrownCluster.java:398-404 | one row per id, every count zero, total mass zero |
| Counts.LinePairs | src/main/java/be/bagofwords/brown/BrownCluster.java:374-386 | a line of n > 0 phrases yields its n-1 consecutive pairs, in order |
| Counts.BigramsConcat | src/main/java/be/bagofwords/brown/BrownCluster.java:371-387 | the bigrams of two stacked corpora are the bigrams of each, so no bigram spans two lines |
| Counts.BigramsLength | src/main/java/be/bagofwords/brown/BrownCluster.java:371-387 | a corpus has the sum over lines of max(0, length-1) bigrams |
| Counts.AddPair | src/main/java/be/bagofwords/brown/BrownCluster.java:381-384 | one bigram raises next[a][b] and prev[b][a] by one and nothing else, adding one to the mass of each view |
| Counts.CountLine | src/main/java/be/bagofwords/brown/BrownCluster.java:374-386 | the per-line loop counts exactly the line's consecutive pairs (prevPhrase starts out null on each line) and adds no rows |
| Counts.CountCorpus | src/main/java/be/bagofwords/brown/BrownCluster.java:371-387 | the whole read loop counts exactly the corpus bigrams, line by line |
| Counts.ExtendsEmpty | src/main/java/be/bagofwords/brown/BrownCluster.java:368-391 | counting pairs into empty counts gives symmetric views with next[a][b] equal to the number of (a, b) pairs and mass equal to the number of pairs |
| Counts.RelabelRow | src/main/java/be/bagofwords/brown/BrownCluster.java:270 | moving the entry of the absorbed id onto the survivor keeps all other entries and the row sum |
| Counts.SumAddRows | src/main/java/be/bagofwords/brown/BrownCluster.java:270 | adding two rows entrywise adds their sums |
| Counts.MergeCountMap | src/main/java/be/bagofwords/brown/BrownCluster.java:270 | merging two ids in one view drops the absorbed row, adds it onto the survivor with every column relabelled, and keeps the mass |
| Counts.MergedSymmetric | src/main/java/be/bagofwords/brown/BrownCluster.java:270 | merging preserves next[a][b] == prev[b][a] |
| Counts.MergeClusters | src/main/java/be/bagofwords/brown/BrownCluster.java:270 | the active clusters lose exactly the absorbed id; both views are merged; symmetry and both masses are preserved |
| Extract.Invert | src/main/java/be/bagofwords/brown/BrownCluster.java:358-364 | the inverted map has exactly the table's phrases as keys and maps each to an id carrying that phrase |
| Extract.InvertKeepsLast | src/main/java/be/bagofwords/brown/BrownCluster.java:358-364 | the entries are put in ascending id order and a later put replaces an earlier one, so an id with no larger id carrying its phrase is the one the map keeps |
| Extract.IdOf | src/main/java/be/bagofwords/brown/BrownCluster.java:376-380 | given an inverse of the table (as invert returns), a phrase missing from the table gets the id of `_UNKNOWN_`, and a known phrase gets an id carrying it |
| Extract.LineIds | src/main/java/be/bagofwords/brown/BrownCluster.java:375-380 | each phrase of a line is replaced by the id of its resolved phrase, keeping the length |
| Extract.CorpusIds | src/main/java/be/bagofwords/brown/BrownCluster.java:371-380 | the same for every line of the corpus |
| Extract.CorpusIdsUnique | src/main/java/be/bagofwords/brown/BrownCluster.java:376-380 | with no phrase listed twice in the table, there is only one way to map the corpus to ids |
| Extract.PairCountIds | src/main/java/be/bagofwords/brown/BrownCluster.java:371-387 | mapping phrases to ids keeps the number of bigrams |
| Extract.CountIds | src/main/java/be/bagofwords/brown/BrownCluster.java:368-387 | counting the bigrams of an id corpus into empty rows gives symmetric views with one row per id, next[a][b] equal to the number of (a, b) bigrams, and mass equal to the number of bigrams |
| Extract.ExtractContextCounts | src/main/java/be/bagofwords/brown/BrownCluster.java:366-392 | one row per phrase id in each view; next[a][b] == prev[b][a]; next[a][b] is the number of times a is immediately followed by b on a line; each view's mass is the sum over lines of max(0, length-1) |
| Rehome.AddCountsAtAdded | src/main/java/be/bagofwords/brown/BrownCluster.java:184-196 | the loop of addCounts adds each counted neighbour entry under the neighbour's label in the phrase's row and mirrors it in the other view |
| Rehome.AddCountsAtMass | src/main/java/be/bagofwords/brown/BrownCluster.java:184-196 | the loop adds the counted entries' total to the mass of both views |
| Rehome.LabelledSumIsFibre | src/main/java/be/bagofwords/brown/BrownCluster.java:184-196 | the ordered fold over the neighbours equals the order-free sum of the entries with that label |
| Rehome.AddCounts | src/main/java/be/bagofwords/brown/BrownCluster.java:178-197 | addCounts guarantees a row for the new cluster; each count grows by the summed entries of the neighbours labelled with that column, the phrase itself labelled newCluster and its own entry skipped unless identity counts are included; both views gain the counted mass |
| Rehome.MapPhraseCountsToClusterCounts | src/main/java/be/bagofwords/brown/BrownCluster.java:170-176 | the result has a row for newCluster, and every count in both views is the relabelled preceding counts of the phrase plus the relabelled following counts without the self pair |
| Rehome.RehomedSymmetric | src/main/java/be/bagofwords/brown/BrownCluster.java:170-176 | the re-homed counts satisfy next[x][y] == prev[y][x] |
| Rehome.RehomedMass | src/main/java/be/bagofwords/brown/BrownCluster.java:170-176 | each view holds all the preceding counts plus the following counts except the self pair |
| Rehome.FibreOfFreshCluster | src/main/java/be/bagofwords/brown/BrownCluster.java:186-187 | when no other phrase maps to newCluster, the entries counted under it are only the phrase's own, and only with identity counts included |
| Rehome.SelfPairOnce | src/main/java/be/bagofwords/brown/BrownCluster.java:173-174 | with such a cluster id, prev[newCluster][newCluster] and next[newCluster][newCluster] both equal the phrase's self count, counted once |
| Candidates.ByScoreIsPreorder | src/main/java/be/bagofwords/brown/BrownCluster.java:240 | the ascending-score comparator is a total preorder |
| Candidates.InnerLoop | src/main/java/be/bagofwords/brown/BrownCluster.java:230-237 | every candidate of the inner loop carries the score of its own pair |
| Candidates.InnerLoopPairAt | src/main/java/be/bagofwords/brown/BrownCluster.java:230-237 | the inner loop lists (c1, c2) once per listing of c2, exactly when c2 is in the destination range and below c1 |
| Candidates.OuterLoopPairAt | src/main/java/be/bagofwords/brown/BrownCluster.java:227-239 | with distinct first clusters, the outer loop lists each pair with c1 in the candidate range, c2 in the destination range and c2 < c1, once per listing of c2 |
| Candidates.ComputeAllScores | src/main/java/be/bagofwords/brown/BrownCluster.java:224-242 | the list is sorted by ascending score; it holds every eligible pair of active clusters exactly once and nothing else; each candidate carries its pair's score |
| Candidates.RemoveMergeCandidates | src/main/java/be/bagofwords/brown/BrownCluster.java:214-216 | every candidate naming the retired cluster in either position is gone, and every other one is kept with its multiplicity |
| Candidates.RemovedPairs | src/main/java/be/bagofwords/brown/BrownCluster.java:214-216 | the same, counted over cluster pairs |
| Candidates.UpdateMergeCandidateScores | src/main/java/be/bagofwords/brown/BrownCluster.java:244-254 | the list is re-sorted; the same pairs remain; candidates whose cluster2 is the survivor get the current score; all others are unchanged |
| Candidates.BestAt | src/main/java/be/bagofwords/brown/BrownCluster.java:277-290 | the scan keeps the best so far or moves to an eligible listed cluster with a strictly larger score, and no eligible listed cluster scores more than the result |
| Candidates.FindBestClusterToMerge | src/main/java/be/bagofwords/brown/BrownCluster.java:273-292 | no eligible cluster scores above the result; a result other than (-1, -Double.MAX_VALUE) is an eligible cluster with that score; the result is (-1, -Double.MAX_VALUE) iff no eligible score beats -Double.MAX_VALUE |
| Candidates.SortedLastIsBest | src/main/java/be/bagofwords/brown/BrownCluster.java:203 | the candidate removed from the tail of the ascending list has the maximum score |
| Candidates.RemovedStayRemoved | src/main/java/be/bagofwords/brown/BrownCluster.java:209-210 | rescoring and re-sorting cannot bring back a candidate naming the retired cluster |
| Agglomeration.InitializeClusters | src/main/java/be/bagofwords/brown/BrownCluster.java:350-356 | phrases 0..n-1, each in its own cluster |
| Agglomeration.AbsorbFrom | src/main/java/be/bagofwords/brown/BrownCluster.java:257-262 | the absorb loop keeps its invariant to the end, keeps both masses and symmetry, and fails when there is a phrase to absorb but no cluster below maxNumberOfClusters |
| Agglomeration.AbsorbStep | src/main/java/be/bagofwords/brown/BrownCluster.java:258-261 | one absorbed phrase leaves the invariant in place: the phrase maps to an active cluster below maxNumberOfClusters and is no longer a cluster |
| Agglomeration.MergeInfrequentPhrasesWithFrequentPhraseClusters | src/main/java/be/bagofwords/brown/BrownCluster.java:256-263 | on success: the active clusters are the ids below min(n, maxNumberOfClusters); every phrase maps to an active cluster; frequent phrases map to themselves; masses and symmetry are kept; with n <= maxNumberOfClusters nothing changes |
| Agglomeration.RetirePairs | src/main/java/be/bagofwords/brown/BrownCluster.java:203-209 | the popped pair was eligible, and once its cluster1 is retired the remaining candidates are exactly the eligible pairs among the remaining clusters |
| Agglomeration.StepTracked | src/main/java/be/bagofwords/brown/BrownCluster.java:207-210 | the loop invariant (candidates sorted, each eligible pair once, forest in step with the counts) holds after one iteration |
| Agglomeration.MergeStep | src/main/java/be/bagofwords/brown/BrownCluster.java:203-210 | one iteration keeps the invariant, strictly shrinks the candidate list, and retires exactly the popped cluster1 |
| Agglomeration.MergeStepMerges | src/main/java/be/bagofwords/brown/BrownCluster.java:203-208 | the iteration merges the counts and the history nodes of exactly the popped pair, which was eligible |
| Agglomeration.MergeStepDropsRetired | src/main/java/be/bagofwords/brown/BrownCluster.java:209 | afterwards no candidate names the retired cluster |
| Agglomeration.MergeStepRescores | src/main/java/be/bagofwords/brown/BrownCluster.java:210 | afterwards the candidates into the survivor carry their score in the merged counts |
| Agglomeration.MergeLoop | src/main/java/be/bagofwords/brown/BrownCluster.java:202-211 | the loop ends with an empty candidate list and no eligible pair left; clusters only disappear; masses and symmetry are kept |
| Agglomeration.MergeLoopKeepsLeaves | src/main/java/be/bagofwords/brown/BrownCluster.java:202-211 | every leaf's tree stays held by the working node map through the loop |
| Agglomeration.IterativelyMergeClusters | src/main/java/be/bagofwords/brown/BrownCluster.java:200-212 | computeAllScores then the loop: no eligible pair remains, clusters only disappear, masses and symmetry are kept |
| Agglomeration.IterativelyMergeKeepsLeaves | src/main/java/be/bagofwords/brown/BrownCluster.java:200-212 | the leaves' trees stay held by the working node map |
| Agglomeration.UnrestrictedLeavesOneCluster | src/main/java/be/bagofwords/brown/BrownCluster.java:74 | with the ranges [0, Integer.MAX_VALUE), a set of ids with no eligible pair has at most one member |
| History.Root | src/main/java/be/bagofwords/brown/BrownCluster.java:99-109 | following parent links ends at a node without parent, at or above the start |
| History.Code | src/main/java/be/bagofwords/brown/BrownCluster.java:99-109 | a code is a string of '0' and '1' |
| History.CodeLeadsToNode | src/main/java/be/bagofwords/brown/BrownCluster.java:99-109 | descending from the root along a node's code ('0' left, '1' right) reaches that node |
| History.LeafCodesPrefixFree | src/main/java/be/bagofwords/brown/BrownCluster.java:99-109 | the code of a leaf is not a prefix of the code of any other node of its tree |
| History.UpdateClusterNodes | src/main/java/be/bagofwords/brown/BrownCluster.java:218-222 | the node map loses the absorbed key, the survivor maps to a fresh node whose children are the two previous nodes, and only their parent links change |
| History.UpdateShape | src/main/java/be/bagofwords/brown/BrownCluster.java:218-222 | the arena grows by one parent grafted over the two roots, and the node map is the old one without small and with large re-pointed |
| History.UpdateKeepsForest | src/main/java/be/bagofwords/brown/BrownCluster.java:218-222 | a merge keeps the forest well-formed |
| History.GraftedCodes | src/main/java/be/bagofwords/brown/BrownCluster.java:218-222 | a merge prepends '0' to the codes under the absorbed node, '1' to those under the survivor's, and changes no other code |
| History.UpdateCodes | src/main/java/be/bagofwords/brown/BrownCluster.java:218-222 | the same, stated for updateClusterNodes |
| History.UpdateKeepsLeaves | src/main/java/be/bagofwords/brown/BrownCluster.java:218-222 | the tree of every leaf stays held by the node map after a merge |
| History.InitializeHistoryNodes | src/main/java/be/bagofwords/brown/BrownCluster.java:162-168 | one fresh parentless node per cluster value, keyed by exactly the clusters, distinct clusters on distinct nodes |
| History.WalkToRoot | src/main/java/be/bagofwords/brown/BrownCluster.java:97-109 | the walk from a leaf builds its code, which leads from the root back to the leaf; a never-merged leaf gets the empty code |
| Output.LexLeTotal | src/main/java/be/bagofwords/brown/BrownCluster.java:112 | any two lines are comparable |
| Output.LexLeTransitive | src/main/java/be/bagofwords/brown/BrownCluster.java:112 | the line order is transitive |
| Output.LexLeAntisymmetric | src/main/java/be/bagofwords/brown/BrownCluster.java:112 | lines that are ordered both ways are equal |
| Output.SortedLinesUnique | src/main/java/be/bagofwords/brown/BrownCluster.java:112 | two sorted arrangements of the same lines are identical, so the written file does not depend on the map's iteration order |
| Output.ParseIntOfIntToString | src/main/java/be/bagofwords/brown/BrownCluster.java:110 | the id written in decimal reads back as the same id |
| Output.OutputLineFields | src/main/java/be/bagofwords/brown/BrownCluster.java:110 | the text before the tab is the code, and the text after the last space is the id, which parses back to it |
| Output.PhraseCode | src/main/java/be/bagofwords/brown/BrownCluster.java:98-109 | the code written for a phrase consists of '0' and '1' only, so it contains no tab and the id after it can be read back |
| Output.PhraseLinesDistinct | src/main/java/be/bagofwords/brown/BrownCluster.java:95-110 | the lines of distinct phrase ids are distinct |
| Output.PhraseLinesRearranged | src/main/java/be/bagofwords/brown/BrownCluster.java:95-112 | after sorting, every phrase's line is present and every line is some phrase's line |
| Output.WriteOutput | src/main/java/be/bagofwords/brown/BrownCluster.java:93-119 | the lines are sorted and distinct, every phrase of the cluster map has its line, and every line is a phrase's line |
| Clustering.ClusterValues | src/main/java/be/bagofwords/brown/BrownCluster.java:164 | the listed values are exactly the clusters that some phrase maps to |
| Clustering.Grow | src/main/java/be/bagofwords/brown/BrownCluster.java:69-74 | every phrase's cluster has a leaf, every leaf's tree survives the merges, and masses and symmetry are kept |
| Clustering.GrowShape | src/main/java/be/bagofwords/brown/BrownCluster.java:69-74 | distinct clusters have distinct leaves, and with ids below Integer.MAX_VALUE at most one cluster remains |
| Clustering.Cluster | src/main/java/be/bagofwords/brown/BrownCluster.java:60-74 | the clustering without the swap pass of line 68 (see Left out). On success: every phrase 0..n-1 maps to a cluster with a leaf; phrases below maxNumberOfClusters keep their own cluster; masses, symmetry and leaf trees are kept. With n <= maxNumberOfClusters it cannot fail and leaves every phrase in its own cluster; with maxNumberOfClusters <= 0 < n it fails |
| Clustering.ClusterShape | src/main/java/be/bagofwords/brown/BrownCluster.java:69-74 | distinct clusters get distinct leaves, and with ids below Integer.MAX_VALUE one tree holds every leaf |
| Clustering.CodesPrefixFree | src/main/java/be/bagofwords/brown/BrownCluster.java:60-75 | phrases of different clusters get codes neither of which is a prefix of the other |
| Clustering.DoClustering | src/main/java/be/bagofwords/brown/BrownCluster.java:60-76 | without the swap pass of line 68: it fails iff the clustering fails; otherwise the lines are sorted and distinct, and they are exactly the lines of the phrases 0..n-1 |
| Pipeline.PhraseTable | src/main/java/be/bagofwords/brown/BrownCluster.java:407-436 | the corrected selection, numbered, forms a table: ids 0..n-1 with no phrase listed twice (the selection as written can list `_UNKNOWN_` twice; see Findings) |
| Pipeline.SelectionAsWritten | src/main/java/be/bagofwords/brown/BrownCluster.java:407-426 | on a corpus with no `_UNKNOWN_` token, the selection as written equals the corrected one |
| Pipeline.PhraseTableAsWritten | src/main/java/be/bagofwords/brown/BrownCluster.java:407-436 | on a corpus with no `_UNKNOWN_` token, every phrase of the selection as written has a count, and the table is that selection numbered by descending count, as readAllPhrases builds it |
| Pipeline.NumberedIsPhraseTable | src/main/java/be/bagofwords/brown/BrownCluster.java:428-436 | numbering distinct phrases gives such a table |
| Pipeline.PhraseTableCoversCorpus | src/main/java/be/bagofwords/brown/BrownCluster.java:376-380 | every corpus phrase is in the table or, being dropped, resolves to `_UNKNOWN_`, which is then in the table |
| Pipeline.ClusterTable | src/main/java/be/bagofwords/brown/BrownCluster.java:60-76 | on a phrase table, every written line ends in the id of one of its phrases, and the lines are sorted and distinct |
| Pipeline.Run | src/main/java/be/bagofwords/brown/BrownCluster.java:51-58 | reading, counting and clustering a text (with the corrected selection and without the swap pass; see Left out) gives sorted, distinct lines, each ending in the id of a phrase of the table |

## Left out

- File I/O: `BufferedReader` and `FileReader` in `countPhrases` and `extractContextCounts`, and the writer in `writeOutput`. The corpus is a sequence of lines, and the output is the sorted list of lines.
- `main`, its hard-coded paths, `ThreadSampleMonitor` and `UI.write`: monitoring and logging only.
- `DO_TESTS` and `TestUtils.checkCounts`: a debug switch that is off.
- The mutual-information arithmetic (`computeMergeScore`, `computeSK`, `computeQK`, `checkProbability`, `Math.log`). It is replaced by two oracle functions to `real`:
  - the pair score of `computeAllScores` and `updateMergeCandidateScores`;
  - the absorb score of `findBestClusterToMerge`, called with `ski = 0.0`.
- Floating-point rounding of scores: scores are exact reals, and `-Double.MAX_VALUE` is the exact value of that double.
- Parallel streams and the synchronized best-score update. They are modelled as sequential folds in ascending id order. The model does not claim which of several equally good clusters the program picks.
- `swapPhrases` and `checkSwapScores`. They rely on `ContextCountsImpl.addCounts`/`removeCounts`, `SwapWordContextCounts` and the 1e-10 threshold, none of which is part of this model. `mapPhraseCountsToClusterCounts` and `addCounts`, which the swap pass calls, are modelled.
- `initializeClusterNames` and the name part of `mergeClusters`, including the 30-character cap: display names only. `mergeClusters` is modelled by its count merge.
- `ContextCountsImpl`, `MergedContextCounts`, `MergeCandidate.compareTo`, `MapUtils` and `ClusterHistoryNode` are not part of this model. The model gives them concrete behaviour inferred from the call sites:
  - merging moves the absorbed row onto the survivor in both views;
  - candidates compare by ascending score;
  - `setChildren(a, b)` makes `a` the left and `b` the right child;
  - an absent key of an `Int2IntOpenHashMap` reads as 0.
- `trimCounts`: it only shrinks hash tables.
- Iteration orders of Java hash maps. The phrase-count map's order is a parameter; every other map is walked in ascending key order. Sums are proved order-independent against a reference sum. `invert` keeps the last id put for a phrase, which with ascending order is the largest.
- `String.compareTo` compares UTF-16 code units. `Output.LexLe` compares Dafny characters, which agree with it on characters of the Basic Multilingual Plane.
- Integer widths: counts, ids and mass are unbounded. The program's `int` counts and `totalDroppedCounts` can overflow on corpora of more than 2^31 tokens, which the model does not reproduce. `Integer.MAX_VALUE` appears only as the range bound of the merge phase.
- Phrase ids in `doClustering` are `0..phraseMap.size()-1`. The clustering takes `n` for `phraseMap.size()` and requires the context counts to have a row for exactly those ids, which `extractContextCounts` provides.
- Pipeline.PhraseTable: builds the table from the corrected selection (`Phrases.ReadAllPhrases`), not the one as written. On a corpus containing the token `_UNKNOWN_` the program's table can list `_UNKNOWN_` under two ids (see Findings); this model does not reproduce that table. `Pipeline.PhraseTableAsWritten` proves that the two tables agree on every corpus without that token.
- Pipeline.Run: uses that corrected table and the clustering without the swap pass. It states that the lines are sorted, distinct and end in a table id. The line-by-line content is stated on `Clustering.DoClustering`, which `Run` calls through `Pipeline.ClusterTable`.
- Clustering.Cluster: skips `swapPhrases` (line 68). The swap pass can move any phrase to another cluster, including those below maxNumberOfClusters. So "phrases below maxNumberOfClusters keep their own cluster" and "with n <= maxNumberOfClusters every phrase stays in its own cluster" hold for the swap-free clustering only, not for `doClustering`.
- Clustering.DoClustering: writes the lines of that swap-free clustering. The lines `doClustering` writes after a swap pass can give some phrases other codes.
- Candidates.UpdateMergeCandidateScores: rescoring reads the counts after the merge, as the program does. The model does not say that other candidates' scores have gone stale; the program leaves those scores as they are too.

## Findings

| source | as written | input that shows it | evidently intended | confidence | as-written member | corrected member |
|---|---|---|---|---|---|---|
| src/main/java/be/bagofwords/brown/BrownCluster.java:413-423 | a corpus phrase spelled `_UNKNOWN_` is kept like any other phrase, and then the bucket of dropped phrases is appended under the same name: the phrase list holds `_UNKNOWN_` twice and `phraseCounts.put` overwrites its count with the dropped total | one line `_UNKNOWN_ _UNKNOWN_ a` with minFrequencyOfPhrase 2: the phrase list is [`_UNKNOWN_`, `_UNKNOWN_`], and the count is 1, below the threshold | `_UNKNOWN_` names only the bucket: the corpus's own occurrences go into it, and the table lists it once, with count 3 | not executed; the duplicate follows directly from lines 414-422 | Phrases.CollisionAsWritten | Phrases.CollisionCorrected |
