# Silver-label clustering pipeline of `EventDeduplicationDataFrame`, in Dafny

`EventDeduplicationDataFrame.create_silver_label` (create_silver_label.py)
builds silver labels for news-event deduplication. It:

1. shortens titles that contain a stick (`|`);
2. keeps the last row of every title;
3. clusters the titles with a sentence-embedding community detection, storing one cluster-id column per configuration;
4. removes temporal outliers from every cluster with a one-dimensional DBSCAN over the start dates;
5. drops clusters whose rows are all predicted out of scope ("oos");
6. merges clusters that lie close in time and share frequent named entities.

This project models the logic between the foreign steps, and proves what each step promises. The foreign steps are the embedding model, the community detection, DBSCAN, and the spaCy and HTTP annotators. Their results are inputs here:
- community detection gives a list of communities (lists of row positions);
- DBSCAN gives one label per row;
- the event-type predictor gives one optional string per row;
- the entity linker gives each row's entity keys.

A data frame is modelled by its rows' positions. A column is a sequence indexed by position, and a frame selected from it is a sequence of positions. Dates are integer day numbers.

Modules, one per step:

- `Common`: option and result types, counting, first-occurrence de-duplication (`unique()`), positions, filtering, flattening, and `itertools.combinations(_, 2)` as `Pairs`.
- `Selection`: the first-maximum selector of `title_parts_len.index(max(...))` in the title normalisation.
- `Titles`: `remove_stick_in_title`, the keep-last de-duplication by title, `combine_columns`, and the corrected split-based normalisation.
- `ClusterColumns`: the target columns still to compute, and the community list turned into a per-row id column.
- `TemporalDenoiser`: `most_common` and `run_temporal_clustering`.
- `OosFilter`: `remove_oos_clusters`.
- `Entities`: `get_entity_from_spacy`'s dictionaries, the per-cluster entity counts, `filter_cluster_entity` and `compare_list_of_strings`.
- `MergeCandidates`: `day_difference`, the span distance, and the merge-candidate rule.
- `MergeGroups`: `cluster_has_overlap` and the grouping loop over pairs of candidate pairs.
- `ClusterMerger`: `merge_cluster` end to end, including the sequential relabelling.
- `Components`: the connected-component merge that the grouping loop evidently aims at.

Loops that build lists, dictionaries or columns step by step are methods. Each is proved equal to a recursive specification function, and lemmas then state what that function means.

## Model

| member | source | states |
|---|---|---|
| Selection.FirstMaxIndex | create_silver_label.py:150 | the index holds a maximum and every earlier element is strictly smaller (`index` finds the first maximum) |
| Titles.NormaliseTitle | create_silver_label.py:148-151 | a title without a stick is unchanged; a title with a stick becomes its first character, because line 149 iterates characters |
| Titles.StickRows | create_silver_label.py:146 | exactly the positions whose title contains a stick, in ascending order |
| Titles.StickReplacements | create_silver_label.py:148-151 | the loop builds, for every stick row in order, that row's normalised title |
| Titles.WriteTitles | create_silver_label.py:152 | each listed row receives its replacement, every other row keeps its title, and the length is unchanged |
| Titles.RemoveStickInTitle | create_silver_label.py:145-153 | the column keeps its length and every title becomes its normalised form; titles without a stick are untouched |
| Titles.KeepLastUpTo | create_silver_label.py:67 | a row survives iff no later row has the same title; survivors stay in frame order |
| Titles.KeepLastDistinct | create_silver_label.py:67 | the surviving rows carry pairwise distinct titles, in increasing position |
| Titles.KeepLastKeepsLastOccurrence | create_silver_label.py:67 | every title survives once, on the row of its last occurrence |
| Titles.TemporalTitle | create_silver_label.py:156-157 | the text is the title, then " (", then the date, then ")", and is three characters longer than both |
| Titles.TemporalTitleInjective | create_silver_label.py:156-157 | for titles of equal length, equal combined texts come from the same title and the same date |
| Titles.Split | create_silver_label.py:149 | `str.split` on the stick gives at least one part, and no part holds the stick |
| Titles.JoinSplit | create_silver_label.py:149 | joining the split parts with the stick gives back the title |
| Titles.LongestSegment | create_silver_label.py:149-151 | a split part that no other part is longer than |
| Titles.NormaliseTitleBySegments | create_silver_label.py:148-151 | corrected: the result has no stick; a title without one is unchanged; otherwise it is the first longest stick-separated part |
| Titles.FloodNewsSegments | create_silver_label.py:149 | the title "Flood", stick, "News" splits into "Flood" and "News" |
| Titles.StickTitleKeepsFirstCharacter | create_silver_label.py:148-151 | the title "Flood", stick, "News" becomes "F" as written, and "Flood" when corrected |
| Titles.FloodNewsHeadline | create_silver_label.py:148-151 | corrected: the title "Flood", stick, "News" becomes its headline "Flood" |
| ClusterColumns.ColumnsToCompute | create_silver_label.py:165-168 | a name is pending in the plain (temporal) variant iff it is a target column containing "cluster" but not "temporal" (containing "temporal_cluster") and the frame lacks it |
| ClusterColumns.PendingColumnsDisjoint | create_silver_label.py:165-166 | no column name is pending in both variants |
| ClusterColumns.PlainPending | create_silver_label.py:165-167 | on a frame without `cluster_50_90`, that plain configuration is pending |
| ClusterColumns.TemporalPending | create_silver_label.py:166-168 | on a frame without `temporal_cluster_50_90`, that temporal configuration is pending |
| ClusterColumns.TemporalRunOverwritesPlain | create_silver_label.py:199-203 | the temporal run of 50/90 writes its ids under `cluster_50_90`, the plain run's column, so the temporal ids overwrite the plain ones |
| ClusterColumns.TemporalResultName | create_silver_label.py:199-203 | the column a temporal run writes: `temporal_` followed by it is the target name |
| ClusterColumns.TemporalTargetsWritePlainTargets | create_silver_label.py:199-203 | every temporal target writes the name of one of the plain targets, so a temporal run overwrites the ids of its plain run |
| ClusterColumns.TemporalTargetName | create_silver_label.py:38-47 | the temporal target at position k is `temporal_` followed by the plain target at k - 16 |
| ClusterColumns.AssignmentMeaning | create_silver_label.py:188-191 | a row is a key iff some community lists it, and its value is the last community listing it (`update` overwrites) |
| ClusterColumns.BuildAssignment | create_silver_label.py:188-191 | the dictionary built by the loop is `Assignment` (also lines 214-217) |
| ClusterColumns.ClusterColumn | create_silver_label.py:193 | as written: each index label gets null iff no community lists it, otherwise the last community listing it, an id below the number of communities (also line 219) |
| ClusterColumns.ClusterColumnByPosition | create_silver_label.py:193 | corrected: row k gets null iff no community lists position k, otherwise the last community listing k |
| ClusterColumns.LabelLookupMissesRows | create_silver_label.py:193 | after row 0 is dropped, index [1, 2] with community [0, 1] gives [0, null], while by position it gives [0, 0] |
| TemporalDenoiser.MostCommon | create_silver_label.py:263-265 | the result occurs in the list and no element occurs more often; among the labels of maximal count it is the one a CPython set of labels yields first (the smallest non-negative one, -1 only when no other ties) |
| TemporalDenoiser.MaxByCount | create_silver_label.py:264-265 | `max` over the set's labels in iteration order: the result is one of them, with maximal count, and ahead in set order of every other label with that count |
| TemporalDenoiser.MostCommonNoise | create_silver_label.py:263-265 | the noise label -1 wins only when every cluster label (>= 0) occurs strictly less often, and it wins whenever every other label does |
| TemporalDenoiser.NoiseLosesTie | create_silver_label.py:263-265 | [-1, -1, -1, 0, 0, 0] yields 0: a tie between noise and a cluster goes to the cluster |
| TemporalDenoiser.Members | create_silver_label.py:233 | exactly the rows whose id is the cluster; non-empty for an id that occurs |
| TemporalDenoiser.DominantLabelOccurs | create_silver_label.py:245 | the dominant label is the label of some member of the cluster |
| TemporalDenoiser.RunTemporalClustering | create_silver_label.py:231-259 | the loop's outcome is `Denoise`, whose meaning the two lemmas below state |
| TemporalDenoiser.OutlierFramesMembers | create_silver_label.py:238-243 | a row is among the outliers of the visited ids iff it has a visited non-null id and label -1 |
| TemporalDenoiser.KeptFramesMembers | create_silver_label.py:245-253 | a row is kept iff it has a visited non-null id and carries its cluster's dominant label, which is not -1 |
| TemporalDenoiser.KeptFramesLast | create_silver_label.py:245-253 | a visited id appends its dominant rows iff it is non-null and its dominant label is not -1, and leaves the list unchanged otherwise |
| TemporalDenoiser.DenoisePartition | create_silver_label.py:231-258 | when the run succeeds: null ids are skipped; the outliers are exactly the rows labelled -1; the kept rows are exactly those with their cluster's dominant non-noise label; the two are disjoint |
| TemporalDenoiser.DenoiseFailures | create_silver_label.py:257-259 | the run raises at 258 iff every id is null, and at 259 iff some id is non-null and every cluster's dominant label is -1 |
| OosFilter.ClusterRows | create_silver_label.py:276 | exactly the rows with that non-null id; a null id selects nothing |
| OosFilter.OnlyOosIff | create_silver_label.py:274-275 | the distinct event types are exactly ["oos"] iff the id is non-null, occurs, and all its rows are predicted "oos" |
| OosFilter.RouteClusters | create_silver_label.py:273-278 | the loop over the ids builds `df_list` and `oos_df_list` as the kept and oos frame lists of those ids |
| OosFilter.RemoveOosClusters | create_silver_label.py:271-286 | the loop's outcome is `RemoveOos`, whose meaning the lemmas below state |
| OosFilter.FramesMembers | create_silver_label.py:273-278 | a row is in the kept (oos) lists of the visited ids iff its non-null id was visited and is not (is) out of scope |
| OosFilter.KeptFramesCount | create_silver_label.py:273-279 | `df_list` stays empty iff every visited id is out of scope |
| OosFilter.OosFramesCount | create_silver_label.py:278-285 | `oos_df_list` stays empty iff no visited id is out of scope |
| OosFilter.RemoveOosRoutesWholeClusters | create_silver_label.py:273-285 | every non-null cluster goes wholly to exactly one output, to the oos output iff it is out of scope; null rows go nowhere; `oos_df` is None iff no cluster is out of scope |
| OosFilter.RemoveOosFails | create_silver_label.py:279 | the concatenation raises iff every row belongs to an out-of-scope cluster |
| Common.UniqueSingleton | create_silver_label.py:274-275 | the distinct values are exactly [x] iff the list is non-empty and holds only x |
| OosFilter.MixedClusterRouting | create_silver_label.py:274-275 | clusters {oos, oos, flood} and {oos, oos}: the first is not out of scope, the second is |
| OosFilter.MixedClusterSucceeds | create_silver_label.py:273-279 | clusters {oos, oos, flood} and {oos, oos}: the run succeeds |
| OosFilter.MixedClusterKeptRow | create_silver_label.py:273-276 | in that example a row is kept iff it belongs to the mixed cluster |
| OosFilter.MixedClusterOosRow | create_silver_label.py:273-285 | in that example a row goes to the oos output iff it belongs to the all-oos cluster |
| OosFilter.MixedClusterKept | create_silver_label.py:273-286 | both outputs of that example, in full |
| Entities.FirstOccurrenceMeaning | create_silver_label.py:123-130 | a key is present iff some pair mentions it, and it keeps the value of its first mention |
| Entities.FillFirstOccurrence | create_silver_label.py:123-130 | each loop, skipping keys already present, builds the first-occurrence map of its pairs |
| Entities.GetEntityInfo | create_silver_label.py:119-131 | both dictionaries built by the loops are the first-occurrence maps of their mention lists |
| Entities.Tally | create_silver_label.py:341-342 | `Counter`: a key iff the entity occurs, valued by its number of occurrences |
| Entities.EntityCounts | create_silver_label.py:326-342 | a cluster id is a key iff it occurs in the column |
| Entities.CollectMentions | create_silver_label.py:331-337 | the keys collected row by row are the cluster's rows' keys, in frame order |
| Entities.CountsOverAll | create_silver_label.py:326-342 | once every id of the column is visited, the counts are the entity counts of every cluster |
| Entities.CountClusterEntities | create_silver_label.py:326-342 | the counting loop builds `EntityCounts` |
| Entities.EntityCountIsRowCount | create_silver_label.py:331-342 | an entity is counted for a cluster iff some row of it names the entity, and its count is the number of such rows |
| Entities.FilterEntities | create_silver_label.py:413-422 | the same cluster keys; exactly the entities counted more than 4 times, with their counts |
| Entities.FilterEntitiesIdempotent | create_silver_label.py:413-422 | filtering twice is filtering once |
| Entities.IntersectionBound | create_silver_label.py:428 | the shared entities number at most the size of either map |
| Entities.Similarity | create_silver_label.py:424-430 | a value in [0, 1], equal to 0 when both maps are empty; otherwise its product with the larger size is the number of shared entities |
| Entities.SimilaritySymmetric | create_silver_label.py:424-430 | the similarity does not depend on the order of the pair |
| Entities.SimilarEnough | create_silver_label.py:381 | the similarity reaches 0.5 iff the larger map is non-empty and twice the shared entities reach its size |
| Entities.HalfOrMore | create_silver_label.py:381 | for a positive denominator, the ratio reaches one half iff twice the numerator reaches the denominator |
| Entities.SimilarityExample | create_silver_label.py:424-430 | {A, B, C} against {B, C, D} gives 2/3 |
| MergeCandidates.DayDifference | create_silver_label.py:432-435 | the absolute difference of two day numbers |
| MergeCandidates.SpanDistanceIsGap | create_silver_label.py:368-377 | for proper spans the distance is 0 iff they intersect, otherwise the gap between the nearer edges |
| MergeCandidates.SpanDistanceSymmetric | create_silver_label.py:368-377 | for proper spans the distance does not depend on their order |
| MergeCandidates.SpanDistanceExample | create_silver_label.py:368-377 | spans 1-5 and 10-20 lie 5 days apart in either order; spans 1-5 and 5-9 lie 0 days apart |
| MergeCandidates.MinOf | create_silver_label.py:359-364 | `min` over a non-empty list: an element no greater than any other |
| MergeCandidates.MaxOf | create_silver_label.py:361-366 | `max` over a non-empty list: an element no smaller than any other |
| MergeCandidates.DatesOf | create_silver_label.py:359-366 | a cluster that occurs has at least one start date |
| MergeCandidates.PairDistanceMeaning | create_silver_label.py:359-377 | two clusters are 0 days apart iff their date spans share a day; the distance is symmetric |
| MergeCandidates.Candidates | create_silver_label.py:357-382 | there are no more candidates than pairs |
| MergeCandidates.CandidatesMembers | create_silver_label.py:357-382 | a pair is appended iff it is among the pairs and passes the test |
| MergeCandidates.CandidatesAppend | create_silver_label.py:357-382 | the candidates of two runs of pairs, one after the other, are the candidates of the first run followed by those of the second, in order |
| MergeCandidates.CandidatesAsFilter | create_silver_label.py:357-382 | the candidates are the pairs that pass the test, kept in their original order |
| MergeCandidates.TestPair | create_silver_label.py:359-381 | the span computation and the two thresholds decide the test `IsCandidate` of the pair |
| MergeCandidates.SelectCandidates | create_silver_label.py:357-382 | the loop over the pairs, in order, builds `Candidates` of those pairs |
| MergeCandidates.PairsKnown | create_silver_label.py:350-352 | every pair of distinct ids consists of ids that occur in the column and have entity maps |
| MergeCandidates.IsCandidateIff | create_silver_label.py:380-381 | the test without division: at most 10 days apart, some filtered map non-empty, and twice the shared entities reach the larger size |
| MergeCandidates.IsCandidateSymmetric | create_silver_label.py:380-381 | the test does not depend on the order of the pair |
| MergeCandidates.FindCandidates | create_silver_label.py:351-382 | over every pair of distinct ids, in `combinations` order, `merged_clusters` is `Candidates` of those pairs |
| Common.Pairs | create_silver_label.py:352 | every pair of `combinations(_, 2)` is made of elements of the list |
| Common.PairsLength | create_silver_label.py:352 | there are n(n-1)/2 pairs of a list of n |
| Common.PairsAt | create_silver_label.py:352 | (s[i], s[j]) with i < j sits at position `PairIndex(n, i, j)`, the lexicographic rank of (i, j) |
| Common.PairIndexIncreasing | create_silver_label.py:352 | a lexicographically smaller (i, j) has a smaller rank, so the pairs come in lexicographic order of positions |
| Common.PairsPositions | create_silver_label.py:352 | every pair is (s[i], s[j]) for some positions i < j |
| Common.PairsComplete | create_silver_label.py:352 | every (s[i], s[j]) with i < j is among the pairs |
| Common.Unique | create_silver_label.py:273 | `unique()`: the same elements, each once |
| Common.UniqueFirstAppearance | create_silver_label.py:273 | the elements come in order of first appearance: whatever precedes an element of `unique()` occurs before that element's every occurrence |
| MergeGroups.Chain | create_silver_label.py:392 | `list(chain(*clusters))` has four ids, exactly the ids of the two pairs |
| MergeGroups.HasOverlapIff | create_silver_label.py:437-440 | two pairs overlap iff they share an id |
| MergeGroups.LastGroupWith | create_silver_label.py:396-399 | the highest-index group holding the id, or none iff no group holds it |
| MergeGroups.LastMatch | create_silver_label.py:394-399 | none iff no group holds any of the four ids; otherwise a group holding one of them |
| MergeGroups.LastMatchIsLastHit | create_silver_label.py:394-399 | the match is decided by the last id of the chain found in any group, and it is the last group holding that id |
| MergeGroups.ScanGroups | create_silver_label.py:394-399 | `merge` and `merge_index` after the nested scan are those of `LastMatch` |
| MergeGroups.GroupStep | create_silver_label.py:388-403 | one iteration adds at most one group; existing groups are only extended; new ids come from an overlapping pair of pairs |
| MergeGroups.GroupStepRule | create_silver_label.py:388-403 | without overlap nothing changes; on the first iteration or with no match the chain is appended as a new group; otherwise exactly the `LastMatch` group is extended by the chain and every other group is unchanged |
| MergeGroups.Grouping | create_silver_label.py:384-403 | no more groups than pairs of pairs, and every group holds at least four ids |
| MergeGroups.GroupingExtends | create_silver_label.py:387-403 | a later state of `updated_clusters` extends every group of an earlier one |
| MergeGroups.GroupingMembers | create_silver_label.py:387-403 | every grouped id belongs to a visited pair of pairs that overlap |
| MergeGroups.GroupedIdsShareCandidates | create_silver_label.py:384-403 | every grouped id belongs to one of two candidate pairs that share an id |
| MergeGroups.LonePairNeverGrouped | create_silver_label.py:384-403 | a candidate pair that shares no id with any other candidate pair never enters a group |
| MergeGroups.GroupCandidates | create_silver_label.py:384-403 | the loop builds `Grouping` of the pairs of candidate pairs |
| ClusterMerger.Deduplicated | create_silver_label.py:405 | each group keeps the same ids, each once |
| ClusterMerger.DeduplicatedNonEmpty | create_silver_label.py:405 | de-duplicating non-empty groups leaves them non-empty |
| ClusterMerger.Replace | create_silver_label.py:408 | no row keeps an id of `cluster[1:]` other than `cluster[0]`; rows with other ids are unchanged; a changed row had an id of `cluster[1:]` and now holds `cluster[0]` |
| ClusterMerger.NewId | create_silver_label.py:406-408 | an id ends as itself or as the first id of some cluster; it is kept if no cluster lists it after its first place |
| ClusterMerger.RelabelledRows | create_silver_label.py:406-408 | each row's new id depends only on its old id |
| ClusterMerger.RelabelledMeaning | create_silver_label.py:406-410 | the length is the row count; equal ids stay equal; ids in no `cluster[1:]` are kept; every other row holds some cluster's first id |
| ClusterMerger.RelabelDependsOnOrder | create_silver_label.py:405-408 | the same two groups relabel the rows 1..7 into two clusters when the first group is listed from 1, and into one when it is listed from 2 |
| ClusterMerger.RelabelColumn | create_silver_label.py:406-408 | the replace loop yields `Relabelled` |
| ClusterMerger.EntityMaps | create_silver_label.py:326-347 | the filtered entity maps have a key for exactly the ids in the column |
| ClusterMerger.ClustersOf | create_silver_label.py:384-405 | every cluster to merge has a first id |
| ClusterMerger.MergedColumn | create_silver_label.py:319-410 | `new_cluster` has one id per row |
| ClusterMerger.MergeCluster | create_silver_label.py:319-410 | the imperative `merge_cluster` yields `MergedColumn` |
| ClusterMerger.UngroupedIdsKept | create_silver_label.py:384-410 | a row whose id is in no candidate pair overlapping another keeps its id |
| ClusterMerger.NoCandidatesNoChange | create_silver_label.py:357-410 | without candidate pairs, `new_cluster` equals the cluster column |
| ClusterMerger.SingleCandidateNotMerged | create_silver_label.py:384-410 | the single candidate pair (1, 2) forms no group, so clusters 1 and 2 stay apart |
| Components.LabelSame | create_silver_label.py:384-410 | corrected: two ids get the same representative iff the candidate pairs connect them |
| Components.LabelIdempotent | create_silver_label.py:384-410 | corrected: a representative is its own representative |
| Components.SameIsEquivalence | create_silver_label.py:384-410 | connectedness is reflexive, symmetric and transitive |
| Components.SameJoinsEdges | create_silver_label.py:384-410 | the two ids of every candidate pair are connected |
| Components.SameIsLeast | create_silver_label.py:384-410 | any id assignment that agrees on every candidate pair agrees on connected ids |
| Components.SameUntouched | create_silver_label.py:384-410 | an id in no candidate pair is connected only to itself |
| Components.ComponentColumnMeaning | create_silver_label.py:384-410 | corrected: rows share a new id iff their old ids are connected; a new id lies in its old id's component; an id in no pair is kept |
| Components.SingleCandidateMerged | create_silver_label.py:384-410 | corrected: the single candidate pair (1, 2) merges clusters 1 and 2 |
| Components.MergedByComponents | create_silver_label.py:319-410 | corrected `new_cluster` over the same candidate pairs: one id per row |

## Left out

- Foreign computations are inputs:
  - `SentenceTransformer.encode` and `util.community_detection` (lines 173-185, 197-210) become the list of communities;
  - `DBSCAN.fit` (line 236) becomes a label per row;
  - the float `normalized_date` (lines 234-235) is not modelled.
- Network and NLP calls are out:
  - the `run_coypu_ee` HTTP post (lines 134-142);
  - the batching and checkpoint loop of `annotate_event_type` (lines 91-107);
  - spaCy loading and parsing (lines 51-57, 122);
  - `aggregate_news` (lines 86-89).
- `get_entity_from_spacy` takes the entity (text, label) and linked (alias, url) pairs as given sequences.
- CSV reading and writing, the checkpoint file-existence tests (lines 224, 268), and progress output are out.
  - The `forced` early returns are not modelled. The title clustering, temporal and oos steps are called with `forced=True` (lines 76-80).
  - `get_entity_from_spacy` runs inside `annotate_entity`, which the pipeline calls with `forced=False` (line 74). It then runs only when the frame has no `entities` column yet (lines 109-110). The model describes that case and leaves the column test out.
- The JSON re-parsing of the `entities` string (lines 333-335) is out. Each row's entity-type keys are given as parsed.
- The linked-entity, GPE, event-type and timestamp maps (lines 320-345) and `temporal_similarity_cluster_dict` (line 379) are not modelled. They are built but never read.
- Column names: deriving a name from its float threshold (lines 176-178, 201-203) is float formatting. The model takes it as exact for the two-digit target thresholds, so a run's column is its target name (without `temporal_` for a temporal run).
  - Line 203 writes the temporal results under the plain `cluster_…` name, not the `temporal_cluster_…` one; `ClusterColumns.TemporalTargetsWritePlainTargets` states this for every temporal target.
  - The temporal and oos steps read `cluster_50_90`, while the merger reads `cluster_50_70`. The model takes the column each step reads as a parameter.
- Dates are integer day numbers, and ISO date strings order the same way. `pd.to_datetime` (line 227) is not modelled.
- MergeCandidates.TestPair: compares the day numbers directly, as the date test evidently intends. As written, `start_date` is converted to datetimes at line 227 and stays so through the concatenations at lines 255 and 279. The `datetime.strptime` calls at lines 359-366 then receive `numpy.datetime64` values and raise TypeError, so `merge_cluster` fails whenever there are at least two cluster ids to compare. That failure is not modelled.
- TemporalDenoiser.MostCommon: `max(set(lst), key=lst.count)` keeps the first maximal label in the iteration order of a Python set. The model fixes that order as CPython iterates a set of DBSCAN labels: the non-negative labels ascending, then -1 (`SetBefore`). This is exact for the labels 0..K-1 that DBSCAN assigns: small integers hash to themselves, and -1 hashes to -2, the second-last slot, which CPython's sparse set table keeps past them. Labels below -1 never occur.
- ClusterMerger.Deduplicated: `list(set(c))` (line 405) orders the string ids of a group by their seeded hash, and the model keeps first occurrences instead. The head of each group decides more than its name: `ClusterMerger.RelabelDependsOnOrder` shows groups {1, 2, 4, 5, 6, 7} and {2, 3, 5} (from the candidate pairs (1, 4), (1, 6), (2, 3), (2, 5), (4, 7), (5, 7)) leaving row 3 apart when the first group is headed by 1, and merging all seven rows when it is headed by 2. So the partition written to `new_cluster` depends on the hash order, and the model describes one of the possible outcomes.
- ClusterMerger.MergeCluster: assumes the `cluster_50_70` column holds no missing ids. A kept row can hold one (see the Findings row for line 193). The selections at lines 327 and 359-366 are then taken against a missing id, and the source raises ValueError there (a boolean mask holding missing values, or `min` of an empty selection at line 359). That failure is not modelled. Ids are compared as numbers, where the source compares them as strings (lines 325, 408). This is the same for the decimal strings of distinct ids.
- Entities.Similarity: Python's float division is modelled as exact real division. The `>= 0.5` test agrees with the float one for maps below about 2^53 entries.
- `clustering_analysis` (lines 288-317) is not modelled. The pipeline calls it with `forced=False` (line 82), so it returns at once.
- models/EventPairwiseTemporalityEvaluator.py is not part of this model. It is a tensor and metrics evaluation harness.

## Findings

| source | as written | input that shows it | evidently intended | confidence | as-written member | corrected member |
|---|---|---|---|---|---|---|
| create_silver_label.py:148-151 | iterates the characters of the title, so a title with a stick becomes its first character | the title "Flood", stick, "News" becomes "F" | split on the stick and keep the longest part, "Flood" | not executed | Titles.StickTitleKeepsFirstCharacter | Titles.NormaliseTitleBySegments |
| create_silver_label.py:193 | looks up each row's index label, but the communities list row positions; after `drop_duplicates` the two differ | index [1, 2], community [0, 1]: the second row gets null | row k takes the community of position k | not executed | ClusterColumns.LabelLookupMissesRows | ClusterColumns.ClusterColumnByPosition |
| create_silver_label.py:384-403 | groups only pairs of candidate pairs that share an id, so a candidate pair that overlaps no other pair is never merged | the single candidate pair (1, 2): clusters 1 and 2 stay apart | merge every set of clusters connected through candidate pairs | not executed | ClusterMerger.SingleCandidateNotMerged | Components.ComponentColumnMeaning |
