/**
 * `merge_cluster` as a whole: count the entities of every cluster, keep the
 * frequent ones, pick the candidate pairs, group them, and relabel the
 * cluster column so that every id of a group takes the group's first id
 * (lines 319-410). The column holds the cluster ids of the rows; the start
 * dates are day numbers, and each row's entity keys are given as parsed.
 */
module ClusterMerger {
  import opened Common
  import Entities
  import MergeCandidates
  import MergeGroups

  /** `clusters_to_merge` (line 405): every group with its repetitions dropped. */
  function Deduplicated(groups: seq<seq<nat>>): (clusters: seq<seq<nat>>)
    ensures |clusters| == |groups|
    ensures forall g :: 0 <= g < |groups| ==>
      (forall x :: x in clusters[g] <==> x in groups[g]) &&
      (forall i, j :: 0 <= i < j < |clusters[g]| ==> clusters[g][i] != clusters[g][j])
  {
    seq(|groups|, g requires 0 <= g < |groups| => Unique(groups[g]))
  }

  /** Every cluster to merge has a first id (the groups are never empty). */
  predicate NonEmpty(clusters: seq<seq<nat>>)
  {
    forall g :: 0 <= g < |clusters| ==> clusters[g] != []
  }

  lemma DeduplicatedNonEmpty(groups: seq<seq<nat>>)
    requires forall g :: 0 <= g < |groups| ==> groups[g] != []
    ensures NonEmpty(Deduplicated(groups))
  {
    var clusters := Deduplicated(groups);
    forall g | 0 <= g < |groups|
      ensures clusters[g] != []
    {
      assert groups[g][0] in clusters[g];
    }
  }

  /**
   * `Series.replace(cluster[1:], cluster[0])` (line 408) on the whole column:
   * afterwards no row holds an id of `cluster[1:]` other than `cluster[0]`,
   * and every row whose id is not in `cluster[1:]` keeps it.
   */
  function Replace(column: seq<nat>, cluster: seq<nat>): (r: seq<nat>)
    requires cluster != []
    ensures |r| == |column|
    ensures forall k :: 0 <= k < |column| ==> r[k] == cluster[0] || r[k] !in cluster[1..]
    ensures forall k :: 0 <= k < |column| && column[k] !in cluster[1..] ==> r[k] == column[k]
    ensures forall k :: 0 <= k < |column| && r[k] != column[k] ==> column[k] in cluster[1..] && r[k] == cluster[0]
  {
    seq(|column|, k requires 0 <= k < |column| => if column[k] in cluster[1..] then cluster[0] else column[k])
  }

  /** The column after the replace steps for `clusters`, in order (lines 406-408). */
  function Relabelled(column: seq<nat>, clusters: seq<seq<nat>>): (r: seq<nat>)
    requires NonEmpty(clusters)
    ensures |r| == |column|
  {
    if clusters == [] then column
    else
      var n := |clusters| - 1;
      Replace(Relabelled(column, clusters[..n]), clusters[n])
  }

  /**
   * What the replace steps make of one id: it passes through the clusters
   * in order, and each cluster that lists it after its first place sends it
   * to its first id.
   */
  function NewId(clusters: seq<seq<nat>>, v: nat): (w: nat)
    requires NonEmpty(clusters)
    ensures w == v || exists g :: 0 <= g < |clusters| && w == clusters[g][0]
    ensures (forall g :: 0 <= g < |clusters| ==> v !in clusters[g][1..]) ==> w == v
  {
    if clusters == [] then v
    else
      var n := |clusters| - 1;
      var before := NewId(clusters[..n], v);
      assert forall g :: 0 <= g < n ==> clusters[..n][g] == clusters[g];
      if before in clusters[n][1..] then clusters[n][0] else before
  }

  /**
   * The relabelled column maps every row through `NewId`: a row's new id
   * depends only on its old id.
   */
  lemma {:induction false} RelabelledRows(column: seq<nat>, clusters: seq<seq<nat>>, k: nat)
    requires NonEmpty(clusters) && k < |column|
    ensures Relabelled(column, clusters)[k] == NewId(clusters, column[k])
  {
    if clusters != [] {
      RelabelledRows(column, clusters[..|clusters| - 1], k);
    }
  }

  /**
   * The relabelling keeps the length, never splits a cluster (rows with
   * equal ids get equal new ids), leaves every id that no cluster lists
   * after its first place unchanged, and gives every other row the first
   * id of some cluster.
   */
  lemma {:induction false} RelabelledMeaning(column: seq<nat>, clusters: seq<seq<nat>>)
    requires NonEmpty(clusters)
    ensures var r := Relabelled(column, clusters);
      && |r| == |column|
      && (forall k1, k2 :: 0 <= k1 < |column| && 0 <= k2 < |column| && column[k1] == column[k2] ==> r[k1] == r[k2])
      && (forall k :: 0 <= k < |column| && (forall g :: 0 <= g < |clusters| ==> column[k] !in clusters[g][1..]) ==>
            r[k] == column[k])
      && (forall k :: 0 <= k < |column| ==> r[k] == column[k] || exists g :: 0 <= g < |clusters| && r[k] == clusters[g][0])
  {
    forall k | 0 <= k < |column| {
      RelabelledRows(column, clusters, k);
    }
  }

  /** The loop of lines 406-408. */
  method RelabelColumn(column: seq<nat>, clusters: seq<seq<nat>>) returns (clusterCol: seq<nat>)
    requires NonEmpty(clusters)
    ensures clusterCol == Relabelled(column, clusters)
  {
    clusterCol := column;
    for i := 0 to |clusters|
      invariant clusterCol == Relabelled(column, clusters[..i])
    {
      assert clusters[..i + 1][..i] == clusters[..i];
      var cluster := clusters[i];
      clusterCol := Replace(clusterCol, cluster);
    }
    assert clusters[..|clusters|] == clusters;
  }

  /** The filtered entity maps of every cluster (lines 326-347). */
  function EntityMaps(column: seq<nat>, mentions: seq<seq<string>>): (maps: map<nat, map<string, nat>>)
    requires |mentions| == |column|
    ensures forall c :: c in maps <==> c in column
  {
    Entities.FilterEntities(Entities.EntityCounts(column, mentions))
  }

  /** `merged_clusters`: the candidate pairs among all pairs of distinct ids. */
  function CandidatePairs(column: seq<nat>, dates: seq<int>, mentions: seq<seq<string>>): seq<(nat, nat)>
    requires |dates| == |column| && |mentions| == |column|
  {
    var maps := EntityMaps(column, mentions);
    var pairs := Pairs(Unique(column));
    assert forall k :: 0 <= k < |pairs| ==> MergeCandidates.Known(column, maps, pairs[k]);
    MergeCandidates.Candidates(column, dates, maps, pairs)
  }

  /** `clusters_to_merge` for the candidate pairs `merged`: their groups, deduplicated. */
  function ClustersOf(merged: seq<(nat, nat)>): (clusters: seq<seq<nat>>)
    ensures NonEmpty(clusters)
  {
    var groups := MergeGroups.Grouping(Pairs(merged));
    DeduplicatedNonEmpty(groups);
    Deduplicated(groups)
  }

  /** `new_cluster`: the column that `merge_cluster` writes out. */
  function MergedColumn(column: seq<nat>, dates: seq<int>, mentions: seq<seq<string>>): (r: seq<nat>)
    requires |dates| == |column| && |mentions| == |column|
    ensures |r| == |column|
  {
    Relabelled(column, ClustersOf(CandidatePairs(column, dates, mentions)))
  }

  /** `merge_cluster`, from the cluster column to `new_cluster`. */
  method MergeCluster(column: seq<nat>, dates: seq<int>, mentions: seq<seq<string>>) returns (newCluster: seq<nat>)
    requires |dates| == |column| && |mentions| == |column|
    ensures newCluster == MergedColumn(column, dates, mentions)
  {
    var counts := Entities.CountClusterEntities(column, mentions);
    var filtered := Entities.FilterEntities(counts);
    var merged := MergeCandidates.FindCandidates(column, dates, filtered);
    var updated := MergeGroups.GroupCandidates(merged);
    var clustersToMerge := Deduplicated(updated);
    assert clustersToMerge == ClustersOf(CandidatePairs(column, dates, mentions));
    newCluster := RelabelColumn(column, clustersToMerge);
  }

  /**
   * Only ids of candidate pairs that share an id with another candidate
   * pair can change: a row whose id lies in no such pair keeps its id.
   */
  lemma UngroupedIdsKept(column: seq<nat>, merged: seq<(nat, nat)>, k: nat)
    requires k < |column|
    requires forall i, j :: 0 <= i < j < |merged| && MergeGroups.HasOverlap(merged[i], merged[j]) ==>
      column[k] !in MergeGroups.Ids(merged[i]) && column[k] !in MergeGroups.Ids(merged[j])
    ensures Relabelled(column, ClustersOf(merged))[k] == column[k]
  {
    var groups := MergeGroups.Grouping(Pairs(merged));
    var clusters := ClustersOf(merged);
    forall g | 0 <= g < |clusters|
      ensures column[k] !in clusters[g][1..]
    {
      if column[k] in groups[g] {
        MergeGroups.GroupedIdsShareCandidates(merged, g, column[k]);
      }
    }
    RelabelledMeaning(column, clusters);
  }

  /** Without candidate pairs, `new_cluster` is the cluster column itself. */
  lemma NoCandidatesNoChange(column: seq<nat>, dates: seq<int>, mentions: seq<seq<string>>)
    requires |dates| == |column| && |mentions| == |column|
    requires CandidatePairs(column, dates, mentions) == []
    ensures MergedColumn(column, dates, mentions) == column
  {
    assert Pairs(CandidatePairs(column, dates, mentions)) == [];
  }

  /**
   * The single candidate pair (1, 2) forms no pair of pairs, so no group
   * arises and the clusters 1 and 2 stay apart.
   */
  lemma SingleCandidateNotMerged()
    ensures MergeGroups.Grouping(Pairs([(1, 2)])) == []
    ensures Relabelled([1, 2], ClustersOf([(1, 2)])) == [1, 2]
  {
    assert Pairs([(1, 2)]) == [];
  }

  /**
   * Which id heads a group decides the partition, not only the names. For the
   * groups {1, 2, 4, 5, 6, 7} and {2, 3, 5}, listing the first group from 1
   * leaves row 3 apart as cluster 2, while listing it from 2 puts every row
   * into cluster 2. `list(set(c))` (line 405) fixes that order by hashing.
   */
  lemma RelabelDependsOnOrder()
    ensures Relabelled([1, 2, 3, 4, 5, 6, 7], [[1, 4, 6, 7, 2, 5], [2, 3, 5]]) == [1, 1, 2, 1, 1, 1, 1]
    ensures Relabelled([1, 2, 3, 4, 5, 6, 7], [[2, 1, 4, 6, 7, 5], [2, 3, 5]]) == [2, 2, 2, 2, 2, 2, 2]
  {
    var column: seq<nat> := [1, 2, 3, 4, 5, 6, 7];
    var first: seq<seq<nat>> := [[1, 4, 6, 7, 2, 5], [2, 3, 5]];
    var second: seq<seq<nat>> := [[2, 1, 4, 6, 7, 5], [2, 3, 5]];
    assert first[..1][..0] == [] && second[..1][..0] == [];
    assert Relabelled(column, first[..1]) == [1, 1, 3, 1, 1, 1, 1] by {
      assert Relabelled(column, first[..1]) == Replace(column, first[0]);
    }
    assert Relabelled(column, second[..1]) == [2, 2, 3, 2, 2, 2, 2] by {
      assert Relabelled(column, second[..1]) == Replace(column, second[0]);
    }
  }
}
