/**
 * Temporal denoising (`run_temporal_clustering` and `most_common`). For each
 * non-null cluster id the density clustering labels the cluster's rows by
 * date; its label sequence is an input here, written beside the rows it was
 * computed for: `labels[p]` is the label that row p received inside its own
 * cluster (-1 is noise). Rows with a null id carry a label that is never read.
 */
module TemporalDenoiser {
  import opened Common

  const Noise: int := -1

  /**
   * The order in which CPython iterates `set(lst)` for DBSCAN's labels -1,
   * 0, 1, ...: a small non-negative int hashes to itself and lands in the
   * slot of that number, so these come out ascending; -1 hashes to -2 and
   * lands in one of the table's last slots, after them. Labels below -1
   * never occur and are put last, nearest to zero first.
   */
  predicate SetBefore(x: int, y: int)
  {
    if x >= 0 && y >= 0 then x < y
    else if x >= 0 then true
    else if y >= 0 then false
    else x > y
  }

  /**
   * `max(cands, key=lst.count)` with `cands` iterated in `SetBefore` order,
   * whatever order `cands` is listed in: the first of the labels of maximal
   * count in that order.
   */
  function MaxByCount(lst: seq<int>, cands: seq<int>): (m: int)
    requires |cands| > 0
    ensures m in cands
    ensures forall x :: x in cands ==>
      Count(lst, x) < Count(lst, m) || (Count(lst, x) == Count(lst, m) && (x == m || SetBefore(m, x)))
  {
    var n := |cands| - 1;
    if n == 0 then cands[0]
    else
      var best := MaxByCount(lst, cands[..n]);
      assert cands == cands[..n] + [cands[n]];
      var c := cands[n];
      if Count(lst, c) > Count(lst, best) || (Count(lst, c) == Count(lst, best) && SetBefore(c, best)) then c else best
  }

  /**
   * `most_common(lst)`: a label of maximal count; among labels of equal
   * count the one CPython's set iteration yields first.
   */
  function MostCommon(lst: seq<int>): (m: int)
    requires |lst| > 0
    ensures m in lst
    ensures forall x :: x in lst ==> Count(lst, x) <= Count(lst, m)
    ensures forall x :: x in lst && x != m && Count(lst, x) == Count(lst, m) ==> SetBefore(m, x)
  {
    assert lst[0] in Unique(lst);
    MaxByCount(lst, Unique(lst))
  }

  /**
   * Noise is the most common label exactly when it occurs more often than
   * every cluster label; on a tie a cluster label wins.
   */
  lemma MostCommonNoise(lst: seq<int>)
    requires |lst| > 0
    ensures MostCommon(lst) == Noise ==> forall x :: x in lst && x >= 0 ==> Count(lst, x) < Count(lst, Noise)
    ensures Noise in lst && (forall x :: x in lst && x != Noise ==> Count(lst, x) < Count(lst, Noise)) ==>
      MostCommon(lst) == Noise
  {
    var m := MostCommon(lst);
    if m == Noise {
      forall x | x in lst && x >= 0
        ensures Count(lst, x) < Count(lst, Noise)
      {
        assert !SetBefore(m, x);
      }
    }
  }

  /** Three noise rows and three rows of cluster 0: the cluster label wins the tie. */
  lemma NoiseLosesTie()
    ensures MostCommon([-1, -1, -1, 0, 0, 0]) == 0
  {
    var lst := [-1, -1, -1, 0, 0, 0];
    var noise, zeros := [-1, -1, -1], [0, 0, 0];
    assert noise[..2] == [-1, -1] && [-1, -1][..1] == [-1];
    assert zeros[..2] == [0, 0] && [0, 0][..1] == [0];
    assert lst == noise + zeros;
    CountAppend(noise, zeros, 0);
    CountAppend(noise, zeros, -1);
    assert forall x :: x in lst ==> x == -1 || x == 0;
    assert !SetBefore(-1, 0);
  }

  /** The rows of `df.loc[df[clustering_col] == cluster]`. */
  function Members(column: seq<Option<nat>>, c: nat): (rows: seq<nat>)
    ensures forall p: nat :: p in rows <==> p < |column| && column[p] == Some(c)
    ensures forall i :: 0 <= i < |rows| ==> rows[i] < |column|
    ensures Some(c) in column ==> |rows| > 0
  {
    var rows := Positions(column, Some(c));
    assert Some(c) in column ==> exists p :: 0 <= p < |column| && column[p] == Some(c) && p in rows;
    rows
  }

  /** `clustering.labels_` for cluster c. */
  function ClusterLabels(column: seq<Option<nat>>, labels: seq<int>, c: nat): seq<int>
    requires |labels| == |column|
  {
    At(labels, Members(column, c))
  }

  /** `most_common(list(clustering.labels_))` for cluster c. */
  function DominantLabel(column: seq<Option<nat>>, labels: seq<int>, c: nat): int
    requires |labels| == |column| && Some(c) in column
  {
    MostCommon(ClusterLabels(column, labels, c))
  }

  /** The dominant label is the label of some row of the cluster. */
  lemma DominantLabelOccurs(column: seq<Option<nat>>, labels: seq<int>, c: nat)
    requires |labels| == |column| && Some(c) in column
    ensures exists p :: 0 <= p < |column| && column[p] == Some(c) && labels[p] == DominantLabel(column, labels, c)
  {
    var rows := Members(column, c);
    var lst := ClusterLabels(column, labels, c);
    var i :| 0 <= i < |lst| && lst[i] == DominantLabel(column, labels, c);
    assert column[rows[i]] == Some(c) && labels[rows[i]] == lst[i];
  }

  /** `outlier_df`: the members labelled as noise. */
  function OutlierRows(column: seq<Option<nat>>, labels: seq<int>, c: nat): seq<nat>
    requires |labels| == |column|
  {
    RowsLabelled(Members(column, c), labels, Noise)
  }

  /** `most_popular_cluster_df`: the members carrying the dominant label. */
  function DominantRows(column: seq<Option<nat>>, labels: seq<int>, c: nat): seq<nat>
    requires |labels| == |column| && Some(c) in column
  {
    RowsLabelled(Members(column, c), labels, DominantLabel(column, labels, c))
  }

  /** The list `df_outliers` after the clusters `ids` have been visited. */
  function OutlierFrames(column: seq<Option<nat>>, labels: seq<int>, ids: seq<Option<nat>>): seq<seq<nat>>
    requires |labels| == |column|
  {
    if ids == [] then []
    else
      var front := OutlierFrames(column, labels, ids[..|ids| - 1]);
      match ids[|ids| - 1]
      case None => front
      case Some(c) => front + [OutlierRows(column, labels, c)]
  }

  /** The list `df_removed_outliers` after the clusters `ids` have been visited. */
  function KeptFrames(column: seq<Option<nat>>, labels: seq<int>, ids: seq<Option<nat>>): seq<seq<nat>>
    requires |labels| == |column|
    requires forall id :: id in ids ==> id in column
  {
    if ids == [] then []
    else
      var front := KeptFrames(column, labels, ids[..|ids| - 1]);
      match ids[|ids| - 1]
      case None => front
      case Some(c) =>
        if DominantLabel(column, labels, c) != Noise then front + [DominantRows(column, labels, c)] else front
  }

  datatype TemporalError =
    | NoClusters      // `pd.concat([])` on the outlier list raises (line 258)
    | NothingKept     // `None.to_csv` raises (line 259)

  datatype Denoised = Denoised(kept: seq<nat>, outliers: seq<nat>)

  /** The outcome of `run_temporal_clustering` with `forced=True`. */
  function Denoise(column: seq<Option<nat>>, labels: seq<int>): Result<Denoised, TemporalError>
    requires |labels| == |column|
  {
    var ids := Unique(column);
    var keptFrames := KeptFrames(column, labels, ids);
    var outlierFrames := OutlierFrames(column, labels, ids);
    if outlierFrames == [] then Failure(NoClusters)
    else if keptFrames == [] then Failure(NothingKept)
    else Success(Denoised(Flatten(keptFrames), Flatten(outlierFrames)))
  }

  /** The loop of lines 231-261. */
  method RunTemporalClustering(column: seq<Option<nat>>, labels: seq<int>)
    returns (result: Result<Denoised, TemporalError>)
    requires |labels| == |column|
    ensures result == Denoise(column, labels)
  {
    var ids := Unique(column);
    var removedOutliers: seq<seq<nat>> := [];
    var outliers: seq<seq<nat>> := [];
    for i := 0 to |ids|
      invariant removedOutliers == KeptFrames(column, labels, ids[..i])
      invariant outliers == OutlierFrames(column, labels, ids[..i])
    {
      assert ids[..i + 1][..i] == ids[..i];
      var cluster := ids[i];
      if cluster.Some? {
        outliers := outliers + [OutlierRows(column, labels, cluster.value)];
        var mostPopulated := MostCommon(ClusterLabels(column, labels, cluster.value));
        if mostPopulated != Noise {
          removedOutliers := removedOutliers + [DominantRows(column, labels, cluster.value)];
        }
      }
    }
    assert ids[..|ids|] == ids;
    if outliers == [] {
      result := Failure(NoClusters);
    } else if removedOutliers == [] {
      result := Failure(NothingKept);
    } else {
      result := Success(Denoised(Flatten(removedOutliers), Flatten(outliers)));
    }
  }

  lemma {:induction false} OutlierFramesMembers(column: seq<Option<nat>>, labels: seq<int>, ids: seq<Option<nat>>, p: nat)
    requires |labels| == |column|
    ensures p in Flatten(OutlierFrames(column, labels, ids))
      <==> p < |column| && column[p].Some? && column[p] in ids && labels[p] == Noise
  {
    if ids != [] {
      var front, last := ids[..|ids| - 1], ids[|ids| - 1];
      OutlierFramesMembers(column, labels, front, p);
      assert ids == front + [last];
      var frontFrames := OutlierFrames(column, labels, front);
      match last
      case None =>
      case Some(c) =>
        var frames := frontFrames + [OutlierRows(column, labels, c)];
        assert frames[..|frames| - 1] == frontFrames;
        assert Flatten(frames) == Flatten(frontFrames) + OutlierRows(column, labels, c);
    }
  }

  lemma {:induction false} KeptFramesMembers(column: seq<Option<nat>>, labels: seq<int>, ids: seq<Option<nat>>, p: nat)
    requires |labels| == |column|
    requires forall id :: id in ids ==> id in column
    ensures p in Flatten(KeptFrames(column, labels, ids))
      <==> p < |column| && column[p].Some? && column[p] in ids &&
           labels[p] == DominantLabel(column, labels, column[p].value) != Noise
  {
    if ids != [] {
      var front, last := ids[..|ids| - 1], ids[|ids| - 1];
      assert ids == front + [last];
      assert forall id :: id in front ==> id in ids;
      KeptFramesMembers(column, labels, front, p);
      KeptFramesLast(column, labels, ids);
      if KeepsRows(column, labels, last) {
        FlattenSnoc(KeptFrames(column, labels, front), DominantRows(column, labels, last.value));
      }
    }
  }

  /** A visited id appends its dominant rows when it keeps rows, and nothing otherwise. */
  lemma KeptFramesLast(column: seq<Option<nat>>, labels: seq<int>, ids: seq<Option<nat>>)
    requires |labels| == |column|
    requires forall id :: id in ids ==> id in column
    requires ids != []
    ensures KeepsRows(column, labels, ids[|ids| - 1]) ==>
      KeptFrames(column, labels, ids) ==
        KeptFrames(column, labels, ids[..|ids| - 1]) + [DominantRows(column, labels, ids[|ids| - 1].value)]
    ensures !KeepsRows(column, labels, ids[|ids| - 1]) ==>
      KeptFrames(column, labels, ids) == KeptFrames(column, labels, ids[..|ids| - 1])
  {
    assert ids[|ids| - 1] in ids;
  }

  /**
   * The outliers are exactly the rows of non-null clusters labelled as
   * noise; the kept rows are exactly the rows of non-null clusters whose
   * label is their cluster's most common one, when that label is not noise.
   * Hence the two outputs are disjoint, and rows of any other label are in
   * neither.
   */
  lemma DenoisePartition(column: seq<Option<nat>>, labels: seq<int>, p: nat)
    requires |labels| == |column|
    ensures Denoise(column, labels).Success? ==>
      (p in Denoise(column, labels).value.outliers <==> p < |column| && column[p].Some? && labels[p] == Noise)
    ensures Denoise(column, labels).Success? ==>
      (p in Denoise(column, labels).value.kept <==>
        p < |column| && column[p].Some? && labels[p] == DominantLabel(column, labels, column[p].value) != Noise)
    ensures Denoise(column, labels).Success? ==>
      !(p in Denoise(column, labels).value.kept && p in Denoise(column, labels).value.outliers)
  {
    var ids := Unique(column);
    OutlierFramesMembers(column, labels, ids, p);
    KeptFramesMembers(column, labels, ids, p);
  }

  /**
   * The run fails at line 258 exactly when no row has a cluster id, and at
   * line 259 exactly when every cluster's most common label is noise.
   */
  lemma DenoiseFailures(column: seq<Option<nat>>, labels: seq<int>)
    requires |labels| == |column|
    ensures Denoise(column, labels) == Failure(NoClusters) <==>
      forall p :: 0 <= p < |column| ==> column[p].None?
    ensures Denoise(column, labels) == Failure(NothingKept) <==>
      (exists p :: 0 <= p < |column| && column[p].Some?) &&
      forall p :: 0 <= p < |column| && column[p].Some? ==> DominantLabel(column, labels, column[p].value) == Noise
  {
    var ids := Unique(column);
    var keptFrames := KeptFrames(column, labels, ids);
    var outlierFrames := OutlierFrames(column, labels, ids);
    assert |outlierFrames| > 0 <==> exists p :: 0 <= p < |column| && column[p].Some? by {
      NonNullFrames(column, labels, ids);
    }
    assert |keptFrames| > 0 <==>
        exists p :: 0 <= p < |column| && column[p].Some? && DominantLabel(column, labels, column[p].value) != Noise by {
      DominatedFrames(column, labels, ids);
      assert forall p :: 0 <= p < |column| ==>
        (KeepsRows(column, labels, column[p]) <==> column[p].Some? && DominantLabel(column, labels, column[p].value) != Noise);
    }
  }

  lemma {:induction false} NonNullFrames(column: seq<Option<nat>>, labels: seq<int>, ids: seq<Option<nat>>)
    requires |labels| == |column|
    requires forall id :: id in column ==> id in ids
    requires forall id :: id in ids ==> id in column
    ensures |OutlierFrames(column, labels, ids)| > 0 <==> exists p :: 0 <= p < |column| && column[p].Some?
  {
    NonNullFramesCount(column, labels, ids);
    if exists p :: 0 <= p < |column| && column[p].Some? {
      var p :| 0 <= p < |column| && column[p].Some?;
      assert column[p] in ids;
    }
    if |OutlierFrames(column, labels, ids)| > 0 {
      var k :| 0 <= k < |ids| && ids[k].Some?;
      assert ids[k] in column;
      var p :| 0 <= p < |column| && column[p] == ids[k];
      assert column[p].Some?;
    }
  }

  lemma {:induction false} NonNullFramesCount(column: seq<Option<nat>>, labels: seq<int>, ids: seq<Option<nat>>)
    requires |labels| == |column|
    ensures |OutlierFrames(column, labels, ids)| > 0 <==> exists k :: 0 <= k < |ids| && ids[k].Some?
  {
    if ids != [] {
      var front := ids[..|ids| - 1];
      NonNullFramesCount(column, labels, front);
      assert forall k :: 0 <= k < |front| ==> front[k] == ids[k];
    }
  }

  lemma {:induction false} DominatedFrames(column: seq<Option<nat>>, labels: seq<int>, ids: seq<Option<nat>>)
    requires |labels| == |column|
    requires forall id :: id in column ==> id in ids
    requires forall id :: id in ids ==> id in column
    ensures |KeptFrames(column, labels, ids)| > 0 <==> exists p :: 0 <= p < |column| && KeepsRows(column, labels, column[p])
  {
    DominatedFramesCount(column, labels, ids);
    if exists p :: 0 <= p < |column| && KeepsRows(column, labels, column[p]) {
      var p :| 0 <= p < |column| && KeepsRows(column, labels, column[p]);
      var k :| 0 <= k < |ids| && ids[k] == column[p];
      assert KeepsRows(column, labels, ids[k]);
    }
    if |KeptFrames(column, labels, ids)| > 0 {
      var k :| 0 <= k < |ids| && KeepsRows(column, labels, ids[k]);
      var p :| 0 <= p < |column| && column[p] == ids[k];
      assert KeepsRows(column, labels, column[p]);
    }
  }

  /** A visited id that appends a frame to `df_removed_outliers`. */
  predicate KeepsRows(column: seq<Option<nat>>, labels: seq<int>, id: Option<nat>)
    requires |labels| == |column|
  {
    id.Some? && id in column && DominantLabel(column, labels, id.value) != Noise
  }

  lemma {:induction false} DominatedFramesCount(column: seq<Option<nat>>, labels: seq<int>, ids: seq<Option<nat>>)
    requires |labels| == |column|
    requires forall id :: id in ids ==> id in column
    ensures |KeptFrames(column, labels, ids)| > 0 <==> exists k :: 0 <= k < |ids| && KeepsRows(column, labels, ids[k])
  {
    if ids != [] {
      var front, last := ids[..|ids| - 1], ids[|ids| - 1];
      assert ids == front + [last];
      assert forall id :: id in front ==> id in ids;
      DominatedFramesCount(column, labels, front);
      assert forall k :: 0 <= k < |front| ==> front[k] == ids[k];
      KeptFramesLast(column, labels, ids);
    }
  }
}
