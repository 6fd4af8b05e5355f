/**
 * The out-of-scope filter (`remove_oos_clusters`). Each distinct cluster id
 * routes all of its rows to one of two outputs: to the "oos" output when the
 * distinct predicted event types of its rows are exactly ["oos"], otherwise to
 * the kept ("oos removed") output. A missing prediction is `None`.
 */
module OosFilter {
  import opened Common

  const OutOfScope: string := "oos"

  /**
   * The rows of `df.loc[df[clustering_col] == cluster_id]`. A null id selects
   * no row at all, because NaN never compares equal to itself.
   */
  function ClusterRows(column: seq<Option<nat>>, id: Option<nat>): (rows: seq<nat>)
    ensures forall p: nat :: p in rows <==> p < |column| && id.Some? && column[p] == id
    ensures forall i :: 0 <= i < |rows| ==> rows[i] < |column|
  {
    if id.None? then [] else Positions(column, id)
  }

  /** `unique_clusters` (line 274): the distinct event types of the id's rows. */
  function EventTypesOf(column: seq<Option<nat>>, eventTypes: seq<Option<string>>, id: Option<nat>): seq<Option<string>>
    requires |eventTypes| == |column|
  {
    Unique(At(eventTypes, ClusterRows(column, id)))
  }

  /** The test of line 275, negated, on `unique_clusters`: the distinct event types are exactly ["oos"]. */
  predicate TypesOnlyOos(distinct: seq<Option<string>>)
  {
    |distinct| == 1 && distinct[0] == Some(OutOfScope)
  }

  /** The id is non-null, has rows, and every one of them is predicted "oos". */
  predicate OnlyOos(column: seq<Option<nat>>, eventTypes: seq<Option<string>>, id: Option<nat>)
    requires |eventTypes| == |column|
  {
    id.Some? && id in column &&
    forall p :: 0 <= p < |column| && column[p] == id ==> eventTypes[p] == Some(OutOfScope)
  }

  /**
   * The test of line 275 sends a cluster to the oos output iff it has rows
   * and every one of them is predicted "oos"; a null id never goes there.
   */
  lemma OnlyOosIff(column: seq<Option<nat>>, eventTypes: seq<Option<string>>, id: Option<nat>)
    requires |eventTypes| == |column|
    ensures TypesOnlyOos(EventTypesOf(column, eventTypes, id)) <==> OnlyOos(column, eventTypes, id)
  {
    var rows := ClusterRows(column, id);
    var types := At(eventTypes, rows);
    UniqueSingleton(types, Some(OutOfScope));
    assert TypesOnlyOos(EventTypesOf(column, eventTypes, id)) <==> Unique(types) == [Some(OutOfScope)];
    if id.Some? {
      assert (forall i :: 0 <= i < |types| ==> types[i] == Some(OutOfScope)) <==>
        (forall p :: 0 <= p < |column| && column[p] == id ==> eventTypes[p] == Some(OutOfScope)) by {
        forall p | 0 <= p < |column| && column[p] == id
          ensures exists i :: 0 <= i < |rows| && rows[i] == p
        {
          assert p in rows;
        }
      }
      assert types != [] <==> id in column by {
        if id in column {
          var p :| 0 <= p < |column| && column[p] == id;
          assert p in rows;
        }
      }
    } else {
      assert types == [];
    }
  }

  /** The list `df_list` after the ids `ids` have been visited. */
  function KeptFrames(column: seq<Option<nat>>, eventTypes: seq<Option<string>>, ids: seq<Option<nat>>): seq<seq<nat>>
    requires |eventTypes| == |column|
  {
    if ids == [] then []
    else
      var front := KeptFrames(column, eventTypes, ids[..|ids| - 1]);
      var id := ids[|ids| - 1];
      if OnlyOos(column, eventTypes, id) then front else front + [ClusterRows(column, id)]
  }

  /** The list `oos_df_list` after the ids `ids` have been visited. */
  function OosFrames(column: seq<Option<nat>>, eventTypes: seq<Option<string>>, ids: seq<Option<nat>>): seq<seq<nat>>
    requires |eventTypes| == |column|
  {
    if ids == [] then []
    else
      var front := OosFrames(column, eventTypes, ids[..|ids| - 1]);
      var id := ids[|ids| - 1];
      if OnlyOos(column, eventTypes, id) then front + [ClusterRows(column, id)] else front
  }

  /** `oos_removed_df` and `oos_df` (None when no cluster was out of scope). */
  datatype OosSplit = OosSplit(kept: seq<nat>, oos: Option<seq<nat>>)

  datatype OosError = NothingKept  // `pd.concat([])` on `df_list` raises (line 279)

  /** The outcome of `remove_oos_clusters` with `forced=True`. */
  function RemoveOos(column: seq<Option<nat>>, eventTypes: seq<Option<string>>): Result<OosSplit, OosError>
    requires |eventTypes| == |column|
  {
    var ids := Unique(column);
    var keptFrames := KeptFrames(column, eventTypes, ids);
    var oosFrames := OosFrames(column, eventTypes, ids);
    if keptFrames == [] then Failure(NothingKept)
    else Success(OosSplit(Flatten(keptFrames), if oosFrames == [] then None else Some(Flatten(oosFrames))))
  }

  /**
   * The loop of lines 273-278 over the ids `ids`: each id's rows are
   * appended to `df_list` or to `oos_df_list` by the test of line 275.
   */
  method RouteClusters(column: seq<Option<nat>>, eventTypes: seq<Option<string>>, ids: seq<Option<nat>>)
    returns (dfList: seq<seq<nat>>, oosDfList: seq<seq<nat>>)
    requires |eventTypes| == |column|
    ensures dfList == KeptFrames(column, eventTypes, ids)
    ensures oosDfList == OosFrames(column, eventTypes, ids)
  {
    dfList := [];
    oosDfList := [];
    for i := 0 to |ids|
      invariant dfList == KeptFrames(column, eventTypes, ids[..i])
      invariant oosDfList == OosFrames(column, eventTypes, ids[..i])
    {
      assert ids[..i + 1][..i] == ids[..i];
      var clusterId := ids[i];
      var uniqueTypes := EventTypesOf(column, eventTypes, clusterId);
      OnlyOosIff(column, eventTypes, clusterId);
      if !(|uniqueTypes| == 1 && uniqueTypes[0] == Some(OutOfScope)) {
        dfList := dfList + [ClusterRows(column, clusterId)];
      } else {
        oosDfList := oosDfList + [ClusterRows(column, clusterId)];
      }
    }
    assert ids[..|ids|] == ids;
  }

  /** `remove_oos_clusters` with `forced=True` (lines 271-286). */
  method RemoveOosClusters(column: seq<Option<nat>>, eventTypes: seq<Option<string>>)
    returns (result: Result<OosSplit, OosError>)
    requires |eventTypes| == |column|
    ensures result == RemoveOos(column, eventTypes)
  {
    var dfList, oosDfList := RouteClusters(column, eventTypes, Unique(column));
    if dfList == [] {
      result := Failure(NothingKept);
    } else {
      var oosDf := if oosDfList == [] then None else Some(Flatten(oosDfList));
      result := Success(OosSplit(Flatten(dfList), oosDf));
    }
  }

  lemma {:induction false} FramesMembers(column: seq<Option<nat>>, eventTypes: seq<Option<string>>, ids: seq<Option<nat>>, p: nat)
    requires |eventTypes| == |column|
    ensures p in Flatten(KeptFrames(column, eventTypes, ids)) <==>
      p < |column| && column[p].Some? && column[p] in ids && !OnlyOos(column, eventTypes, column[p])
    ensures p in Flatten(OosFrames(column, eventTypes, ids)) <==>
      p < |column| && column[p].Some? && column[p] in ids && OnlyOos(column, eventTypes, column[p])
  {
    if ids != [] {
      var front, last := ids[..|ids| - 1], ids[|ids| - 1];
      assert ids == front + [last];
      FramesMembers(column, eventTypes, front, p);
      var keptFront := KeptFrames(column, eventTypes, front);
      var oosFront := OosFrames(column, eventTypes, front);
      var rows := ClusterRows(column, last);
      if OnlyOos(column, eventTypes, last) {
        var frames := oosFront + [rows];
        assert frames[..|frames| - 1] == oosFront;
        assert Flatten(frames) == Flatten(oosFront) + rows;
      } else {
        var frames := keptFront + [rows];
        assert frames[..|frames| - 1] == keptFront;
        assert Flatten(frames) == Flatten(keptFront) + rows;
      }
    }
  }

  lemma {:induction false} KeptFramesCount(column: seq<Option<nat>>, eventTypes: seq<Option<string>>, ids: seq<Option<nat>>)
    requires |eventTypes| == |column|
    ensures KeptFrames(column, eventTypes, ids) == [] <==> forall k :: 0 <= k < |ids| ==> OnlyOos(column, eventTypes, ids[k])
  {
    if ids != [] {
      var n := |ids| - 1;
      var front := ids[..n];
      KeptFramesCount(column, eventTypes, front);
      assert forall k :: 0 <= k < n ==> front[k] == ids[k];
    }
  }

  lemma {:induction false} OosFramesCount(column: seq<Option<nat>>, eventTypes: seq<Option<string>>, ids: seq<Option<nat>>)
    requires |eventTypes| == |column|
    ensures OosFrames(column, eventTypes, ids) == [] <==> forall k :: 0 <= k < |ids| ==> !OnlyOos(column, eventTypes, ids[k])
  {
    if ids != [] {
      var n := |ids| - 1;
      var front := ids[..n];
      OosFramesCount(column, eventTypes, front);
      assert forall k :: 0 <= k < n ==> front[k] == ids[k];
    }
  }

  /**
   * Each non-null cluster's rows land wholly in exactly one output: in the oos
   * output iff every one of them is predicted "oos". Rows with a null id land
   * in neither. The oos output is absent iff no cluster is out of scope.
   */
  lemma RemoveOosRoutesWholeClusters(column: seq<Option<nat>>, eventTypes: seq<Option<string>>, p: nat)
    requires |eventTypes| == |column|
    requires RemoveOos(column, eventTypes).Success?
    ensures p in RemoveOos(column, eventTypes).value.kept <==>
      p < |column| && column[p].Some? && !OnlyOos(column, eventTypes, column[p])
    ensures (RemoveOos(column, eventTypes).value.oos.Some? && p in RemoveOos(column, eventTypes).value.oos.value) <==>
      p < |column| && column[p].Some? && OnlyOos(column, eventTypes, column[p])
    ensures RemoveOos(column, eventTypes).value.oos.None? <==>
      forall q :: 0 <= q < |column| ==> !OnlyOos(column, eventTypes, column[q])
  {
    var ids := Unique(column);
    FramesMembers(column, eventTypes, ids, p);
    OosFramesCount(column, eventTypes, ids);
    forall q | 0 <= q < |column|
      ensures column[q] in ids
    {
    }
    forall k | 0 <= k < |ids|
      ensures exists q :: 0 <= q < |column| && column[q] == ids[k]
    {
      assert ids[k] in column;
    }
  }

  /**
   * The run fails at line 279 exactly when every row has a non-null id whose
   * cluster is out of scope (an empty frame included).
   */
  lemma RemoveOosFails(column: seq<Option<nat>>, eventTypes: seq<Option<string>>)
    requires |eventTypes| == |column|
    ensures RemoveOos(column, eventTypes).Failure? <==>
      forall p :: 0 <= p < |column| ==> OnlyOos(column, eventTypes, column[p])
  {
    var ids := Unique(column);
    KeptFramesCount(column, eventTypes, ids);
    forall q | 0 <= q < |column|
      ensures column[q] in ids
    {
    }
    forall k | 0 <= k < |ids|
      ensures exists q :: 0 <= q < |column| && column[q] == ids[k]
    {
      assert ids[k] in column;
    }
  }

  /** Example: clusters 0 = {oos, oos, flood} and 1 = {oos, oos}; only cluster 1 is out of scope. */
  lemma MixedClusterRouting(column: seq<Option<nat>>, eventTypes: seq<Option<string>>)
    requires column == [Some(0), Some(0), Some(0), Some(1), Some(1)]
    requires eventTypes == [Some("oos"), Some("oos"), Some("flood"), Some("oos"), Some("oos")]
    ensures !OnlyOos(column, eventTypes, Some(0))
    ensures OnlyOos(column, eventTypes, Some(1))
  {
    assert column[2] == Some(0) && eventTypes[2] != Some(OutOfScope);
    assert column[3] == Some(1);
  }

  /**
   * Example: clusters 0 = {oos, oos, flood} and 1 = {oos, oos}. Cluster 0 is
   * mixed, so the run succeeds ...
   */
  lemma MixedClusterSucceeds(column: seq<Option<nat>>, eventTypes: seq<Option<string>>)
    requires column == [Some(0), Some(0), Some(0), Some(1), Some(1)]
    requires eventTypes == [Some("oos"), Some("oos"), Some("flood"), Some("oos"), Some("oos")]
    ensures RemoveOos(column, eventTypes).Success?
  {
    MixedClusterRouting(column, eventTypes);
    RemoveOosFails(column, eventTypes);
    assert column[0] == Some(0);
  }

  /** ... and the mixed cluster is kept in full ... */
  lemma MixedClusterKeptRow(column: seq<Option<nat>>, eventTypes: seq<Option<string>>, p: nat)
    requires column == [Some(0), Some(0), Some(0), Some(1), Some(1)]
    requires eventTypes == [Some("oos"), Some("oos"), Some("flood"), Some("oos"), Some("oos")]
    requires RemoveOos(column, eventTypes).Success?
    ensures p in RemoveOos(column, eventTypes).value.kept <==> p <= 2
  {
    MixedClusterRouting(column, eventTypes);
    RemoveOosRoutesWholeClusters(column, eventTypes, p);
    if p <= 2 {
      assert column[p] == Some(0);
    } else if p <= 4 {
      assert column[p] == Some(1);
    }
  }

  /** ... while the all-oos cluster beside it goes in full to the oos output. */
  lemma MixedClusterOosRow(column: seq<Option<nat>>, eventTypes: seq<Option<string>>, p: nat)
    requires column == [Some(0), Some(0), Some(0), Some(1), Some(1)]
    requires eventTypes == [Some("oos"), Some("oos"), Some("flood"), Some("oos"), Some("oos")]
    requires RemoveOos(column, eventTypes).Success?
    ensures (RemoveOos(column, eventTypes).value.oos.Some? && p in RemoveOos(column, eventTypes).value.oos.value) <==>
      3 <= p <= 4
  {
    MixedClusterRouting(column, eventTypes);
    RemoveOosRoutesWholeClusters(column, eventTypes, p);
    if p <= 2 {
      assert column[p] == Some(0);
    } else if p <= 4 {
      assert column[p] == Some(1);
    }
  }

  /** Both outputs of the example, row by row. */
  lemma MixedClusterKept(column: seq<Option<nat>>, eventTypes: seq<Option<string>>)
    requires column == [Some(0), Some(0), Some(0), Some(1), Some(1)]
    requires eventTypes == [Some("oos"), Some("oos"), Some("flood"), Some("oos"), Some("oos")]
    ensures var r := RemoveOos(column, eventTypes);
      && r.Success?
      && (forall p: nat :: p in r.value.kept <==> p <= 2)
      && r.value.oos.Some?
      && (forall p: nat :: p in r.value.oos.value <==> 3 <= p <= 4)
  {
    MixedClusterSucceeds(column, eventTypes);
    MixedClusterOosRow(column, eventTypes, 3);
    forall p: nat
      ensures var split := RemoveOos(column, eventTypes).value;
        && (p in split.kept <==> p <= 2)
        && ((split.oos.Some? && p in split.oos.value) <==> 3 <= p <= 4)
    {
      MixedClusterKeptRow(column, eventTypes, p);
      MixedClusterOosRow(column, eventTypes, p);
    }
  }
}
