/**
 * Building the cluster-id columns in `cluster_titles`: which target columns
 * still have to be computed, how a list of communities (lists of row
 * numbers, as the community detection returns them) becomes a dictionary
 * from row number to community number, and how that dictionary becomes a
 * column with one id or null per row.
 */
module ClusterColumns {
  import opened Common

  /** The column names the pipeline works towards (create_silver_label.py:38-47). */
  const TargetColumns: seq<string> := [
    "cluster_20_60", "cluster_20_70", "cluster_20_80", "cluster_20_90",
    "cluster_50_60", "cluster_50_70", "cluster_50_80", "cluster_50_90",
    "cluster_100_60", "cluster_100_70", "cluster_100_80", "cluster_100_90",
    "cluster_5_60", "cluster_5_70", "cluster_5_80", "cluster_5_90",
    "temporal_cluster_20_60", "temporal_cluster_20_70", "temporal_cluster_20_80", "temporal_cluster_20_90",
    "temporal_cluster_50_60", "temporal_cluster_50_70", "temporal_cluster_50_80", "temporal_cluster_50_90",
    "temporal_cluster_100_60", "temporal_cluster_100_70", "temporal_cluster_100_80", "temporal_cluster_100_90",
    "temporal_cluster_5_60", "temporal_cluster_5_70", "temporal_cluster_5_80", "temporal_cluster_5_90",
    "pred_event_type", "entities"]

  /** Python's `sub in s` on strings. */
  function Contains(s: string, sub: string): bool
  {
    sub <= s || (s != [] && Contains(s[1..], sub))
  }

  /** A string that contains a text also contains every prefix of that text. */
  lemma {:induction false} ContainsPrefixOf(s: string, sub: string, prefix: string)
    requires prefix <= sub && Contains(s, sub)
    ensures Contains(s, prefix)
  {
    if !(sub <= s) {
      ContainsPrefixOf(s[1..], sub, prefix);
    }
  }

  /** A string that contains a text holds every character of it. */
  lemma {:induction false} ContainsCharacters(s: string, sub: string, ch: char)
    requires Contains(s, sub) && ch in sub
    ensures ch in s
  {
    if sub <= s {
      var i :| 0 <= i < |sub| && sub[i] == ch;
      assert s[i] == ch;
    } else {
      ContainsCharacters(s[1..], sub, ch);
      var i :| 0 <= i < |s[1..]| && s[1..][i] == ch;
      assert s[i + 1] == ch;
    }
  }

  function IsPlainClusterColumn(name: string): bool
  {
    Contains(name, "cluster") && !Contains(name, "temporal")
  }

  function IsTemporalClusterColumn(name: string): bool
  {
    Contains(name, "temporal_cluster")
  }

  datatype PendingColumns = PendingColumns(plain: seq<string>, temporal: seq<string>)

  /**
   * The clustering configurations still to run (lines 165-168): target
   * columns of each variant that the frame does not have yet, in target
   * order.
   */
  function ColumnsToCompute(present: set<string>): (r: PendingColumns)
    ensures forall c :: c in r.plain <==>
      c in TargetColumns && Contains(c, "cluster") && !Contains(c, "temporal") && c !in present
    ensures forall c :: c in r.temporal <==>
      c in TargetColumns && Contains(c, "temporal_cluster") && c !in present
  {
    var plainColumns := Filter(TargetColumns, IsPlainClusterColumn);
    var temporalColumns := Filter(TargetColumns, IsTemporalClusterColumn);
    PendingColumns(Filter(plainColumns, c => c !in present), Filter(temporalColumns, c => c !in present))
  }

  /** No column name is pending in both variants. */
  lemma PendingColumnsDisjoint(present: set<string>)
    ensures var r := ColumnsToCompute(present);
      forall c :: !(c in r.plain && c in r.temporal)
  {
    var r := ColumnsToCompute(present);
    forall c | c in r.temporal
      ensures c !in r.plain
    {
      ContainsPrefixOf(c, "temporal_cluster", "temporal");
    }
  }

  /**
   * The name a temporal clustering run writes its ids under (lines 199-203):
   * `cluster_{size}_{threshold}`, the target name without its `temporal_`
   * prefix, for the two-digit thresholds of the targets.
   */
  function TemporalResultName(column: string): (name: string)
    requires "temporal_" <= column
    ensures "temporal_" + name == column
  {
    column[9..]
  }

  /**
   * Every temporal target writes the name of a plain target (line 203), so
   * each temporal run that is pending together with its plain run
   * overwrites that run's ids.
   */
  lemma TemporalTargetsWritePlainTargets()
    ensures forall t :: t in TargetColumns && "temporal_" <= t ==>
      TemporalResultName(t) in TargetColumns[..16]
  {
    forall t | t in TargetColumns && "temporal_" <= t
      ensures TemporalResultName(t) in TargetColumns[..16]
    {
      var k :| 0 <= k < |TargetColumns| && TargetColumns[k] == t;
      OnlyTemporalTargetsStartWithT();
      assert t[0] == 't';
      TemporalTargetName(k);
      assert TargetColumns[..16][k - 16] == TargetColumns[k - 16];
    }
  }

  /** Only the temporal targets, at positions 16 to 31, start with a `t`. */
  lemma OnlyTemporalTargetsStartWithT()
    ensures forall k :: 0 <= k < |TargetColumns| && TargetColumns[k][0] == 't' ==> 16 <= k < 32
  {
  }

  /** The temporal target at position k names the plain target at k - 16. */
  lemma TemporalTargetName(k: nat)
    requires 16 <= k < 32
    ensures "temporal_" <= TargetColumns[k] && TargetColumns[k][9..] == TargetColumns[k - 16]
  {
    if k < 24 {
      TemporalTargetNameLow(k);
    } else {
      TemporalTargetNameHigh(k);
    }
  }

  lemma TemporalTargetNameLow(k: nat)
    requires 16 <= k < 24
    ensures TargetColumns[k] == "temporal_" + TargetColumns[k - 16]
  {
    var t := TargetColumns[k];
    var p := TargetColumns[k - 16];
    assert |t| == |p| + 9;
    forall i | 0 <= i < |t|
      ensures t[i] == ("temporal_" + p)[i]
    {
    }
  }

  lemma TemporalTargetNameHigh(k: nat)
    requires 24 <= k < 32
    ensures TargetColumns[k] == "temporal_" + TargetColumns[k - 16]
  {
    var t := TargetColumns[k];
    var p := TargetColumns[k - 16];
    assert |t| == |p| + 9;
    forall i | 0 <= i < |t|
      ensures t[i] == ("temporal_" + p)[i]
    {
    }
  }



  /** On a frame without the column `cluster_50_90`, the plain run of 50/90 is pending. */
  lemma PlainPending(present: set<string>)
    requires "cluster_50_90" !in present
    ensures "cluster_50_90" in ColumnsToCompute(present).plain
  {
    var plain := "cluster_50_90";
    assert plain in TargetColumns by {
      assert plain == TargetColumns[7];
    }
    assert Contains(plain, "cluster");
    assert !Contains(plain, "temporal") by {
      assert 'm' !in plain && 'm' == "temporal"[2];
      if Contains(plain, "temporal") {
        ContainsCharacters(plain, "temporal", 'm');
      }
    }
  }

  /** On a frame without the column `temporal_cluster_50_90`, the temporal run of 50/90 is pending. */
  lemma TemporalPending(present: set<string>)
    requires "temporal_cluster_50_90" !in present
    ensures "temporal_cluster_50_90" in ColumnsToCompute(present).temporal
  {
    var temporal := "temporal_cluster_50_90";
    assert temporal in TargetColumns by {
      assert temporal == TargetColumns[23];
    }
    assert "temporal_cluster" <= temporal;
  }

  /**
   * Both runs of the configuration 50/90, which `PlainPending` and
   * `TemporalPending` show pending together, write the one column
   * `cluster_50_90`: the temporal ids overwrite the plain ones (line 203).
   */
  lemma TemporalRunOverwritesPlain()
    ensures TemporalResultName("temporal_cluster_50_90") == "cluster_50_90"
  {
  }

  /**
   * The dictionary `cluster_col` after the `update` loop of lines 189-191:
   * each community in turn maps all of its members to its position.
   */
  function Assignment(clusters: seq<seq<nat>>): map<nat, nat>
  {
    if clusters == [] then map[]
    else
      var n := |clusters| - 1;
      Assignment(clusters[..n]) + map x | x in clusters[n] :: n
  }

  /**
   * A row number is a key iff some community lists it, and its value is the
   * position of the LAST community that lists it (later updates overwrite).
   */
  lemma {:induction false} AssignmentMeaning(clusters: seq<seq<nat>>)
    ensures forall x :: x in Assignment(clusters) <==> exists i :: 0 <= i < |clusters| && x in clusters[i]
    ensures forall x :: x in Assignment(clusters) ==>
      Assignment(clusters)[x] < |clusters| && x in clusters[Assignment(clusters)[x]] &&
      forall j :: Assignment(clusters)[x] < j < |clusters| ==> x !in clusters[j]
  {
    AssignmentKeys(clusters);
    AssignmentValues(clusters);
  }

  lemma {:induction false} AssignmentKeys(clusters: seq<seq<nat>>)
    ensures forall x :: x in Assignment(clusters) <==> exists i :: 0 <= i < |clusters| && x in clusters[i]
  {
    if clusters != [] {
      var n := |clusters| - 1;
      var front := clusters[..n];
      AssignmentKeys(front);
      AssignmentStep(clusters);
      forall x | exists i :: 0 <= i < |clusters| && x in clusters[i]
        ensures x in Assignment(clusters)
      {
        var i :| 0 <= i < |clusters| && x in clusters[i];
        if i < n {
          assert x in front[i];
        }
      }
      forall x | x in Assignment(front)
        ensures exists i :: 0 <= i < |clusters| && x in clusters[i]
      {
        var i :| 0 <= i < n && x in front[i];
        assert x in clusters[i];
      }
    }
  }

  lemma {:induction false} AssignmentValues(clusters: seq<seq<nat>>)
    ensures forall x :: x in Assignment(clusters) ==>
      Assignment(clusters)[x] < |clusters| && x in clusters[Assignment(clusters)[x]] &&
      forall j :: Assignment(clusters)[x] < j < |clusters| ==> x !in clusters[j]
  {
    if clusters != [] {
      var n := |clusters| - 1;
      var front := clusters[..n];
      AssignmentValues(front);
      AssignmentStep(clusters);
      var m := Assignment(clusters);
      forall x | x in m
        ensures m[x] < |clusters| && x in clusters[m[x]] && forall j :: m[x] < j < |clusters| ==> x !in clusters[j]
      {
        if x !in clusters[n] {
          var v := Assignment(front)[x];
          assert m[x] == v && v < n;
          assert x in front[v];
          assert forall j :: v < j < n ==> front[j] == clusters[j];
        }
      }
    }
  }

  /** One `update`: the last community's members now map to its position; every other key keeps its value. */
  lemma AssignmentStep(clusters: seq<seq<nat>>)
    requires clusters != []
    ensures var n := |clusters| - 1;
      forall x :: x in Assignment(clusters) <==> x in Assignment(clusters[..n]) || x in clusters[n]
    ensures var n := |clusters| - 1;
      forall x :: x in clusters[n] ==> Assignment(clusters)[x] == n
    ensures var n := |clusters| - 1;
      forall x :: x in Assignment(clusters[..n]) && x !in clusters[n] ==>
        Assignment(clusters)[x] == Assignment(clusters[..n])[x]
  {
  }

  /** The loop of lines 188-191. */
  method BuildAssignment(clusters: seq<seq<nat>>) returns (clusterCol: map<nat, nat>)
    ensures clusterCol == Assignment(clusters)
  {
    clusterCol := map[];
    for i := 0 to |clusters|
      invariant clusterCol == Assignment(clusters[..i])
    {
      var clusterDict := map sentId | sentId in clusters[i] :: i;
      assert clusters[..i + 1][..i] == clusters[..i];
      clusterCol := clusterCol + clusterDict;
    }
    assert clusters[..|clusters|] == clusters;
  }

  /**
   * Line 193 as written: every row looks its INDEX LABEL up in the
   * dictionary and gets the community number, or null.
   */
  function ClusterColumn(index: seq<nat>, clusters: seq<seq<nat>>): (column: seq<Option<nat>>)
    ensures |column| == |index|
    ensures forall k :: 0 <= k < |index| ==>
      (column[k].None? <==> forall i :: 0 <= i < |clusters| ==> index[k] !in clusters[i])
    ensures forall k :: 0 <= k < |index| && column[k].Some? ==>
      column[k].value < |clusters| && index[k] in clusters[column[k].value] &&
      forall j :: column[k].value < j < |clusters| ==> index[k] !in clusters[j]
  {
    var clusterCol := Assignment(clusters);
    AssignmentMeaning(clusters);
    var column := seq(|index|, k requires 0 <= k < |index| =>
      if index[k] in clusterCol then Some(clusterCol[index[k]]) else None);
    assert forall k :: 0 <= k < |index| ==> (column[k].None? <==> index[k] !in clusterCol);
    column
  }

  /**
   * The intended column: community members are row POSITIONS (the order in
   * which the titles were embedded), so row k takes the last community
   * listing k.
   */
  function ClusterColumnByPosition(rowCount: nat, clusters: seq<seq<nat>>): (column: seq<Option<nat>>)
    ensures |column| == rowCount
    ensures forall k :: 0 <= k < rowCount ==>
      (column[k].None? <==> forall i :: 0 <= i < |clusters| ==> k !in clusters[i])
    ensures forall k :: 0 <= k < rowCount && column[k].Some? ==>
      column[k].value < |clusters| && k in clusters[column[k].value] &&
      forall j :: column[k].value < j < |clusters| ==> k !in clusters[j]
  {
    ClusterColumn(Range(rowCount), clusters)
  }

  /**
   * After `drop_duplicates` removed row 0, the frame's index is [1, 2]. The
   * one community [0, 1] names both remaining rows by position, yet the
   * lookup by label finds no entry for label 2, so the second row gets no
   * cluster.
   */
  lemma LabelLookupMissesRows()
    ensures ClusterColumn([1, 2], [[0, 1]]) == [Some(0), None]
    ensures ClusterColumnByPosition(2, [[0, 1]]) == [Some(0), Some(0)]
  {
    var a := Assignment([[0, 1]]);
    assert 1 in a && 2 !in a;
    assert 0 in a;
  }
}
