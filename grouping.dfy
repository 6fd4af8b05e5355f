/**
 * The grouping loop of `merge_cluster` (lines 384-403). It walks over every
 * pair of candidate pairs, in `combinations` order. A pair of pairs that
 * shares an id either opens a new group or extends the group found last
 * by a scan over its four ids. A candidate pair is a 2-tuple of cluster ids.
 */
module MergeGroups {
  import opened Common

  /** `list(clusters)` of a candidate pair. */
  function Ids(p: (nat, nat)): seq<nat>
  {
    [p.0, p.1]
  }

  /** `list(chain(*clusters))` for a pair of candidate pairs. */
  function Chain(p: (nat, nat), q: (nat, nat)): (ids: seq<nat>)
    ensures |ids| == 4
    ensures forall x :: x in ids <==> x in Ids(p) || x in Ids(q)
  {
    Ids(p) + Ids(q)
  }

  /** `cluster_has_overlap`: the two pairs share an id. */
  predicate HasOverlap(p: (nat, nat), q: (nat, nat))
  {
    var common := (set x | x in Ids(p)) * (set x | x in Ids(q));
    |common| > 0
  }

  lemma HasOverlapIff(p: (nat, nat), q: (nat, nat))
    ensures HasOverlap(p, q) <==> exists x :: x in Ids(p) && x in Ids(q)
  {
    var common := (set x | x in Ids(p)) * (set x | x in Ids(q));
    if exists x :: x in Ids(p) && x in Ids(q) {
      var x :| x in Ids(p) && x in Ids(q);
      assert x in common;
    }
  }

  /** The last group (highest index) that holds `x`, if any. */
  function LastGroupWith(groups: seq<seq<nat>>, x: nat): (r: Option<nat>)
    ensures r.None? <==> forall j :: 0 <= j < |groups| ==> x !in groups[j]
    ensures r.Some? ==>
      r.value < |groups| && x in groups[r.value] && (forall j :: r.value < j < |groups| ==> x !in groups[j])
  {
    if groups == [] then None
    else if x in groups[|groups| - 1] then Some(|groups| - 1)
    else LastGroupWith(groups[..|groups| - 1], x)
  }

  /**
   * `merge` and `merge_index` after the scan of lines 394-399 over the ids
   * `chain`: the last group holding the last id of `chain` that some group
   * holds, or None when no group holds any of them.
   */
  function LastMatch(groups: seq<seq<nat>>, chain: seq<nat>): (r: Option<nat>)
    ensures r.None? <==> forall k, j :: 0 <= k < |chain| && 0 <= j < |groups| ==> chain[k] !in groups[j]
    ensures r.Some? ==> r.value < |groups| && exists k :: 0 <= k < |chain| && chain[k] in groups[r.value]
  {
    if chain == [] then None
    else
      var n := |chain| - 1;
      match LastGroupWith(groups, chain[n])
      case Some(j) => Some(j)
      case None =>
        var front := LastMatch(groups, chain[..n]);
        assert forall k :: 0 <= k < n ==> chain[..n][k] == chain[k];
        front
  }

  /**
   * The scan's result is decided by the last hit: when `chain[k]` is held by
   * some group and no later id of the chain is, the scan ends on the last
   * group holding `chain[k]`.
   */
  lemma {:induction false} LastMatchIsLastHit(groups: seq<seq<nat>>, chain: seq<nat>, k: nat)
    requires k < |chain| && LastGroupWith(groups, chain[k]).Some?
    requires forall k' :: k < k' < |chain| ==> LastGroupWith(groups, chain[k']).None?
    ensures LastMatch(groups, chain) == LastGroupWith(groups, chain[k])
  {
    var n := |chain| - 1;
    if k < n {
      var front := chain[..n];
      assert LastMatch(groups, chain) == LastMatch(groups, front);
      assert forall k' :: k <= k' < n ==> front[k'] == chain[k'];
      LastMatchIsLastHit(groups, front, k);
    }
  }

  /**
   * One iteration of the loop of lines 387-403 on the pair of pairs
   * (p, q) at position i.
   */
  function GroupStep(groups: seq<seq<nat>>, p: (nat, nat), q: (nat, nat), i: nat): (r: seq<seq<nat>>)
    ensures |groups| <= |r| <= |groups| + 1
    ensures forall j :: 0 <= j < |groups| ==> groups[j] <= r[j]
    ensures forall j :: |groups| <= j < |r| ==> r[j] == Chain(p, q)
    ensures forall j, x :: 0 <= j < |r| && x in r[j] ==>
      (j < |groups| && x in groups[j]) || (HasOverlap(p, q) && x in Chain(p, q))
  {
    if !HasOverlap(p, q) then groups
    else if i == 0 then groups + [Chain(p, q)]
    else
      match LastMatch(groups, Chain(p, q))
      case Some(j) => groups[j := groups[j] + Chain(p, q)]
      case None => groups + [Chain(p, q)]
  }

  /**
   * The rule of one iteration: a pair of pairs without a shared id changes
   * nothing; otherwise its chain opens a new group at position 0 or when the
   * scan finds no group, and else extends exactly the group the scan found
   * last, leaving every other group as it was.
   */
  lemma GroupStepRule(groups: seq<seq<nat>>, p: (nat, nat), q: (nat, nat), i: nat)
    ensures !HasOverlap(p, q) ==> GroupStep(groups, p, q, i) == groups
    ensures HasOverlap(p, q) && (i == 0 || LastMatch(groups, Chain(p, q)).None?) ==>
      GroupStep(groups, p, q, i) == groups + [Chain(p, q)]
    ensures HasOverlap(p, q) && i != 0 && LastMatch(groups, Chain(p, q)).Some? ==>
      |GroupStep(groups, p, q, i)| == |groups| &&
      GroupStep(groups, p, q, i)[LastMatch(groups, Chain(p, q)).value] ==
        groups[LastMatch(groups, Chain(p, q)).value] + Chain(p, q) &&
      forall j :: 0 <= j < |groups| && j != LastMatch(groups, Chain(p, q)).value ==>
        GroupStep(groups, p, q, i)[j] == groups[j]
  {
  }

  /** `updated_clusters` after the pairs of pairs `combos` have been visited. */
  function Grouping(combos: seq<((nat, nat), (nat, nat))>): (groups: seq<seq<nat>>)
    ensures |groups| <= |combos|
    ensures forall j :: 0 <= j < |groups| ==> |groups[j]| >= 4
  {
    if combos == [] then []
    else
      var n := |combos| - 1;
      GroupStep(Grouping(combos[..n]), combos[n].0, combos[n].1, n)
  }

  /** Groups are only ever extended: an earlier state is a prefix-wise part of a later one. */
  lemma {:induction false} GroupingExtends(combos: seq<((nat, nat), (nat, nat))>, m: nat)
    requires m <= |combos|
    ensures var before, after := Grouping(combos[..m]), Grouping(combos);
      |before| <= |after| && forall j :: 0 <= j < |before| ==> before[j] <= after[j]
  {
    if m < |combos| {
      var n := |combos| - 1;
      assert combos[..n][..m] == combos[..m];
      GroupingExtends(combos[..n], m);
      var before, mid := Grouping(combos[..m]), Grouping(combos[..n]);
      var after := GroupStep(mid, combos[n].0, combos[n].1, n);
      assert Grouping(combos) == after;
      forall j | 0 <= j < |before|
        ensures before[j] <= after[j]
      {
        assert before[j] <= mid[j] && mid[j] <= after[j];
      }
    } else {
      assert combos[..m] == combos;
    }
  }

  /** Every grouped id comes from a visited pair of candidate pairs that share an id. */
  lemma {:induction false} GroupingMembers(combos: seq<((nat, nat), (nat, nat))>, g: nat, x: nat)
    requires g < |Grouping(combos)| && x in Grouping(combos)[g]
    ensures exists k :: 0 <= k < |combos| && HasOverlap(combos[k].0, combos[k].1) && x in Chain(combos[k].0, combos[k].1)
  {
    var n := |combos| - 1;
    var front := combos[..n];
    var before := Grouping(front);
    if g < |before| && x in before[g] {
      GroupingMembers(front, g, x);
      var k :| 0 <= k < |front| && HasOverlap(front[k].0, front[k].1) && x in Chain(front[k].0, front[k].1);
      assert front[k] == combos[k];
    }
  }

  /**
   * Over the candidate pairs `merged`: an id in some group belongs to one of
   * two candidate pairs, at different positions, that share an id.
   */
  lemma GroupedIdsShareCandidates(merged: seq<(nat, nat)>, g: nat, x: nat)
    requires g < |Grouping(Pairs(merged))| && x in Grouping(Pairs(merged))[g]
    ensures exists i, j :: (0 <= i < j < |merged| && HasOverlap(merged[i], merged[j]) &&
      (x in Ids(merged[i]) || x in Ids(merged[j])))
  {
    var combos := Pairs(merged);
    GroupingMembers(combos, g, x);
    var k :| 0 <= k < |combos| && HasOverlap(combos[k].0, combos[k].1) && x in Chain(combos[k].0, combos[k].1);
    PairsPositions(merged, k);
    var i, j :| 0 <= i < j < |merged| && combos[k] == (merged[i], merged[j]);
  }

  /**
   * A candidate pair that shares no id with any other candidate pair is
   * never grouped: neither of its ids appears in any group, so neither is
   * relabelled.
   */
  lemma LonePairNeverGrouped(merged: seq<(nat, nat)>, k: nat)
    requires k < |merged|
    requires forall m :: 0 <= m < |merged| && m != k ==> !HasOverlap(merged[k], merged[m])
    ensures forall g, x :: 0 <= g < |Grouping(Pairs(merged))| && x in Ids(merged[k]) ==> x !in Grouping(Pairs(merged))[g]
  {
    var groups := Grouping(Pairs(merged));
    forall g, x | 0 <= g < |groups| && x in Ids(merged[k]) && x in groups[g]
      ensures false
    {
      GroupedIdsShareCandidates(merged, g, x);
      var i, j :| 0 <= i < j < |merged| && HasOverlap(merged[i], merged[j]) &&
        (x in Ids(merged[i]) || x in Ids(merged[j]));
      HasOverlapIff(merged[i], merged[j]);
      HasOverlapIff(merged[k], merged[i]);
      HasOverlapIff(merged[k], merged[j]);
    }
  }

  /**
   * The scan of lines 394-399: every id of `chain`, in order, is looked up
   * in every group, in order, and each hit overwrites `merge_index`.
   */
  method ScanGroups(updated: seq<seq<nat>>, chain: seq<nat>) returns (merge: bool, mergeIndex: nat)
    ensures merge == LastMatch(updated, chain).Some?
    ensures merge ==> mergeIndex == LastMatch(updated, chain).value
  {
    merge := false;
    mergeIndex := 0;
    for k := 0 to |chain|
      invariant merge == LastMatch(updated, chain[..k]).Some?
      invariant merge ==> mergeIndex == LastMatch(updated, chain[..k]).value
    {
      var c := chain[k];
      ghost var before := LastMatch(updated, chain[..k]);
      for j := 0 to |updated|
        invariant merge == (LastGroupWith(updated[..j], c).Some? || before.Some?)
        invariant merge && LastGroupWith(updated[..j], c).Some? ==> mergeIndex == LastGroupWith(updated[..j], c).value
        invariant merge && LastGroupWith(updated[..j], c).None? ==> mergeIndex == before.value
      {
        assert updated[..j + 1][..j] == updated[..j];
        if c in updated[j] {
          merge := true;
          mergeIndex := j;
        }
      }
      assert updated[..|updated|] == updated;
      assert chain[..k + 1][..k] == chain[..k];
    }
    assert chain[..|chain|] == chain;
  }

  /**
   * The loop of lines 384-403: every pair of candidate pairs that shares an
   * id opens a new group (always at position 0, and whenever the scan finds
   * no group) or extends the group the scan found.
   */
  method GroupCandidates(merged: seq<(nat, nat)>) returns (updated: seq<seq<nat>>)
    ensures updated == Grouping(Pairs(merged))
  {
    var combinations := Pairs(merged);
    updated := [];
    for i := 0 to |combinations|
      invariant updated == Grouping(combinations[..i])
    {
      assert combinations[..i + 1][..i] == combinations[..i];
      var p, q := combinations[i].0, combinations[i].1;
      if HasOverlap(p, q) {
        var chain := Chain(p, q);
        if i == 0 {
          updated := updated + [chain];
        } else {
          var merge, mergeIndex := ScanGroups(updated, chain);
          if merge {
            updated := updated[mergeIndex := updated[mergeIndex] + chain];
          } else {
            updated := updated + [chain];
          }
        }
      }
    }
    assert combinations[..|combinations|] == combinations;
  }
}
