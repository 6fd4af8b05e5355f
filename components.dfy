/**
 * The merge the grouping loop of `merge_cluster` evidently aims at: every
 * set of clusters connected through candidate pairs becomes one cluster.
 * `Same` is the equivalence the candidate pairs generate; `Label` computes a
 * representative for every id by visiting the pairs once, in order. The
 * two are proved to agree.
 */
module Components {
  import opened Common
  import ClusterMerger

  /**
   * x and y are connected by the pairs `edges`: equal, or linked through
   * the last pair by connections that use only the earlier pairs.
   */
  predicate Same(edges: seq<(nat, nat)>, x: nat, y: nat)
  {
    if edges == [] then x == y
    else
      var front := edges[..|edges| - 1];
      var a, b := edges[|edges| - 1].0, edges[|edges| - 1].1;
      Same(front, x, y) || (Same(front, x, a) && Same(front, b, y)) || (Same(front, x, b) && Same(front, a, y))
  }

  function Min(x: nat, y: nat): nat
  {
    if x <= y then x else y
  }

  /**
   * The representative of x after visiting the pairs in order: a pair
   * (a, b) sends every id whose representative is that of a or of b to the
   * smaller of the two representatives.
   */
  function Label(edges: seq<(nat, nat)>, x: nat): nat
  {
    if edges == [] then x
    else
      var front := edges[..|edges| - 1];
      var la, lb := Label(front, edges[|edges| - 1].0), Label(front, edges[|edges| - 1].1);
      var lx := Label(front, x);
      if lx == la || lx == lb then Min(la, lb) else lx
  }

  /** Two ids get the same representative iff the pairs connect them. */
  lemma {:induction false} LabelSame(edges: seq<(nat, nat)>, x: nat, y: nat)
    ensures Label(edges, x) == Label(edges, y) <==> Same(edges, x, y)
  {
    if edges != [] {
      var front := edges[..|edges| - 1];
      var a, b := edges[|edges| - 1].0, edges[|edges| - 1].1;
      LabelSame(front, x, y);
      LabelSame(front, x, a);
      LabelSame(front, x, b);
      LabelSame(front, a, y);
      LabelSame(front, b, y);
    }
  }

  /** Every id's representative lies in its own component. */
  lemma {:induction false} LabelIdempotent(edges: seq<(nat, nat)>, x: nat)
    ensures Label(edges, Label(edges, x)) == Label(edges, x)
  {
    if edges != [] {
      var front := edges[..|edges| - 1];
      var a, b := edges[|edges| - 1].0, edges[|edges| - 1].1;
      LabelIdempotent(front, x);
      LabelIdempotent(front, a);
      LabelIdempotent(front, b);
    }
  }

  /**
   * `Same` is the equivalence generated by the pairs: reflexive, symmetric,
   * transitive, and joining the two ids of every pair.
   */
  lemma SameIsEquivalence(edges: seq<(nat, nat)>, x: nat, y: nat, z: nat)
    ensures Same(edges, x, x)
    ensures Same(edges, x, y) ==> Same(edges, y, x)
    ensures Same(edges, x, y) && Same(edges, y, z) ==> Same(edges, x, z)
  {
    LabelSame(edges, x, x);
    LabelSame(edges, x, y);
    LabelSame(edges, y, x);
    LabelSame(edges, y, z);
    LabelSame(edges, x, z);
  }

  lemma {:induction false} SameJoinsEdges(edges: seq<(nat, nat)>, k: nat)
    requires k < |edges|
    ensures Same(edges, edges[k].0, edges[k].1)
  {
    var n := |edges| - 1;
    var front := edges[..n];
    var a, b := edges[n].0, edges[n].1;
    if k < n {
      SameJoinsEdges(front, k);
      assert front[k] == edges[k];
      LabelSame(front, a, b);
    } else {
      LabelSame(front, a, a);
      LabelSame(front, b, b);
    }
  }

  /**
   * `Same` is the least such equivalence: any assignment of ids that gives
   * both ids of every pair the same value gives connected ids the same
   * value.
   */
  lemma {:induction false} SameIsLeast(edges: seq<(nat, nat)>, f: nat -> nat, x: nat, y: nat)
    requires forall k :: 0 <= k < |edges| ==> f(edges[k].0) == f(edges[k].1)
    requires Same(edges, x, y)
    ensures f(x) == f(y)
  {
    if edges != [] {
      var n := |edges| - 1;
      var front := edges[..n];
      var a, b := edges[n].0, edges[n].1;
      assert forall k :: 0 <= k < n ==> front[k] == edges[k];
      assert f(a) == f(b);
      if Same(front, x, y) {
        SameIsLeast(front, f, x, y);
      } else if Same(front, x, a) && Same(front, b, y) {
        SameIsLeast(front, f, x, a);
        SameIsLeast(front, f, b, y);
      } else {
        SameIsLeast(front, f, x, b);
        SameIsLeast(front, f, a, y);
      }
    }
  }

  /** An id that occurs in no pair is connected only to itself. */
  lemma {:induction false} SameUntouched(edges: seq<(nat, nat)>, x: nat, y: nat)
    requires forall k :: 0 <= k < |edges| ==> x != edges[k].0 && x != edges[k].1
    requires Same(edges, x, y)
    ensures x == y
  {
    if edges != [] {
      var n := |edges| - 1;
      var front := edges[..n];
      assert forall k :: 0 <= k < n ==> front[k] == edges[k];
      if Same(front, x, y) {
        SameUntouched(front, x, y);
      } else if Same(front, x, edges[n].0) {
        SameUntouched(front, x, edges[n].0);
      } else {
        SameUntouched(front, x, edges[n].1);
      }
    }
  }

  /** The corrected `new_cluster`: every row takes the representative of its id's component. */
  function ComponentColumn(column: seq<nat>, edges: seq<(nat, nat)>): (r: seq<nat>)
    ensures |r| == |column|
  {
    seq(|column|, k requires 0 <= k < |column| => Label(edges, column[k]))
  }

  /**
   * Two rows share a new id iff their old ids are connected through the
   * candidate pairs; every new id lies in the old id's component; an id in
   * no candidate pair is kept.
   */
  lemma ComponentColumnMeaning(column: seq<nat>, edges: seq<(nat, nat)>, k1: nat, k2: nat)
    requires k1 < |column| && k2 < |column|
    ensures var r := ComponentColumn(column, edges);
      && (r[k1] == r[k2] <==> Same(edges, column[k1], column[k2]))
      && Same(edges, column[k1], r[k1])
      && ((forall k :: 0 <= k < |edges| ==> column[k1] != edges[k].0 && column[k1] != edges[k].1) ==> r[k1] == column[k1])
  {
    var x := column[k1];
    LabelSame(edges, x, column[k2]);
    LabelIdempotent(edges, x);
    LabelSame(edges, x, Label(edges, x));
    if forall k :: 0 <= k < |edges| ==> x != edges[k].0 && x != edges[k].1 {
      SameUntouched(edges, x, Label(edges, x));
    }
  }

  /** The single candidate pair (1, 2) merges clusters 1 and 2. */
  lemma SingleCandidateMerged()
    ensures ComponentColumn([1, 2], [(1, 2)]) == [1, 1]
  {
  }

  /** `new_cluster` with connected clusters merged, for the same candidate pairs as `merge_cluster`. */
  function MergedByComponents(column: seq<nat>, dates: seq<int>, mentions: seq<seq<string>>): (r: seq<nat>)
    requires |dates| == |column| && |mentions| == |column|
    ensures |r| == |column|
  {
    ComponentColumn(column, ClusterMerger.CandidatePairs(column, dates, mentions))
  }
}
