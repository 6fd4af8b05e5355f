/**
 * The merge-candidate rule of `merge_cluster` (lines 351-382): two clusters
 * are candidates when their date spans lie at most ten days apart and their
 * filtered entity maps are similar enough. Dates are day numbers, compared
 * as the `%Y-%m-%d` parsing of lines 359-366 intends.
 */
module MergeCandidates {
  import opened Common
  import Entities

  /** The largest gap in days, and the least similarity, of a merge (lines 380-381). */
  const MaxGapDays: nat := 10
  const MinSimilarity: real := 0.5

  /** `day_difference`: the absolute number of days between two dates. */
  function DayDifference(d1: int, d2: int): (r: nat)
    ensures r == d2 - d1 || r == d1 - d2
  {
    if d2 >= d1 then d2 - d1 else d1 - d2
  }

  /**
   * The distance of lines 368-377 between the spans [min1, max1] and
   * [min2, max2]: 0 when one of the four containment or overlap tests
   * holds, otherwise the days between the nearer edges.
   */
  function SpanDistance(min1: int, max1: int, min2: int, max2: int): nat
  {
    var aWithinB := min2 <= min1 <= max2 && min2 <= max1 <= max2;
    var bWithinA := min1 <= min2 <= max1 && min1 <= max2 <= max1;
    var aOverlapsB := (min1 <= min2 <= max1 <= max2) || (min2 <= min1 <= max2 <= max1);
    var bOverlapsA := (min2 <= min1 <= max2 <= max1) || (min1 <= min2 <= max1 <= max2);
    if aWithinB || bWithinA || aOverlapsB || bOverlapsA then 0
    else if max1 <= min2 then DayDifference(max1, min2)
    else DayDifference(min1, max2)
  }

  /**
   * For proper spans the four tests together say exactly that the spans
   * intersect: the distance is 0 iff they share a day, and otherwise it is
   * the gap between the end of the earlier span and the start of the later.
   */
  lemma SpanDistanceIsGap(min1: int, max1: int, min2: int, max2: int)
    requires min1 <= max1 && min2 <= max2
    ensures SpanDistance(min1, max1, min2, max2) == 0 <==> min2 <= max1 && min1 <= max2
    ensures max1 < min2 ==> SpanDistance(min1, max1, min2, max2) == min2 - max1
    ensures max2 < min1 ==> SpanDistance(min1, max1, min2, max2) == min1 - max2
  {
  }

  /** For proper spans, the distance does not depend on the order of the pair. */
  lemma SpanDistanceSymmetric(min1: int, max1: int, min2: int, max2: int)
    requires min1 <= max1 && min2 <= max2
    ensures SpanDistance(min1, max1, min2, max2) == SpanDistance(min2, max2, min1, max1)
  {
    SpanDistanceIsGap(min1, max1, min2, max2);
    SpanDistanceIsGap(min2, max2, min1, max1);
  }

  /** Spans of days 1-5 and 10-20 lie five days apart; spans 1-5 and 5-9 touch. */
  lemma SpanDistanceExample()
    ensures SpanDistance(1, 5, 10, 20) == 5
    ensures SpanDistance(10, 20, 1, 5) == 5
    ensures SpanDistance(1, 5, 5, 9) == 0
  {
  }

  /** Python's `min` over a non-empty list. */
  function MinOf(xs: seq<int>): (m: int)
    requires xs != []
    ensures m in xs
    ensures forall k :: 0 <= k < |xs| ==> m <= xs[k]
  {
    if |xs| == 1 then xs[0]
    else
      var rest := MinOf(xs[..|xs| - 1]);
      assert xs == xs[..|xs| - 1] + [xs[|xs| - 1]];
      if xs[|xs| - 1] < rest then xs[|xs| - 1] else rest
  }

  /** Python's `max` over a non-empty list. */
  function MaxOf(xs: seq<int>): (m: int)
    requires xs != []
    ensures m in xs
    ensures forall k :: 0 <= k < |xs| ==> xs[k] <= m
  {
    if |xs| == 1 then xs[0]
    else
      var rest := MaxOf(xs[..|xs| - 1]);
      assert xs == xs[..|xs| - 1] + [xs[|xs| - 1]];
      if xs[|xs| - 1] > rest then xs[|xs| - 1] else rest
  }

  /** The start dates of the rows of cluster `c`. */
  function DatesOf(column: seq<nat>, dates: seq<int>, c: nat): (ds: seq<int>)
    requires |dates| == |column|
    ensures c in column ==> ds != []
  {
    var rows := Positions(column, c);
    assert c in column ==> rows != [] by {
      if c in column {
        var p :| 0 <= p < |column| && column[p] == c;
        assert p in rows;
      }
    }
    At(dates, rows)
  }

  /** The temporal distance of two clusters (lines 359-377). */
  function PairDistance(column: seq<nat>, dates: seq<int>, a: nat, b: nat): nat
    requires |dates| == |column| && a in column && b in column
  {
    var da, db := DatesOf(column, dates, a), DatesOf(column, dates, b);
    SpanDistance(MinOf(da), MaxOf(da), MinOf(db), MaxOf(db))
  }

  /**
   * The distance of two clusters is 0 iff some day lies in both spans, and
   * is the same whichever cluster comes first.
   */
  lemma PairDistanceMeaning(column: seq<nat>, dates: seq<int>, a: nat, b: nat)
    requires |dates| == |column| && a in column && b in column
    ensures var da, db := DatesOf(column, dates, a), DatesOf(column, dates, b);
      PairDistance(column, dates, a, b) == 0 <==> MinOf(db) <= MaxOf(da) && MinOf(da) <= MaxOf(db)
    ensures PairDistance(column, dates, a, b) == PairDistance(column, dates, b, a)
  {
    var da, db := DatesOf(column, dates, a), DatesOf(column, dates, b);
    assert MinOf(da) <= da[0] <= MaxOf(da);
    assert MinOf(db) <= db[0] <= MaxOf(db);
    SpanDistanceIsGap(MinOf(da), MaxOf(da), MinOf(db), MaxOf(db));
    SpanDistanceSymmetric(MinOf(da), MaxOf(da), MinOf(db), MaxOf(db));
  }

  /** `compare_list_of_strings` on the filtered entity maps of two clusters. */
  function PairSimilarity(entityMaps: map<nat, map<string, nat>>, a: nat, b: nat): real
    requires a in entityMaps && b in entityMaps
  {
    Entities.Similarity(entityMaps[a].Keys, entityMaps[b].Keys)
  }

  /** The arguments a pair needs for the candidate test. */
  predicate Known(column: seq<nat>, entityMaps: map<nat, map<string, nat>>, pair: (nat, nat))
  {
    pair.0 in column && pair.1 in column && pair.0 in entityMaps && pair.1 in entityMaps
  }

  /** The test of lines 380-381. */
  predicate IsCandidate(column: seq<nat>, dates: seq<int>, entityMaps: map<nat, map<string, nat>>, pair: (nat, nat))
    requires |dates| == |column| && Known(column, entityMaps, pair)
  {
    PairDistance(column, dates, pair.0, pair.1) <= MaxGapDays && PairSimilarity(entityMaps, pair.0, pair.1) >= MinSimilarity
  }

  /** `merged_clusters`: the candidate pairs among `pairs`, in order. */
  function Candidates(column: seq<nat>, dates: seq<int>, entityMaps: map<nat, map<string, nat>>, pairs: seq<(nat, nat)>): (r: seq<(nat, nat)>)
    requires |dates| == |column|
    requires forall k :: 0 <= k < |pairs| ==> Known(column, entityMaps, pairs[k])
    ensures |r| <= |pairs|
  {
    if pairs == [] then []
    else
      var n := |pairs| - 1;
      var rest := Candidates(column, dates, entityMaps, pairs[..n]);
      if IsCandidate(column, dates, entityMaps, pairs[n]) then rest + [pairs[n]] else rest
  }

  /** A pair is a candidate iff it is among `pairs` and passes the test of lines 380-381. */
  lemma {:induction false} CandidatesMembers(column: seq<nat>, dates: seq<int>, entityMaps: map<nat, map<string, nat>>, pairs: seq<(nat, nat)>)
    requires |dates| == |column|
    requires forall k :: 0 <= k < |pairs| ==> Known(column, entityMaps, pairs[k])
    ensures forall x :: x in Candidates(column, dates, entityMaps, pairs) <==>
      x in pairs && IsCandidate(column, dates, entityMaps, x)
  {
    if pairs != [] {
      var n := |pairs| - 1;
      assert pairs == pairs[..n] + [pairs[n]];
      CandidatesMembers(column, dates, entityMaps, pairs[..n]);
    }
  }

  /**
   * The candidates keep the order of the pairs: those of a concatenation are
   * the candidates of the first part followed by those of the second.
   */
  lemma {:induction false} CandidatesAppend(column: seq<nat>, dates: seq<int>, entityMaps: map<nat, map<string, nat>>,
                                            a: seq<(nat, nat)>, b: seq<(nat, nat)>)
    requires |dates| == |column|
    requires forall k :: 0 <= k < |a| ==> Known(column, entityMaps, a[k])
    requires forall k :: 0 <= k < |b| ==> Known(column, entityMaps, b[k])
    ensures forall k :: 0 <= k < |a + b| ==> Known(column, entityMaps, (a + b)[k])
    ensures Candidates(column, dates, entityMaps, a + b) ==
      Candidates(column, dates, entityMaps, a) + Candidates(column, dates, entityMaps, b)
  {
    var ab := a + b;
    assert forall k :: 0 <= k < |ab| ==> Known(column, entityMaps, ab[k]) by {
      forall k | 0 <= k < |ab| ensures Known(column, entityMaps, ab[k]) {
        if k < |a| { assert ab[k] == a[k]; } else { assert ab[k] == b[k - |a|]; }
      }
    }
    CandidatesAsFilter(column, dates, entityMaps, a);
    CandidatesAsFilter(column, dates, entityMaps, b);
    CandidatesAsFilter(column, dates, entityMaps, ab);
    Common.FilterAppend(a, b, p => Known(column, entityMaps, p) && IsCandidate(column, dates, entityMaps, p));
  }

  /** The candidate list is the pairs filtered by the candidate test, in their original order. */
  lemma {:induction false} CandidatesAsFilter(column: seq<nat>, dates: seq<int>, entityMaps: map<nat, map<string, nat>>,
                                              pairs: seq<(nat, nat)>)
    requires |dates| == |column|
    requires forall k :: 0 <= k < |pairs| ==> Known(column, entityMaps, pairs[k])
    ensures Candidates(column, dates, entityMaps, pairs) ==
      Common.Filter(pairs, p => Known(column, entityMaps, p) && IsCandidate(column, dates, entityMaps, p))
  {
    if pairs != [] {
      CandidatesAsFilter(column, dates, entityMaps, pairs[..|pairs| - 1]);
    }
  }


  /**
   * The candidate test written without division: distance at most ten days,
   * some filtered map non-empty, and twice the shared entities reaching the
   * larger map's size.
   */
  lemma IsCandidateIff(column: seq<nat>, dates: seq<int>, entityMaps: map<nat, map<string, nat>>, a: nat, b: nat)
    requires |dates| == |column| && a in column && b in column && a in entityMaps && b in entityMaps
    ensures var k1, k2 := entityMaps[a].Keys, entityMaps[b].Keys;
      IsCandidate(column, dates, entityMaps, (a, b)) <==>
        PairDistance(column, dates, a, b) <= 10 && Entities.MaxSize(k1, k2) > 0 && 2 * |k1 * k2| >= Entities.MaxSize(k1, k2)
  {
    Entities.SimilarEnough(entityMaps[a].Keys, entityMaps[b].Keys);
  }

  /** The candidate test does not depend on the order of the pair. */
  lemma IsCandidateSymmetric(column: seq<nat>, dates: seq<int>, entityMaps: map<nat, map<string, nat>>, a: nat, b: nat)
    requires |dates| == |column| && a in column && b in column && a in entityMaps && b in entityMaps
    ensures IsCandidate(column, dates, entityMaps, (a, b)) == IsCandidate(column, dates, entityMaps, (b, a))
  {
    PairDistanceMeaning(column, dates, a, b);
    Entities.SimilaritySymmetric(entityMaps[a].Keys, entityMaps[b].Keys);
  }

  /** Every pair of distinct ids of the column can be tested. */
  lemma PairsKnown(column: seq<nat>, entityMaps: map<nat, map<string, nat>>)
    requires forall c :: c in column ==> c in entityMaps
    ensures forall k :: 0 <= k < |Pairs(Unique(column))| ==> Known(column, entityMaps, Pairs(Unique(column))[k])
  {
  }

  /**
   * The body of the loop of lines 358-382 for one pair: the two date spans
   * are measured and the pair tested.
   */
  method TestPair(column: seq<nat>, dates: seq<int>, entityMaps: map<nat, map<string, nat>>, a: nat, b: nat)
    returns (isCandidate: bool)
    requires |dates| == |column| && Known(column, entityMaps, (a, b))
    ensures isCandidate == IsCandidate(column, dates, entityMaps, (a, b))
  {
    var datesA, datesB := DatesOf(column, dates, a), DatesOf(column, dates, b);
    var min1, max1 := MinOf(datesA), MaxOf(datesA);
    var min2, max2 := MinOf(datesB), MaxOf(datesB);
    var clusterDistance := SpanDistance(min1, max1, min2, max2);
    var value := PairSimilarity(entityMaps, a, b);
    isCandidate := false;
    if clusterDistance <= MaxGapDays {
      if value >= MinSimilarity {
        isCandidate := true;
      }
    }
  }

  /**
   * The loop of lines 358-382 over the pairs `combinations`, in order: each
   * pair that passes the test is appended.
   */
  method SelectCandidates(column: seq<nat>, dates: seq<int>, entityMaps: map<nat, map<string, nat>>, combinations: seq<(nat, nat)>)
    returns (merged: seq<(nat, nat)>)
    requires |dates| == |column|
    requires forall k :: 0 <= k < |combinations| ==> Known(column, entityMaps, combinations[k])
    ensures merged == Candidates(column, dates, entityMaps, combinations)
  {
    merged := [];
    for i := 0 to |combinations|
      invariant merged == Candidates(column, dates, entityMaps, combinations[..i])
    {
      var pair := combinations[i];
      var isCandidate := TestPair(column, dates, entityMaps, pair.0, pair.1);
      assert combinations[..i + 1][..i] == combinations[..i];
      if isCandidate {
        merged := merged + [pair];
      }
    }
    assert combinations[..|combinations|] == combinations;
  }

  /**
   * Lines 351-382: the candidate pairs among every pair of distinct cluster
   * ids, in the order of `combinations`.
   */
  method FindCandidates(column: seq<nat>, dates: seq<int>, entityMaps: map<nat, map<string, nat>>)
    returns (merged: seq<(nat, nat)>)
    requires |dates| == |column|
    requires forall c :: c in column ==> c in entityMaps
    ensures merged == Candidates(column, dates, entityMaps, Pairs(Unique(column)))
  {
    var combinations := Pairs(Unique(column));
    PairsKnown(column, entityMaps);
    merged := SelectCandidates(column, dates, entityMaps, combinations);
  }
}
