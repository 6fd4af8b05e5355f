/**
 * Entity bookkeeping behind the cluster merger: the first-occurrence-wins
 * dictionaries of `get_entity_from_spacy`, the per-cluster entity counts of
 * `merge_cluster`, the `count > 4` filter of `filter_cluster_entity` and the
 * overlap similarity of `compare_list_of_strings`.
 */
module Entities {
  import opened Common

  /**
   * A dictionary filled from (key, value) mentions in order, where a key
   * already present is left alone: each key keeps the value of its first
   * mention.
   */
  function FirstOccurrence<K(!new), V>(pairs: seq<(K, V)>): map<K, V>
  {
    if pairs == [] then map[]
    else
      var n := |pairs| - 1;
      var prev := FirstOccurrence(pairs[..n]);
      if pairs[n].0 in prev then prev else prev[pairs[n].0 := pairs[n].1]
  }

  /**
   * A key is present iff some pair mentions it, and a key's value is the
   * one of its first mention.
   */
  lemma {:induction false} FirstOccurrenceMeaning<K(!new), V>(pairs: seq<(K, V)>)
    ensures forall k :: k in FirstOccurrence(pairs) <==> exists i :: 0 <= i < |pairs| && pairs[i].0 == k
    ensures forall i :: 0 <= i < |pairs| && (forall j :: 0 <= j < i ==> pairs[j].0 != pairs[i].0) ==>
      pairs[i].0 in FirstOccurrence(pairs) && FirstOccurrence(pairs)[pairs[i].0] == pairs[i].1
  {
    if pairs != [] {
      var n := |pairs| - 1;
      var front := pairs[..n];
      FirstOccurrenceMeaning(front);
      assert forall i :: 0 <= i < n ==> front[i] == pairs[i];
    }
  }

  /**
   * One loop of `get_entity_from_spacy` (lines 123-125 and 128-130): the
   * dictionary is filled from the pairs in order, and a key already present
   * is skipped.
   */
  method FillFirstOccurrence(pairs: seq<(string, string)>) returns (m: map<string, string>)
    ensures m == FirstOccurrence(pairs)
  {
    m := map[];
    for i := 0 to |pairs|
      invariant m == FirstOccurrence(pairs[..i])
    {
      assert pairs[..i + 1][..i] == pairs[..i];
      if pairs[i].0 !in m {
        m := m[pairs[i].0 := pairs[i].1];
      }
    }
    assert pairs[..|pairs|] == pairs;
  }

  /**
   * `get_entity_from_spacy` (lines 123-130): the entity-type dictionary from
   * the (text, label) pairs of the recognised entities and the linked-entity
   * dictionary from the (alias, url) pairs of the linked entities, each
   * keeping the first mention of a key.
   */
  method GetEntityInfo(ents: seq<(string, string)>, linked: seq<(string, string)>)
    returns (entityType: map<string, string>, linkedEntity: map<string, string>)
    ensures entityType == FirstOccurrence(ents)
    ensures linkedEntity == FirstOccurrence(linked)
  {
    entityType := FillFirstOccurrence(ents);
    linkedEntity := FillFirstOccurrence(linked);
  }

  /** `Counter(xs)`: each element mapped to how often it occurs. */
  function Tally(xs: seq<string>): (m: map<string, nat>)
    ensures forall e :: e in m <==> e in xs
    ensures forall e :: e in m ==> m[e] == Count(xs, e)
  {
    if xs == [] then map[]
    else
      var n := |xs| - 1;
      var prev := Tally(xs[..n]);
      assert xs == xs[..n] + [xs[n]];
      prev[xs[n] := (if xs[n] in prev then prev[xs[n]] else 0) + 1]
  }

  /**
   * The `entity_mentions` of one cluster (lines 331-337): the entity keys of
   * its rows, row after row in frame order.
   */
  function ClusterMentions(column: seq<nat>, mentions: seq<seq<string>>, c: nat): seq<string>
    requires |mentions| == |column|
  {
    Flatten(At(mentions, Positions(column, c)))
  }

  /** `cluster_entity_maps`: the entity counts of every cluster id. */
  function EntityCounts(column: seq<nat>, mentions: seq<seq<string>>): (counts: map<nat, map<string, nat>>)
    requires |mentions| == |column|
    ensures forall c :: c in counts <==> c in column
  {
    map c | c in column :: Tally(ClusterMentions(column, mentions, c))
  }

  /** The counts of the clusters `ids`, as the loop of lines 326-342 has them after visiting those ids. */
  function CountsOver(column: seq<nat>, mentions: seq<seq<string>>, ids: seq<nat>): (counts: map<nat, map<string, nat>>)
    requires |mentions| == |column|
    ensures forall c :: c in counts <==> c in ids
  {
    if ids == [] then map[]
    else
      var n := |ids| - 1;
      assert ids == ids[..n] + [ids[n]];
      CountsOver(column, mentions, ids[..n])[ids[n] := Tally(ClusterMentions(column, mentions, ids[n]))]
  }

  /** The entity keys of the rows of cluster `c`, collected row by row (lines 331-337). */
  method CollectMentions(column: seq<nat>, mentions: seq<seq<string>>, c: nat) returns (entityMentions: seq<string>)
    requires |mentions| == |column|
    ensures entityMentions == ClusterMentions(column, mentions, c)
  {
    var rows := Positions(column, c);
    entityMentions := [];
    for k := 0 to |rows|
      invariant entityMentions == Flatten(At(mentions, rows[..k]))
    {
      assert At(mentions, rows[..k + 1])[..k] == At(mentions, rows[..k]);
      entityMentions := entityMentions + mentions[rows[k]];
    }
    assert rows[..|rows|] == rows;
  }

  /**
   * The counting loop of lines 326-342: for each distinct id, the entity
   * keys of its rows are collected and counted.
   */
  method CountClusterEntities(column: seq<nat>, mentions: seq<seq<string>>)
    returns (counts: map<nat, map<string, nat>>)
    requires |mentions| == |column|
    ensures counts == EntityCounts(column, mentions)
  {
    var ids := Unique(column);
    counts := map[];
    for i := 0 to |ids|
      invariant counts == CountsOver(column, mentions, ids[..i])
    {
      var cluster := ids[i];
      var entityMentions := CollectMentions(column, mentions, cluster);
      assert ids[..i + 1][..i] == ids[..i];
      counts := counts[cluster := Tally(entityMentions)];
    }
    assert ids[..|ids|] == ids;
    CountsOverAll(column, mentions, ids);
  }

  lemma CountsOverAll(column: seq<nat>, mentions: seq<seq<string>>, ids: seq<nat>)
    requires |mentions| == |column|
    requires forall c :: c in ids <==> c in column
    ensures CountsOver(column, mentions, ids) == EntityCounts(column, mentions)
  {
    forall c | c in ids
      ensures CountsOver(column, mentions, ids)[c] == Tally(ClusterMentions(column, mentions, c))
    {
      CountsOverValue(column, mentions, ids, c);
    }
  }

  lemma {:induction false} CountsOverValue(column: seq<nat>, mentions: seq<seq<string>>, ids: seq<nat>, c: nat)
    requires |mentions| == |column| && c in ids
    ensures CountsOver(column, mentions, ids)[c] == Tally(ClusterMentions(column, mentions, c))
  {
    var n := |ids| - 1;
    if ids[n] != c {
      assert ids == ids[..n] + [ids[n]];
      CountsOverValue(column, mentions, ids[..n], c);
    }
  }

  /** A sequence without repetitions holds each value at most once. */
  lemma {:induction false} CountDistinct(s: seq<string>, e: string)
    requires forall i, j :: 0 <= i < j < |s| ==> s[i] != s[j]
    ensures Count(s, e) == if e in s then 1 else 0
  {
    if s != [] {
      var n := |s| - 1;
      CountDistinct(s[..n], e);
      assert s == s[..n] + [s[n]];
      if s[n] == e {
        assert e !in s[..n];
      }
    }
  }

  /**
   * The rows among `rows` whose entity keys include `e`.
   */
  function RowsMentioning(rows: seq<nat>, mentions: seq<seq<string>>, e: string): seq<nat>
  {
    Filter(rows, (p: nat) => p < |mentions| && e in mentions[p])
  }

  lemma {:induction false} CountOverRows(rows: seq<nat>, mentions: seq<seq<string>>, e: string)
    requires forall i :: 0 <= i < |rows| ==> rows[i] < |mentions|
    requires forall p, i, j :: 0 <= p < |mentions| && 0 <= i < j < |mentions[p]| ==> mentions[p][i] != mentions[p][j]
    ensures Count(Flatten(At(mentions, rows)), e) == |RowsMentioning(rows, mentions, e)|
  {
    if rows != [] {
      var n := |rows| - 1;
      var front := rows[..n];
      CountOverRows(front, mentions, e);
      var frames := At(mentions, rows);
      assert frames[..n] == At(mentions, front);
      assert Flatten(frames) == Flatten(At(mentions, front)) + mentions[rows[n]];
      CountAppend(Flatten(At(mentions, front)), mentions[rows[n]], e);
      CountDistinct(mentions[rows[n]], e);
    }
  }

  /**
   * Entity keys are distinct within a row (they are dictionary keys), so an
   * entity's count in a cluster is the number of the cluster's rows whose
   * keys include it.
   */
  lemma EntityCountIsRowCount(column: seq<nat>, mentions: seq<seq<string>>, c: nat, e: string)
    requires |mentions| == |column|
    requires forall p, i, j :: 0 <= p < |mentions| && 0 <= i < j < |mentions[p]| ==> mentions[p][i] != mentions[p][j]
    requires c in column
    ensures var counts := EntityCounts(column, mentions);
      (e in counts[c] <==> RowsMentioning(Positions(column, c), mentions, e) != [])
      && (e in counts[c] ==> counts[c][e] == |RowsMentioning(Positions(column, c), mentions, e)|)
  {
    CountOverRows(Positions(column, c), mentions, e);
  }

  /** The threshold of line 419: an entity must be counted more than four times. */
  const MinCount: nat := 4

  /**
   * `filter_cluster_entity`: every cluster keeps its key, and its entity map
   * keeps exactly the entities counted more than `MinCount` times, with
   * their counts.
   */
  function FilterEntities(counts: map<nat, map<string, nat>>): (r: map<nat, map<string, nat>>)
    ensures r.Keys == counts.Keys
    ensures forall c :: c in r ==> r[c].Keys <= counts[c].Keys
    ensures forall c, e :: c in r && e in counts[c] ==> (e in r[c] <==> counts[c][e] > MinCount)
    ensures forall c, e :: c in r && e in r[c] ==> r[c][e] == counts[c][e]
  {
    map c | c in counts :: map e | e in counts[c] && counts[c][e] > MinCount :: counts[c][e]
  }

  /** Filtering twice is filtering once. */
  lemma FilterEntitiesIdempotent(counts: map<nat, map<string, nat>>)
    ensures FilterEntities(FilterEntities(counts)) == FilterEntities(counts)
  {
    var once := FilterEntities(counts);
    var twice := FilterEntities(once);
    forall c | c in once
      ensures twice[c] == once[c]
    {
      assert twice[c].Keys == once[c].Keys;
    }
  }

  /** The larger of the two map sizes, the denominator of line 428. */
  function MaxSize(k1: set<string>, k2: set<string>): nat
  {
    if |k1| >= |k2| then |k1| else |k2|
  }

  lemma IntersectionBound(k1: set<string>, k2: set<string>)
    ensures |k1 * k2| <= |k1| && |k1 * k2| <= |k2|
  {
    assert k1 == (k1 - k2) + (k1 * k2);
    assert k2 == (k2 - k1) + (k1 * k2);
  }

  /**
   * `compare_list_of_strings` on the key sets of two filtered entity maps:
   * the number of shared entities over the larger map's size, and 0 when
   * both maps are empty (the `ZeroDivisionError` branch).
   */
  function Similarity(k1: set<string>, k2: set<string>): (r: real)
    ensures 0.0 <= r <= 1.0
    ensures MaxSize(k1, k2) == 0 ==> r == 0.0
    ensures MaxSize(k1, k2) > 0 ==> r * (MaxSize(k1, k2) as real) == |k1 * k2| as real
  {
    var m := MaxSize(k1, k2);
    IntersectionBound(k1, k2);
    if m == 0 then 0.0 else (|k1 * k2| as real) / (m as real)
  }

  /** The similarity does not depend on the order of the pair. */
  lemma SimilaritySymmetric(k1: set<string>, k2: set<string>)
    ensures Similarity(k1, k2) == Similarity(k2, k1)
  {
    assert k1 * k2 == k2 * k1;
  }

  /**
   * The merge test `value >= 0.5` without division: some map is non-empty
   * and twice the shared entities reach the larger size.
   */
  lemma SimilarEnough(k1: set<string>, k2: set<string>)
    ensures Similarity(k1, k2) >= 0.5 <==> MaxSize(k1, k2) > 0 && 2 * |k1 * k2| >= MaxSize(k1, k2)
  {
    var m := MaxSize(k1, k2);
    if m > 0 {
      HalfOrMore(|k1 * k2| as real, m as real);
    }
  }

  /** For a positive denominator, a ratio reaches one half iff twice the numerator reaches the denominator. */
  lemma HalfOrMore(i: real, m: real)
    requires m > 0.0 && i >= 0.0
    ensures i / m >= 0.5 <==> 2.0 * i >= m
  {
    var r := i / m;
    assert r * m == i;
    if r >= 0.5 {
      calc {
        2.0 * i;
      ==
        (2.0 * r) * m;
      >= { assert 2.0 * r >= 1.0; }
        m;
      }
    } else {
      assert (1.0 - 2.0 * r) * m > 0.0;
    }
  }

  /** {A, B, C} and {B, C, D} share two of three entities. */
  lemma SimilarityExample()
    ensures Similarity({"A", "B", "C"}, {"B", "C", "D"}) == 2.0 / 3.0
  {
    var k1: set<string> := {"A", "B", "C"};
    var k2: set<string> := {"B", "C", "D"};
    assert k1 * k2 == {"B", "C"};
    assert |k1| == 3 && |k2| == 3;
  }
}
