/**
 * Sequence helpers shared by the pipeline stages. A data frame is modelled
 * column by column: a column is a sequence indexed by row position, and a
 * frame that selects rows (what `df.loc[mask]` or `pd.concat` yields) is the
 * sequence of the selected row positions, in order.
 */
module Common {

  datatype Option<+T> = None | Some(value: T)

  datatype Result<+R, +E> = Success(value: R) | Failure(error: E)

  /** Python's `lst.count(x)`. */
  function Count<T(==)>(s: seq<T>, x: T): (n: nat)
    ensures n <= |s|
    ensures n > 0 <==> x in s
  {
    if s == [] then 0
    else
      assert s == s[..|s| - 1] + [s[|s| - 1]];
      Count(s[..|s| - 1], x) + (if s[|s| - 1] == x then 1 else 0)
  }

  lemma {:induction false} CountAppend<T>(a: seq<T>, b: seq<T>, x: T)
    ensures Count(a + b, x) == Count(a, x) + Count(b, x)
    decreases |b|
  {
    if b != [] {
      var b' := b[..|b| - 1];
      assert (a + b)[..|a + b| - 1] == a + b';
      CountAppend(a, b', x);
    } else {
      assert a + b == a;
    }
  }

  /**
   * pandas' `Series.unique()`: the distinct values in order of first
   * appearance.
   */
  function Unique<T(==,!new)>(s: seq<T>): (r: seq<T>)
    ensures forall x :: x in r <==> x in s
    ensures forall i, j :: 0 <= i < j < |r| ==> r[i] != r[j]
  {
    if s == [] then []
    else
      var rest := Unique(s[..|s| - 1]);
      assert s == s[..|s| - 1] + [s[|s| - 1]];
      if s[|s| - 1] in rest then rest else rest + [s[|s| - 1]]
  }

  /**
   * `unique()` lists values in order of first appearance: every value listed
   * before `r[j]` already appears in `s` before any occurrence of `r[j]`.
   */
  lemma {:induction false} UniqueFirstAppearance<T(!new)>(s: seq<T>)
    ensures forall i, j, b :: 0 <= i < j < |Unique(s)| && 0 <= b < |s| && s[b] == Unique(s)[j] ==>
      Unique(s)[i] in s[..b]
  {
    if s != [] {
      var n := |s| - 1;
      var f, y := s[..n], s[n];
      UniqueFirstAppearance(f);
      var u, uf := Unique(s), Unique(f);
      forall i, j, b | 0 <= i < j < |u| && 0 <= b < |s| && s[b] == u[j]
        ensures u[i] in s[..b]
      {
        assert u[i] in uf;
        if b < n {
          assert f[b] == s[b] && f[..b] == s[..b];
        } else {
          assert s[..b] == f;
        }
      }
    }
  }

  /** A sequence has the single distinct value x iff it is non-empty and holds only x. */
  lemma UniqueSingleton<T(!new)>(s: seq<T>, x: T)
    ensures Unique(s) == [x] <==> s != [] && forall i :: 0 <= i < |s| ==> s[i] == x
  {
    var u := Unique(s);
    if u == [x] {
      forall i | 0 <= i < |s|
        ensures s[i] == x
      {
        assert s[i] in u;
      }
    }
    if s != [] && forall i :: 0 <= i < |s| ==> s[i] == x {
      assert s[0] in u;
      forall j | 0 <= j < |u|
        ensures u[j] == x
      {
        assert u[j] in s;
      }
      assert |u| <= 1;
    }
  }

  /**
   * The rows of `df.loc[df[col] == v]`: the positions holding `v`, in
   * increasing order.
   */
  function Positions<T(==)>(s: seq<T>, v: T): (r: seq<nat>)
    ensures forall p: nat :: p in r <==> p < |s| && s[p] == v
    ensures forall i, j :: 0 <= i < j < |r| ==> r[i] < r[j]
    ensures forall i :: 0 <= i < |r| ==> r[i] < |s|
  {
    if s == [] then []
    else
      var rest := Positions(s[..|s| - 1], v);
      if s[|s| - 1] == v then rest + [|s| - 1] else rest
  }

  /** The values a column holds at the given rows, in the rows' order. */
  function At<T>(column: seq<T>, rows: seq<nat>): (r: seq<T>)
    requires forall i :: 0 <= i < |rows| ==> rows[i] < |column|
    ensures |r| == |rows|
    ensures forall i :: 0 <= i < |rows| ==> r[i] == column[rows[i]]
  {
    seq(|rows|, i requires 0 <= i < |rows| => column[rows[i]])
  }

  /** The rows among `rows` whose `labels` entry is `l`, in order. */
  function RowsLabelled(rows: seq<nat>, labels: seq<int>, l: int): (r: seq<nat>)
    requires forall i :: 0 <= i < |rows| ==> rows[i] < |labels|
    ensures forall p :: p in r <==> p in rows && labels[p] == l
    ensures |r| <= |rows|
  {
    if rows == [] then []
    else
      var rest := RowsLabelled(rows[..|rows| - 1], labels, l);
      assert rows == rows[..|rows| - 1] + [rows[|rows| - 1]];
      if labels[rows[|rows| - 1]] == l then rest + [rows[|rows| - 1]] else rest
  }

  /** The elements of `s` that satisfy `keep`, in order (a list comprehension with a guard). */
  function Filter<T(!new)>(s: seq<T>, keep: T -> bool): (r: seq<T>)
    ensures forall x :: x in r <==> x in s && keep(x)
    ensures |r| <= |s|
  {
    if s == [] then []
    else
      var rest := Filter(s[..|s| - 1], keep);
      assert s == s[..|s| - 1] + [s[|s| - 1]];
      if keep(s[|s| - 1]) then rest + [s[|s| - 1]] else rest
  }
  /** Filtering distributes over concatenation, keeping the order of both halves. */
  lemma {:induction false} FilterAppend<T(!new)>(a: seq<T>, b: seq<T>, keep: T -> bool)
    ensures Filter(a + b, keep) == Filter(a, keep) + Filter(b, keep)
    decreases |b|
  {
    if b == [] {
      assert a + b == a;
    } else {
      var n := |b| - 1;
      var ab := a + b;
      var tail := if keep(b[n]) then [b[n]] else [];
      var x := Filter(a, keep);
      var y := Filter(b[..n], keep);
      assert Filter(ab, keep) == Filter(a + b[..n], keep) + tail by {
        assert ab[..|ab| - 1] == a + b[..n];
        assert ab[|ab| - 1] == b[n];
      }
      assert Filter(b, keep) == y + tail;
      FilterAppend(a, b[..n], keep);
      assert (x + y) + tail == x + (y + tail);
    }
  }


  /** `pd.concat` of row frames, or `chain(*lists)`: the frames one after the other. */
  function Flatten<T(!new)>(ss: seq<seq<T>>): (r: seq<T>)
    ensures forall x :: x in r <==> exists i :: 0 <= i < |ss| && x in ss[i]
  {
    if ss == [] then []
    else
      var front := ss[..|ss| - 1];
      var rest := Flatten(front);
      assert forall i :: 0 <= i < |front| ==> front[i] == ss[i];
      rest + ss[|ss| - 1]
  }

  lemma FlattenSnoc<T(!new)>(ss: seq<seq<T>>, s: seq<T>)
    ensures Flatten(ss + [s]) == Flatten(ss) + s
  {
    assert (ss + [s])[..|ss|] == ss;
  }

  /** `[0, 1, ..., n-1]`. */
  function Range(n: nat): (r: seq<nat>)
    ensures |r| == n
    ensures forall i :: 0 <= i < n ==> r[i] == i
  {
    seq(n, i requires 0 <= i < n => i)
  }

  /**
   * `itertools.combinations(s, 2)`: the pairs (s[i], s[j]) with i < j,
   * ordered by i and then by j.
   */
  function Pairs<T>(s: seq<T>): (r: seq<(T, T)>)
    ensures forall k :: 0 <= k < |r| ==> r[k].0 in s && r[k].1 in s
  {
    if |s| < 2 then []
    else
      var rest := Pairs(s[1..]);
      assert forall k :: 0 <= k < |rest| ==> rest[k].0 in s && rest[k].1 in s by {
        forall x | x in s[1..] ensures x in s {}
      }
      seq(|s| - 1, k requires 0 <= k < |s| - 1 => (s[0], s[k + 1])) + rest
  }

  /** There are n(n-1)/2 pairs, one per choice of two positions. */
  lemma {:induction false} PairsLength<T>(s: seq<T>)
    ensures 2 * |Pairs(s)| == |s| * (|s| - 1)
  {
    if |s| >= 2 {
      PairsLength(s[1..]);
      var n := |s|;
      assert 2 * |Pairs(s)| == 2 * (n - 1) + (n - 1) * (n - 2);
      assert (n - 1) * (n - 2) == (n - 1) * n - 2 * (n - 1);
    }
  }

  /** The number of pairs whose first position is below i, among n positions. */
  function PairsBefore(n: nat, i: nat): nat
    requires i <= n
  {
    if i == 0 then 0 else PairsBefore(n, i - 1) + (n - i)
  }

  /** The place of the pair of positions (i, j) in `combinations` order. */
  function PairIndex(n: nat, i: nat, j: nat): nat
    requires i < j < n
  {
    PairsBefore(n, i) + (j - i - 1)
  }

  lemma {:induction false} PairsBeforeShift(n: nat, i: nat)
    requires 1 <= i <= n
    ensures PairsBefore(n, i) == (n - 1) + PairsBefore(n - 1, i - 1)
  {
    if i > 1 {
      PairsBeforeShift(n, i - 1);
    }
  }

  /** `Pairs(s)` holds (s[i], s[j]) at place `PairIndex(|s|, i, j)`. */
  lemma {:induction false} PairsAt<T>(s: seq<T>, i: nat, j: nat)
    requires i < j < |s|
    ensures PairIndex(|s|, i, j) < |Pairs(s)| && Pairs(s)[PairIndex(|s|, i, j)] == (s[i], s[j])
  {
    if i > 0 {
      PairsBeforeShift(|s|, i);
      PairsAt(s[1..], i - 1, j - 1);
    }
  }

  /**
   * The places increase with the positions in lexicographic order, so the
   * pairs come ordered by first position and then by second position.
   */
  lemma {:induction false} PairIndexIncreasing(n: nat, i: nat, j: nat, i': nat, j': nat)
    requires i < j < n && i' < j' < n
    requires i < i' || (i == i' && j < j')
    ensures PairIndex(n, i, j) < PairIndex(n, i', j')
  {
    if i < i' {
      PairsBeforeGrows(n, i + 1, i');
    }
  }

  lemma {:induction false} PairsBeforeGrows(n: nat, i: nat, i': nat)
    requires i <= i' <= n
    ensures PairsBefore(n, i) <= PairsBefore(n, i')
    decreases i' - i
  {
    if i < i' {
      PairsBeforeGrows(n, i, i' - 1);
    }
  }

  /** Every pair of `Pairs(s)` takes its first component from an earlier position than its second. */
  lemma {:induction false} PairsPositions<T>(s: seq<T>, k: nat)
    requires k < |Pairs(s)|
    ensures exists i, j :: 0 <= i < j < |s| && Pairs(s)[k] == (s[i], s[j])
  {
    var head := seq(|s| - 1, m requires 0 <= m < |s| - 1 => (s[0], s[m + 1]));
    if k < |head| {
      assert Pairs(s)[k] == (s[0], s[k + 1]);
    } else {
      PairsPositions(s[1..], k - |head|);
      var i, j :| 0 <= i < j < |s[1..]| && Pairs(s[1..])[k - |head|] == (s[1..][i], s[1..][j]);
      assert Pairs(s)[k] == (s[i + 1], s[j + 1]);
    }
  }

  /** Conversely, every (s[i], s[j]) with i < j is one of the pairs. */
  lemma {:induction false} PairsComplete<T>(s: seq<T>, i: nat, j: nat)
    requires i < j < |s|
    ensures (s[i], s[j]) in Pairs(s)
  {
    var head := seq(|s| - 1, m requires 0 <= m < |s| - 1 => (s[0], s[m + 1]));
    if i == 0 {
      assert head[j - 1] == (s[i], s[j]);
    } else {
      PairsComplete(s[1..], i - 1, j - 1);
    }
  }
}
