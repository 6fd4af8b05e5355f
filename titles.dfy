/**
 * Title normalisation: `remove_stick_in_title`, the keep-last de-duplication
 * by title, and `combine_columns`, which builds the title-plus-date text of
 * the temporal clustering variant.
 */
module Titles {
  import opened Common
  import Selection

  const Stick: char := '|'

  /**
   * The sequence iterated at create_silver_label.py:149. Iterating a Python
   * string yields its characters, so the "parts" are one-character strings.
   */
  function CharacterParts(title: string): (parts: seq<string>)
    ensures |parts| == |title|
    ensures forall k :: 0 <= k < |title| ==> parts[k] == [title[k]]
  {
    seq(|title|, k requires 0 <= k < |title| => [title[k]])
  }

  function Lengths(parts: seq<string>): (lens: seq<int>)
    ensures |lens| == |parts|
    ensures forall k :: 0 <= k < |parts| ==> lens[k] == |parts[k]|
  {
    seq(|parts|, k requires 0 <= k < |parts| => |parts[k]|)
  }

  /** The first part of maximal length. */
  function LongestOf(parts: seq<string>): (part: string)
    requires |parts| > 0
    ensures part in parts
    ensures forall k :: 0 <= k < |parts| ==> |parts[k]| <= |part|
  {
    parts[Selection.FirstMaxIndex(Lengths(parts))]
  }

  /**
   * What `remove_stick_in_title` does to one title, as written: a title with
   * a stick becomes its first character.
   */
  function NormaliseTitle(title: string): (r: string)
    ensures Stick !in title ==> r == title
    ensures Stick in title ==> r == [title[0]]
  {
    if Stick in title then
      var parts := CharacterParts(title);
      var i := Selection.FirstMaxIndex(Lengths(parts));
      assert Lengths(parts)[0] == 1 && Lengths(parts)[i] == 1;
      parts[i]
    else title
  }

  /** The positions of the titles that contain a stick (line 146). */
  function StickRows(titles: seq<string>): (rows: seq<nat>)
    ensures forall p: nat :: p in rows <==> p < |titles| && Stick in titles[p]
    ensures forall i, j :: 0 <= i < j < |rows| ==> rows[i] < rows[j]
    ensures forall i :: 0 <= i < |rows| ==> rows[i] < |titles|
  {
    if titles == [] then []
    else
      var rest := StickRows(titles[..|titles| - 1]);
      if Stick in titles[|titles| - 1] then rest + [|titles| - 1] else rest
  }

  /** The loop of lines 148-151: the replacement title of every stick row, in order. */
  method StickReplacements(titles: seq<string>, rows: seq<nat>) returns (replacements: seq<string>)
    requires forall m :: 0 <= m < |rows| ==> rows[m] < |titles| && Stick in titles[rows[m]]
    ensures |replacements| == |rows|
    ensures forall m :: 0 <= m < |rows| ==> replacements[m] == NormaliseTitle(titles[rows[m]])
  {
    replacements := [];
    for k := 0 to |rows|
      invariant |replacements| == k
      invariant forall m :: 0 <= m < k ==> replacements[m] == NormaliseTitle(titles[rows[m]])
    {
      var title := titles[rows[k]];
      assert title[0] == CharacterParts(title)[0][0];
      var partsLen := Lengths(CharacterParts(title));
      var longest := Selection.FirstMaxIndex(partsLen);
      replacements := replacements + [CharacterParts(title)[longest]];
    }
  }

  /**
   * The assignment of line 152: row rows[m] receives replacements[m] and
   * every other row keeps its title.
   */
  method WriteTitles(titles: seq<string>, rows: seq<nat>, replacements: seq<string>) returns (result: seq<string>)
    requires |replacements| == |rows|
    requires forall m :: 0 <= m < |rows| ==> rows[m] < |titles|
    requires forall i, j :: 0 <= i < j < |rows| ==> rows[i] < rows[j]
    ensures |result| == |titles|
    ensures forall m :: 0 <= m < |rows| ==> result[rows[m]] == replacements[m]
    ensures forall p :: 0 <= p < |titles| && p !in rows ==> result[p] == titles[p]
  {
    result := titles;
    for k := 0 to |rows|
      invariant |result| == |titles|
      invariant forall m :: 0 <= m < k ==> result[rows[m]] == replacements[m]
      invariant forall p :: 0 <= p < |titles| && p !in rows[..k] ==> result[p] == titles[p]
    {
      result := result[rows[k] := replacements[k]];
    }
    assert rows[..|rows|] == rows;
  }

  /**
   * `remove_stick_in_title`: collect the stick rows, build the replacement
   * titles in a loop, then write them back into the title column.
   */
  method RemoveStickInTitle(titles: seq<string>) returns (result: seq<string>)
    ensures |result| == |titles|
    ensures forall p :: 0 <= p < |titles| ==> result[p] == NormaliseTitle(titles[p])
  {
    var rows := StickRows(titles);
    var replacements := StickReplacements(titles, rows);
    result := WriteTitles(titles, rows, replacements);
    forall p | 0 <= p < |titles|
      ensures result[p] == NormaliseTitle(titles[p])
    {
      if p in rows {
        var m :| 0 <= m < |rows| && rows[m] == p;
      }
    }
  }

  /**
   * The rows kept by `drop_duplicates(subset='title', keep="last")`, among
   * the first `n`: a row survives when no later row has the same title.
   */
  function KeepLastUpTo(titles: seq<string>, n: nat): (kept: seq<nat>)
    requires n <= |titles|
    ensures forall p: nat :: p in kept <==> p < n && titles[p] !in titles[p + 1..]
    ensures forall i, j :: 0 <= i < j < |kept| ==> kept[i] < kept[j]
    ensures forall i :: 0 <= i < |kept| ==> kept[i] < n
  {
    if n == 0 then []
    else
      var rest := KeepLastUpTo(titles, n - 1);
      if titles[n - 1] !in titles[n..] then rest + [n - 1] else rest
  }

  function KeepLast(titles: seq<string>): (kept: seq<nat>)
  {
    KeepLastUpTo(titles, |titles|)
  }

  /** The surviving rows carry pairwise distinct titles, in the original order. */
  lemma KeepLastDistinct(titles: seq<string>)
    ensures var kept := KeepLast(titles);
      forall i, j :: 0 <= i < j < |kept| ==> kept[i] < kept[j] && titles[kept[i]] != titles[kept[j]]
  {
    var kept := KeepLast(titles);
    forall i, j | 0 <= i < j < |kept|
      ensures titles[kept[i]] != titles[kept[j]]
    {
      var a, b := kept[i], kept[j];
      assert a in kept && titles[a] !in titles[a + 1..];
      assert titles[b] == titles[a + 1..][b - a - 1];
    }
  }

  /**
   * Every title of the input survives, and the row that carries it is its
   * last occurrence.
   */
  lemma {:induction false} KeepLastKeepsLastOccurrence(titles: seq<string>, t: string)
    requires t in titles
    ensures exists p :: p in KeepLast(titles) && titles[p] == t
    ensures forall p :: p in KeepLast(titles) && titles[p] == t ==>
      forall q :: p < q < |titles| ==> titles[q] != t
  {
    var last := LastIndexOf(titles, t);
    assert t !in titles[last + 1..];
    assert last in KeepLast(titles);
    forall p | p in KeepLast(titles) && titles[p] == t
      ensures forall q :: p < q < |titles| ==> titles[q] != t
    {
      forall q | p < q < |titles|
        ensures titles[q] != t
      {
        assert titles[q] == titles[p + 1..][q - p - 1];
      }
    }
  }

  /** The position of the last occurrence of `t`. */
  function LastIndexOf(titles: seq<string>, t: string): (last: nat)
    requires t in titles
    ensures last < |titles| && titles[last] == t
    ensures forall q :: last < q < |titles| ==> titles[q] != t
  {
    if titles[|titles| - 1] == t then |titles| - 1
    else
      var front := titles[..|titles| - 1];
      assert t in front by {
        var k :| 0 <= k < |titles| && titles[k] == t;
        assert front[k] == t;
      }
      LastIndexOf(front, t)
  }

  /** `combine_columns`: the title followed by the date in parentheses. */
  function TemporalTitle(title: string, startDate: string): (r: string)
    ensures |r| == |title| + |startDate| + 3
    ensures r[..|title|] == title
    ensures r[|title|..|title| + 2] == " ("
    ensures r[|title| + 2..|r| - 1] == startDate
    ensures r[|r| - 1] == ')'
  {
    title + " (" + startDate + ")"
  }

  /** Given the title's length, the combined text gives back both the title and the date. */
  lemma TemporalTitleInjective(title: string, startDate: string, title': string, startDate': string)
    requires |title| == |title'|
    requires TemporalTitle(title, startDate) == TemporalTitle(title', startDate')
    ensures title == title' && startDate == startDate'
  {
    var r := TemporalTitle(title, startDate);
    assert title == r[..|title|] == title';
  }

  // ------------------------------------------------------------------
  // The evidently intended normalisation: split on the stick and keep the
  // first longest segment.

  /** The first position of `d` in `s`. */
  function IndexOf(s: string, d: char): (i: nat)
    requires d in s
    ensures i < |s| && s[i] == d && d !in s[..i]
  {
    if s[0] == d then 0
    else
      assert d in s[1..] by {
        var k :| 0 <= k < |s| && s[k] == d;
        assert s[1..][k - 1] == d;
      }
      var j := IndexOf(s[1..], d);
      assert s[..j + 1] == [s[0]] + s[1..][..j];
      j + 1
  }

  /** Python's `s.split(d)`. */
  function Split(s: string, d: char): (parts: seq<string>)
    ensures |parts| > 0
    ensures forall k :: 0 <= k < |parts| ==> d !in parts[k]
    decreases |s|
  {
    if d !in s then [s]
    else
      var i := IndexOf(s, d);
      [s[..i]] + Split(s[i + 1..], d)
  }

  /** Python's `d.join(parts)`. */
  function Join(parts: seq<string>, d: char): string
    requires |parts| > 0
  {
    if |parts| == 1 then parts[0] else parts[0] + [d] + Join(parts[1..], d)
  }

  lemma {:induction false} JoinSplit(s: string, d: char)
    ensures Join(Split(s, d), d) == s
    decreases |s|
  {
    if d in s {
      var i := IndexOf(s, d);
      JoinSplit(s[i + 1..], d);
      assert Split(s, d)[1..] == Split(s[i + 1..], d);
      assert s == s[..i] + [d] + s[i + 1..];
    }
  }

  /** The first segment of maximal length between sticks. */
  function LongestSegment(title: string): (part: string)
    ensures part in Split(title, Stick)
    ensures Stick !in part
    ensures forall k :: 0 <= k < |Split(title, Stick)| ==> |Split(title, Stick)[k]| <= |part|
  {
    LongestOf(Split(title, Stick))
  }

  /**
   * The corrected title normalisation: a title with a stick becomes its
   * longest stick-separated segment (the first of equal-length ones); any
   * other title is unchanged.
   */
  function NormaliseTitleBySegments(title: string): (r: string)
    ensures Stick !in r
    ensures Stick !in title ==> r == title
    ensures Stick in title ==>
      exists k :: (0 <= k < |Split(title, Stick)| && r == Split(title, Stick)[k] &&
        (forall j :: 0 <= j < |Split(title, Stick)| ==> |Split(title, Stick)[j]| <= |r|) &&
        (forall j :: 0 <= j < k ==> |Split(title, Stick)[j]| < |r|))
  {
    if Stick in title then
      var parts := Split(title, Stick);
      var k := Selection.FirstMaxIndex(Lengths(parts));
      assert forall j :: 0 <= j < k ==> |parts[j]| < |parts[k]| by {
        forall j | 0 <= j < k ensures |parts[j]| < |parts[k]| {
          assert Lengths(parts)[j] < Lengths(parts)[k];
        }
      }
      parts[k]
    else title
  }

  /** "Flood|News" splits on the stick into "Flood" and "News". */
  lemma FloodNewsSegments()
    ensures Split("Flood|News", Stick) == ["Flood", "News"]
  {
    var t := "Flood|News";
    assert t[5] == Stick;
    var i := IndexOf(t, Stick);
    assert i == 5 by {
      assert forall j :: 0 <= j < 5 ==> t[j] != Stick;
      assert forall j :: 0 <= j < i ==> t[..i][j] == t[j];
    }
    assert t[6..] == "News";
    assert Split(t[6..], Stick) == ["News"];
    assert t[..5] == "Flood";
    assert Split(t, Stick) == [t[..5]] + Split(t[6..], Stick);
  }

  /** The title reported as shortened wrongly: "Flood|News" keeps "F". */
  lemma StickTitleKeepsFirstCharacter()
    ensures NormaliseTitle("Flood|News") == "F"
    ensures NormaliseTitleBySegments("Flood|News") == "Flood"
  {
    var t := "Flood|News";
    assert Stick in t by {
      assert t[5] == Stick;
    }
    assert NormaliseTitle(t) == [t[0]];
    FloodNewsHeadline();
  }

  /** The corrected normalisation keeps the headline "Flood" of "Flood|News". */
  lemma FloodNewsHeadline()
    ensures NormaliseTitleBySegments("Flood|News") == "Flood"
  {
    var t := "Flood|News";
    assert Stick in t by {
      assert t[5] == Stick;
    }
    FloodNewsSegments();
    var parts := Split(t, Stick);
    var r := NormaliseTitleBySegments(t);
    assert |parts[0]| == 5 && |parts[1]| == 4;
    assert |r| >= 5;
  }
}
