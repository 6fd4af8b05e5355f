/**
 * The first-maximum selector behind `title_parts_len.index(max(...))` in the
 * title normalisation (create_silver_label.py:150): `list.index` finds the
 * first of several equal maxima.
 */
module Selection {

  function FirstMaxIndex(xs: seq<int>): (i: nat)
    requires |xs| > 0
    ensures i < |xs|
    ensures forall j :: 0 <= j < |xs| ==> xs[j] <= xs[i]
    ensures forall j :: 0 <= j < i ==> xs[j] < xs[i]
  {
    if |xs| == 1 then 0
    else
      var k := FirstMaxIndex(xs[..|xs| - 1]);
      if xs[|xs| - 1] > xs[k] then |xs| - 1 else k
  }
}
