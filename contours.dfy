/** The list of contour levels `convert` hands to the contouring routine. The
    source scales the value range and the contour interval by ten, truncates them
    to ints and takes `range(min10, max10, ci10)`; levels are kept here in those
    integer tenths. */
module Contours {

  import opened Wrappers
  import Python

  /** The contour levels, in tenths, for range `[min10, max10)` and interval `ci10`.
      `None` is the ValueError Python's `range` raises for a zero interval. */
  function Levels(min10: int, max10: int, ci10: int): (r: Option<seq<int>>)
    ensures r.None? <==> ci10 == 0
  {
    if ci10 == 0 then None else Some(Python.RangeValues(min10, max10, ci10))
  }

  /** With a positive interval the levels start at min10, climb by ci10, stay strictly
      below max10, are empty exactly when min10 >= max10, and leave out no value of
      the grid `min10 + k * ci10` that lies below max10. */
  lemma AscendingLevels(min10: int, max10: int, ci10: int)
    requires ci10 > 0
    ensures Levels(min10, max10, ci10).Some?
    ensures var r := Levels(min10, max10, ci10).value;
      && (forall k :: 0 <= k < |r| ==> r[k] == min10 + k * ci10)
      && (forall k :: 0 <= k < |r| ==> r[k] < max10)
      && (|r| == 0 <==> min10 >= max10)
      && min10 + |r| * ci10 >= max10
      && (forall v :: v in r <==> min10 <= v < max10 && (v - min10) % ci10 == 0)
  {
    var r := Python.RangeValues(min10, max10, ci10);
    Python.RangeValuesElements(min10, max10, ci10);
    Python.AscendingRangeBounds(min10, max10, ci10);
    AscendingMembers(min10, max10, ci10);
    forall k | 0 <= k < |r| ensures r[k] < max10 {
      Python.MulLessEq(k, |r| - 1, ci10);
    }
  }

  /** With a negative interval the levels count down from min10 and stay strictly
      above max10; they are empty exactly when min10 <= max10. */
  lemma DescendingLevels(min10: int, max10: int, ci10: int)
    requires ci10 < 0
    ensures Levels(min10, max10, ci10).Some?
    ensures var r := Levels(min10, max10, ci10).value;
      && (forall k :: 0 <= k < |r| ==> r[k] == min10 + k * ci10)
      && (forall k :: 0 <= k < |r| ==> r[k] > max10)
      && (|r| == 0 <==> min10 <= max10)
      && min10 + |r| * ci10 <= max10
  {
    var r := Python.RangeValues(min10, max10, ci10);
    Python.RangeValuesElements(min10, max10, ci10);
    Python.DescendingRangeBounds(min10, max10, ci10);
    forall k | 0 <= k < |r| ensures r[k] > max10 {
      assert (|r| - 1) * ci10 - k * ci10 == (|r| - 1 - k) * ci10;
      Python.MulLessEq(0, |r| - 1 - k, -ci10);
      assert (|r| - 1 - k) * (-ci10) == -((|r| - 1 - k) * ci10);
    }
  }

  lemma AscendingMembers(min10: int, max10: int, ci10: int)
    requires ci10 > 0
    ensures forall v :: v in Python.RangeValues(min10, max10, ci10) <==> min10 <= v < max10 && (v - min10) % ci10 == 0
  {
    forall v {
      Python.AscendingRangeMembers(min10, max10, ci10, v);
    }
  }

  /** Levels strictly ascend, one interval apart. */
  lemma LevelsAscending(min10: int, max10: int, ci10: int, k: nat)
    requires ci10 > 0
    requires Levels(min10, max10, ci10).Some?
    requires k + 1 < |Levels(min10, max10, ci10).value|
    ensures var r := Levels(min10, max10, ci10).value;
      r[k] < r[k + 1] && r[k + 1] - r[k] == ci10
  {
    var r := Levels(min10, max10, ci10).value;
    AscendingLevels(min10, max10, ci10);
    assert r[k] == min10 + k * ci10;
    assert r[k + 1] == min10 + (k + 1) * ci10;
    assert (k + 1) * ci10 == k * ci10 + ci10;
  }
}
