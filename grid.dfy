/** `GeoJson._1d_to_2d`: cutting a flat (row-major) array into rows of length x. */
module Grid {

  import opened Wrappers
  import Python

  /** The rows laid end to end. */
  function Flatten(rows: seq<seq<real>>): seq<real>
  {
    if |rows| == 0 then [] else Flatten(rows[..|rows| - 1]) + rows[|rows| - 1]
  }

  /** The rows the source builds: `data[i:i+x]` for each `i` in `range(0, x*y, x)`. */
  function RowsOf(data: seq<real>, x: int, y: int): (rows: seq<seq<real>>)
    requires x != 0
    ensures |rows| == |Python.RangeValues(0, x * y, x)|
  {
    var starts := Python.RangeValues(0, x * y, x);
    seq(|starts|, k requires 0 <= k < |starts| => Python.Slice(data, starts[k], starts[k] + x))
  }

  /** `_1d_to_2d(data, x, y)`. `None` is the ValueError `range` raises for `x == 0`;
      the rows are returned as a list, so only `range`'s error is modelled.
      For a positive x the result has `max(y, 0)` rows; row k is `data[k*x:(k+1)*x]`
      cut short at the end of the data, and the rows laid end to end are the first
      `x*y` values of the data, or all of them if there are fewer. */
  method OneDToTwoD(data: seq<real>, x: int, y: int) returns (grid: Option<seq<seq<real>>>)
    ensures grid.None? <==> x == 0
    ensures x != 0 ==> grid.value == RowsOf(data, x, y)
    ensures x > 0 ==>
      && |grid.value| == (if y > 0 then y else 0)
      && (forall k :: 0 <= k < |grid.value| ==> grid.value[k] == Python.Slice(data, k * x, (k + 1) * x))
      && Flatten(grid.value) == Python.Slice(data, 0, |grid.value| * x)
    ensures x > 0 && y > 0 && |data| >= x * y ==>
      && |grid.value| == y
      && (forall k :: 0 <= k < y ==> |grid.value[k]| == x && grid.value[k] == Python.Slice(data, k * x, (k + 1) * x))
      && |Flatten(grid.value)| == x * y
      && Flatten(grid.value) == Python.Slice(data, 0, x * y)
  {
    if x == 0 {
      return None;
    }
    var starts := Python.RangeValues(0, x * y, x);
    var data2d: seq<seq<real>> := [];
    for k := 0 to |starts|
      invariant |data2d| == k
      invariant forall j :: 0 <= j < k ==> data2d[j] == Python.Slice(data, starts[j], starts[j] + x)
    {
      var i := starts[k];
      data2d := data2d + [Python.Slice(data, i, i + x)];
    }
    assert data2d == RowsOf(data, x, y);
    if x > 0 {
      PositiveRows(data, x, y);
      if y > 0 && |data| >= x * y {
        FullRows(data, x, y);
      }
    }
    grid := Some(data2d);
  }

  /** Row k of the grid is the slice `data[k*x:(k+1)*x]`. */
  lemma RowAt(data: seq<real>, x: int, k: nat)
    requires x > 0
    ensures Python.Min(k * x, |data|) <= Python.Min((k + 1) * x, |data|)
    ensures Python.Slice(data, k * x, k * x + x) == Python.Slice(data, k * x, (k + 1) * x)
    ensures Python.Slice(data, k * x, (k + 1) * x)
         == data[Python.Min(k * x, |data|)..Python.Min((k + 1) * x, |data|)]
  {
    Python.MulNonNegative(k, x);
    Python.MulSucc(k, x);
  }

  lemma {:induction false} FlattenPrefix(data: seq<real>, x: int, rows: seq<seq<real>>, m: nat)
    requires x > 0
    requires m <= |rows|
    requires forall k :: 0 <= k < |rows| ==> rows[k] == Python.Slice(data, k * x, (k + 1) * x)
    ensures Flatten(rows[..m]) == data[..Python.Min(m * x, |data|)]
  {
    if m > 0 {
      FlattenPrefix(data, x, rows, m - 1);
      assert rows[..m][..m - 1] == rows[..m - 1];
      RowAt(data, x, m - 1);
      assert m - 1 + 1 == m;
      assert Flatten(rows[..m]) == Flatten(rows[..m - 1]) + rows[m - 1];
    } else {
      assert rows[..0] == [];
    }
  }

  /** With a positive x: `max(y, 0)` rows, row k the slice `data[k*x:(k+1)*x]`, and the
      rows laid end to end the slice `data[:len(rows)*x]`. */
  lemma PositiveRows(data: seq<real>, x: int, y: int)
    requires x > 0
    ensures var rows := RowsOf(data, x, y);
      && |rows| == (if y > 0 then y else 0)
      && (forall k :: 0 <= k < |rows| ==> rows[k] == Python.Slice(data, k * x, (k + 1) * x))
      && Flatten(rows) == Python.Slice(data, 0, |rows| * x)
  {
    var rows := RowsOf(data, x, y);
    var starts := Python.RangeValues(0, x * y, x);
    Python.RowStarts(x, y);
    forall k | 0 <= k < |rows| ensures rows[k] == Python.Slice(data, k * x, (k + 1) * x) {
      assert starts[k] == k * x;
      RowAt(data, x, k);
    }
    FlattenPrefix(data, x, rows, |rows|);
    assert rows[..|rows|] == rows;
    Python.MulNonNegative(|rows|, x);
  }

  /** When the data holds all `x * y` values, every row is a full row of x values and
      the rows laid end to end are exactly `data[:x*y]`. */
  lemma FullRows(data: seq<real>, x: int, y: int)
    requires x > 0 && y > 0 && |data| >= x * y
    ensures var rows := RowsOf(data, x, y);
      && |rows| == y
      && (forall k :: 0 <= k < y ==> |rows[k]| == x && rows[k] == Python.Slice(data, k * x, (k + 1) * x))
      && |Flatten(rows)| == x * y
      && Flatten(rows) == Python.Slice(data, 0, x * y)
  {
    var rows := RowsOf(data, x, y);
    PositiveRows(data, x, y);
    forall k | 0 <= k < y ensures |rows[k]| == x {
      FullRow(data, x, y, k);
    }
    assert |rows| * x == x * y;
    Python.MulNonNegative(x, y);
  }

  lemma FullRow(data: seq<real>, x: int, y: int, k: nat)
    requires x > 0 && k < y && |data| >= x * y
    ensures |Python.Slice(data, k * x, (k + 1) * x)| == x
  {
    Python.MulLessEq(k + 1, y, x);
    Python.MulNonNegative(k, x);
    Python.MulSucc(k, x);
  }
}
