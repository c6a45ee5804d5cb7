/**
 * The step-by-step parts of one simplex iteration in project/app.py: the
 * ratio loop and its fallback, `perform_pivot_operations` on a deep copy of
 * the tableau, and the solution step that ties them together. Each method is
 * proved to compute what the functions of SimplexTableau specify.
 */
module PivotEngine {
  import opened Wrappers
  import opened NumberFormat
  import opened SimplexTableau

  /**
   * The loop of project/app.py:378-387: for rows 0 and 1, append
   * `rhs / entry` when the pivot-column entry is positive, `None` otherwise.
   */
  method ComputeRatios(t: Tableau, c: nat) returns (ratios: seq<Option<real>>)
    requires WellFormed(t) && IsVariableColumn(c)
    ensures ratios == Ratios(t, c)
  {
    ratios := [];
    var i: nat := 0;
    while i < 2
      invariant i <= 2
      invariant |ratios| == i
      invariant forall k :: 0 <= k < i ==> ratios[k] == RatioAt(t, c, k)
    {
      var rhs := Cell(t, i, RhsColumn);
      var entry := Cell(t, i, c);
      if entry > 0.0 {
        ratios := ratios + [Some(rhs / entry)];
      } else {
        ratios := ratios + [None];
      }
      i := i + 1;
    }
  }

  /**
   * The ratio test of project/app.py:377-402: the ratios, the row with the
   * least ratio (lowest index on a tie) and its pivot-column entry `k`. When
   * no ratio exists, a second loop looks for a row with a positive entry; it
   * tests the same condition as the ratio loop, so it never finds one.
   */
  method RatioTest(t: Tableau, c: nat) returns (ratios: seq<Option<real>>, pivotRow: Option<nat>, k: Option<real>)
    requires WellFormed(t) && IsVariableColumn(c)
    ensures ratios == Ratios(t, c)
    ensures pivotRow == MinRatioIndex(Ratios(t, c))
    ensures pivotRow.Some? ==> pivotRow.value < 2 && k == Some(Cell(t, pivotRow.value, c)) && k.value > 0.0
    ensures pivotRow.None? ==> k.None? && Cell(t, 0, c) <= 0.0 && Cell(t, 1, c) <= 0.0
  {
    ratios := ComputeRatios(t, c);
    var best := MinRatioIndex(ratios);
    if best.Some? {
      pivotRow := best;
      k := Some(Cell(t, best.value, c));
    } else {
      assert ratios[0].None? && ratios[1].None?;
      pivotRow := None;
      k := None;
      var i: nat := 0;
      while i < 2
        invariant i <= 2
        invariant pivotRow.None? && k.None?
      {
        var v := Cell(t, i, c);
        if v > 0.0 {
          pivotRow := Some(i);
          k := Some(v);
          break;
        }
        i := i + 1;
      }
    }
  }

  /** The cells of row i of a 3-by-5 array. */
  function RowCells(a: array2<real>, i: nat): (cells: seq<real>)
    requires a.Length0 == 3 && a.Length1 == Columns && i < 3
    reads a
    ensures |cells| == Columns && forall j :: 0 <= j < Columns ==> cells[j] == a[i, j]
  {
    [a[i, 0], a[i, 1], a[i, 2], a[i, 3], a[i, 4]]
  }

  /** Row i of the array holds exactly `cells`. */
  ghost predicate RowHolds(a: array2<real>, i: nat, cells: seq<real>)
    requires a.Length0 == 3 && a.Length1 == Columns && i < 3
    reads a
  {
    |cells| == Columns && forall j :: 0 <= j < Columns ==> a[i, j] == cells[j]
  }

  /** The cells of `t` copied into a fresh array: `copy.deepcopy(tableau)`. */
  method CopyCells(t: Tableau) returns (a: array2<real>)
    requires WellFormed(t)
    ensures fresh(a) && a.Length0 == 3 && a.Length1 == Columns
    ensures forall i :: 0 <= i < 3 ==> RowHolds(a, i, t[i].cells)
  {
    a := new real[3, Columns];
    var i: nat := 0;
    while i < 3
      invariant i <= 3
      invariant forall k :: 0 <= k < i ==> RowHolds(a, k, t[k].cells)
    {
      var j: nat := 0;
      while j < Columns
        invariant j <= Columns
        invariant forall k :: 0 <= k < i ==> RowHolds(a, k, t[k].cells)
        invariant forall m :: 0 <= m < j ==> a[i, m] == t[i].cells[m]
      {
        a[i, j] := t[i].cells[j];
        j := j + 1;
      }
      i := i + 1;
    }
  }

  /**
   * The loop of project/app.py:175-179: each cell of the pivot row is
   * replaced by the stored form of itself divided by the pivot `p`.
   */
  method NormalizePivotRow(a: array2<real>, t: Tableau, r: nat, c: nat)
    requires WellFormed(t) && r < 3 && IsVariableColumn(c) && Cell(t, r, c) != 0.0
    requires a.Length0 == 3 && a.Length1 == Columns
    requires RowHolds(a, r, t[r].cells)
    modifies a
    ensures RowHolds(a, r, NormalizedRow(t, r, c))
    ensures forall i, j :: 0 <= i < 3 && i != r && 0 <= j < Columns ==> a[i, j] == old(a[i, j])
  {
    var p := Cell(t, r, c);
    var j: nat := 0;
    while j < Columns
      invariant j <= Columns
      invariant forall m :: 0 <= m < j ==> a[r, m] == NormalizedRow(t, r, c)[m]
      invariant forall m :: j <= m < Columns ==> a[r, m] == t[r].cells[m]
      invariant forall i, m :: 0 <= i < 3 && i != r && 0 <= m < Columns ==> a[i, m] == old(a[i, m])
    {
      NormalizedCell(t, r, c, j);
      a[r, j] := Round(a[r, j] / p);
      j := j + 1;
    }
  }

  /**
   * The inner loop of project/app.py:182-193 for one row i: its pivot-column
   * entry is read once, then each cell loses that entry times the
   * normalised pivot-row cell and is stored.
   */
  method EliminateRow(a: array2<real>, t: Tableau, i: nat, r: nat, c: nat)
    requires WellFormed(t) && i < 3 && r < 3 && i != r && IsVariableColumn(c) && Cell(t, r, c) != 0.0
    requires a.Length0 == 3 && a.Length1 == Columns
    requires RowHolds(a, r, NormalizedRow(t, r, c)) && RowHolds(a, i, t[i].cells)
    modifies a
    ensures RowHolds(a, i, EliminatedRow(t, i, r, c))
    ensures forall k, j :: 0 <= k < 3 && k != i && 0 <= j < Columns ==> a[k, j] == old(a[k, j])
  {
    var other := a[i, c - 1];
    var j: nat := 0;
    while j < Columns
      invariant j <= Columns
      invariant other == Cell(t, i, c)
      invariant forall m :: 0 <= m < j ==> a[i, m] == EliminatedRow(t, i, r, c)[m]
      invariant forall m :: j <= m < Columns ==> a[i, m] == t[i].cells[m]
      invariant forall k, m :: 0 <= k < 3 && k != i && 0 <= m < Columns ==> a[k, m] == old(a[k, m])
    {
      EliminatedCell(t, i, r, c, j);
      a[i, j] := Round(Eliminate(a[i, j], a[r, j], other));
      j := j + 1;
    }
  }

  /** A normalised cell is the stored quotient of the old cell by the pivot. */
  lemma NormalizedCell(t: Tableau, r: nat, c: nat, j: nat)
    requires WellFormed(t) && r < 3 && IsVariableColumn(c) && Cell(t, r, c) != 0.0 && j < Columns
    ensures NormalizedRow(t, r, c)[j] == Round(t[r].cells[j] / Cell(t, r, c))
  {
  }

  /** An eliminated cell is the stored difference of the old cell and the scaled pivot-row cell. */
  lemma EliminatedCell(t: Tableau, i: nat, r: nat, c: nat, j: nat)
    requires WellFormed(t) && i < 3 && r < 3 && IsVariableColumn(c) && Cell(t, r, c) != 0.0 && j < Columns
    ensures EliminatedRow(t, i, r, c)[j] == Round(Eliminate(t[i].cells[j], NormalizedRow(t, r, c)[j], Cell(t, i, c)))
  {
  }

  /**
   * `perform_pivot_operations(tableau, r, c)` (project/app.py:161-195): on a
   * deep copy, relabel row r with the entering variable, normalise it by the
   * pivot, then clear column c from the other rows. The input is not changed.
   */
  method PerformPivot(t: Tableau, r: nat, c: nat) returns (nt: Tableau)
    requires WellFormed(t) && r < 3 && IsVariableColumn(c) && Cell(t, r, c) != 0.0
    ensures nt == Pivoted(t, r, c)
  {
    var a := CopyCells(t);
    NormalizePivotRow(a, t, r, c);
    var i: nat := 0;
    while i < 3
      invariant i <= 3
      invariant RowHolds(a, r, NormalizedRow(t, r, c))
      invariant forall k :: 0 <= k < i && k != r ==> RowHolds(a, k, EliminatedRow(t, k, r, c))
      invariant forall k :: i <= k < 3 && k != r ==> RowHolds(a, k, t[k].cells)
    {
      if i != r {
        EliminateRow(a, t, i, r, c);
      }
      i := i + 1;
    }
    assert forall k :: 0 <= k < 3 ==> RowHolds(a, k, PivotedRow(t, r, c, k).cells);
    nt := ReadPivoted(a, t, r, c);
  }

  /** Row i of the array, read back, is the row it holds. */
  lemma RowCellsHold(a: array2<real>, i: nat, cells: seq<real>)
    requires a.Length0 == 3 && a.Length1 == Columns && i < 3
    requires RowHolds(a, i, cells)
    ensures RowCells(a, i) == cells
  {
    SameRow(RowCells(a, i), cells);
  }

  /** Row k after the pivot: relabelled and normalised for the pivot row, eliminated elsewhere. */
  function PivotedRow(t: Tableau, r: nat, c: nat, k: nat): Row
    requires WellFormed(t) && r < 3 && k < 3 && IsVariableColumn(c) && Cell(t, r, c) != 0.0
  {
    if k == r then Row(ColumnName(c), NormalizedRow(t, r, c)) else Row(t[k].basic, EliminatedRow(t, k, r, c))
  }

  /** The pivoted tableau, row by row. */
  lemma PivotedRows(t: Tableau, r: nat, c: nat)
    requires WellFormed(t) && r < 3 && IsVariableColumn(c) && Cell(t, r, c) != 0.0
    ensures Pivoted(t, r, c) == [PivotedRow(t, r, c, 0), PivotedRow(t, r, c, 1), PivotedRow(t, r, c, 2)]
  {
  }

  /**
   * The rows of the pivoted array, with row r relabelled by the entering
   * variable, as the tableau `perform_pivot_operations` returns.
   */
  method ReadPivoted(a: array2<real>, t: Tableau, r: nat, c: nat) returns (nt: Tableau)
    requires WellFormed(t) && r < 3 && IsVariableColumn(c) && Cell(t, r, c) != 0.0
    requires a.Length0 == 3 && a.Length1 == Columns
    requires forall k :: 0 <= k < 3 ==> RowHolds(a, k, PivotedRow(t, r, c, k).cells)
    ensures nt == Pivoted(t, r, c)
  {
    RowCellsHold(a, 0, PivotedRow(t, r, c, 0).cells);
    RowCellsHold(a, 1, PivotedRow(t, r, c, 1).cells);
    RowCellsHold(a, 2, PivotedRow(t, r, c, 2).cells);
    var labels := [t[0].basic, t[1].basic, t[2].basic][r := ColumnName(c)];
    nt := [Row(labels[0], RowCells(a, 0)), Row(labels[1], RowCells(a, 1)), Row(labels[2], RowCells(a, 2))];
    PivotedRows(t, r, c);
  }

  /**
   * The solution step of project/app.py:445-479: the pivot column, the
   * ratio test, the fallback to row 0 when no row has a ratio, the
   * zero-pivot guard and the pivot, followed by `check_negative_in_z_row`
   * on the result.
   */
  method SolutionStep(t: Tableau) returns (res: Result<StepResult, string>)
    requires WellFormed(t)
    ensures res == SolveStep(t)
  {
    var c := PivotColumn(t);
    var ratios, pivotRow, k := RatioTest(t, c);
    if pivotRow.None? {
      var localRatios := ComputeRatios(t, c);
      var best := MinRatioIndex(localRatios);
      if best.Some? {
        pivotRow := best;
      } else {
        pivotRow := Some(0);
      }
    }
    var r := pivotRow.value;
    var pivot := Cell(t, r, c);
    if pivot == 0.0 {
      res := Failure(ZeroPivotError);
    } else {
      var nt := PerformPivot(t, r, c);
      res := Success(StepResult(nt, HasNegativeInZ(nt)));
    }
  }
}
