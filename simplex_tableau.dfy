/**
 * The simplex tableau of project/app.py and the rules of one iteration, as
 * functions on values: the initial tableau, the choice of the pivot column
 * and of the pivot row, the Gauss-Jordan step, and the "negative in z"
 * test. Every cell holds the value read back from its stored text, so each
 * cell the pivot writes is `Round` of the exact result.
 */
module SimplexTableau {
  import opened Wrappers
  import opened NumberFormat

  /** The basic-variable column: the slacks and z at first, x or y after a pivot. */
  datatype Label = S1 | S2 | Z | X | Y

  /** One tableau row: its label and the cells of columns x, y, S1, S2, RHS. */
  datatype Row = Row(basic: Label, cells: seq<real>)

  /** Rows S1, S2 and z, in that order; rows are never reordered. */
  type Tableau = seq<Row>

  /** Number of columns after the label: x, y, S1, S2 and RHS. */
  const Columns: nat := 5

  /** The column holding the right-hand side. */
  const RhsColumn: nat := 5

  /** The row of the objective. */
  const ZRow: nat := 2

  predicate WellFormed(t: Tableau) {
    |t| == 3 && forall i :: 0 <= i < |t| ==> |t[i].cells| == Columns
  }

  /** The cell of row i in column j, with columns numbered 1 (x) to 5 (RHS) as in the source. */
  function Cell(t: Tableau, i: nat, j: nat): real
    requires WellFormed(t) && i < 3 && 1 <= j <= Columns
  {
    t[i].cells[j - 1]
  }

  /** A column a pivot can choose: x, y, S1 or S2. */
  predicate IsVariableColumn(c: nat) {
    1 <= c <= 4
  }

  /** `column_names[pivot_col]`: the variable that enters the basis. */
  function ColumnName(c: nat): (l: Label)
    requires IsVariableColumn(c)
    ensures l != Z && BasisColumn(l) == c
  {
    if c == 1 then X else if c == 2 then Y else if c == 3 then S1 else S2
  }

  /** The column of a basic variable. */
  function BasisColumn(l: Label): (c: nat)
    requires l != Z
    ensures IsVariableColumn(c)
  {
    match l
    case X => 1
    case Y => 2
    case S1 => 3
    case S2 => 4
  }

  /**
   * The tableau of project/app.py:352-356: `[S1 | a1, b1, 1, 0, rhs1]`,
   * `[S2 | a2, b2, 0, 1, rhs2]`, `[z | -c1, -c2, 0, 0, 0]`.
   */
  function InitialTableau(a1: int, b1: int, rhs1: int, a2: int, b2: int, rhs2: int, c1: int, c2: int): (t: Tableau)
    ensures WellFormed(t)
  {
    [ Row(S1, [a1 as real, b1 as real, 1.0, 0.0, rhs1 as real]),
      Row(S2, [a2 as real, b2 as real, 0.0, 1.0, rhs2 as real]),
      Row(Z, [-c1 as real, -c2 as real, 0.0, 0.0, 0.0]) ]
  }

  /** The basis invariant: each constraint row's variable has a unit column, and z stays last. */
  predicate Canonical(t: Tableau) {
    && WellFormed(t)
    && t[ZRow].basic == Z && t[0].basic != Z && t[1].basic != Z
    && t[0].basic != t[1].basic
    && forall i, k :: 0 <= i < 2 && 0 <= k < 3 ==>
         Cell(t, k, BasisColumn(t[i].basic)) == (if k == i then 1.0 else 0.0)
  }

  /** The initial tableau is in canonical form with basis S1, S2. */
  lemma InitialCanonical(a1: int, b1: int, rhs1: int, a2: int, b2: int, rhs2: int, c1: int, c2: int)
    ensures Canonical(InitialTableau(a1, b1, rhs1, a2, b2, rhs2, c1, c2))
  {
  }

  /** The z-row cells of columns x, y, S1 and S2: `tableau[-1][1:-1]`. */
  function ZCells(t: Tableau): (z: seq<real>)
    requires WellFormed(t)
    ensures |z| == 4 && forall j :: 1 <= j <= 4 ==> z[j - 1] == Cell(t, ZRow, j)
  {
    t[ZRow].cells[..4]
  }

  /** `s.index(min(s))`: the first position holding the least value. */
  function FirstArgMin(s: seq<real>): (k: nat)
    requires |s| > 0
    ensures k < |s|
    ensures forall j :: 0 <= j < |s| ==> s[k] <= s[j]
    ensures forall j :: 0 <= j < k ==> s[k] < s[j]
  {
    if |s| == 1 then 0
    else
      var k := FirstArgMin(s[..|s| - 1]);
      assert forall j :: 0 <= j < |s| - 1 ==> s[..|s| - 1][j] == s[j];
      if s[|s| - 1] < s[k] then |s| - 1 else k
  }

  /**
   * The pivot column of project/app.py:363-368: the lowest column among x, y,
   * S1, S2 holding the least z-row value, taken even when that value is not
   * negative.
   */
  function PivotColumn(t: Tableau): (c: nat)
    requires WellFormed(t)
    ensures IsVariableColumn(c)
    ensures forall j :: IsVariableColumn(j) ==> Cell(t, ZRow, c) <= Cell(t, ZRow, j)
    ensures forall j :: 1 <= j < c ==> Cell(t, ZRow, c) < Cell(t, ZRow, j)
  {
    var k := FirstArgMin(ZCells(t));
    FirstMinimumColumn(t, k);
    k + 1
  }

  /** The first least z-row cell, read back as a column number. */
  lemma FirstMinimumColumn(t: Tableau, k: nat)
    requires WellFormed(t) && k == FirstArgMin(ZCells(t))
    ensures forall j :: IsVariableColumn(j) ==> Cell(t, ZRow, k + 1) <= Cell(t, ZRow, j)
    ensures forall j :: 1 <= j < k + 1 ==> Cell(t, ZRow, k + 1) < Cell(t, ZRow, j)
  {
    var z := ZCells(t);
    var c := k + 1;
    forall j | IsVariableColumn(j)
      ensures Cell(t, ZRow, c) <= Cell(t, ZRow, j)
    {
      assert z[j - 1] == Cell(t, ZRow, j);
    }
    forall j | 1 <= j < c
      ensures Cell(t, ZRow, c) < Cell(t, ZRow, j)
    {
      assert z[j - 1] == Cell(t, ZRow, j);
    }
  }

  /** `any(v < 0 for v in s)` */
  function AnyNegative(s: seq<real>): (b: bool)
    ensures b <==> exists j :: 0 <= j < |s| && s[j] < 0.0
  {
    if |s| == 0 then false
    else
      assert forall j :: 0 < j < |s| ==> s[1..][j - 1] == s[j];
      s[0] < 0.0 || AnyNegative(s[1..])
  }

  /** `check_negative_in_z_row`: some z-row cell of x, y, S1 or S2 is negative. */
  function HasNegativeInZ(t: Tableau): (b: bool)
    requires WellFormed(t)
    ensures b <==> exists j :: IsVariableColumn(j) && Cell(t, ZRow, j) < 0.0
  {
    var z := ZCells(t);
    assert forall j :: 0 <= j < 4 ==> z[j] == Cell(t, ZRow, j + 1);
    AnyNegative(z)
  }

  /** Another iteration is offered exactly when the chosen pivot column is negative in z. */
  lemma NegativeIffPivotColumnNegative(t: Tableau)
    requires WellFormed(t)
    ensures HasNegativeInZ(t) <==> Cell(t, ZRow, PivotColumn(t)) < 0.0
  {
  }

  /** The ratio of row i: `rhs / entry` only when the pivot-column entry is positive. */
  function RatioAt(t: Tableau, c: nat, i: nat): (r: Option<real>)
    requires WellFormed(t) && IsVariableColumn(c) && i < 2
    ensures r.Some? <==> Cell(t, i, c) > 0.0
    ensures r.Some? ==> r.value * Cell(t, i, c) == Cell(t, i, RhsColumn)
  {
    if Cell(t, i, c) > 0.0 then Some(Cell(t, i, RhsColumn) / Cell(t, i, c)) else None
  }

  /** `ratio_values` of project/app.py:377-387, for rows 0 and 1. */
  function Ratios(t: Tableau, c: nat): (rs: seq<Option<real>>)
    requires WellFormed(t) && IsVariableColumn(c)
    ensures |rs| == 2 && forall i :: 0 <= i < 2 ==> rs[i] == RatioAt(t, c, i)
  {
    [RatioAt(t, c, 0), RatioAt(t, c, 1)]
  }

  /**
   * `min(positives, key=lambda t: t[1])[0]`: the index of the least ratio
   * present, the lowest index winning ties; `None` when no ratio is present.
   */
  function MinRatioIndex(rs: seq<Option<real>>): (r: Option<nat>)
    ensures r.Some? ==> r.value < |rs| && rs[r.value].Some?
    ensures r.Some? ==> forall j :: 0 <= j < |rs| && rs[j].Some? ==> rs[r.value].value <= rs[j].value
    ensures r.Some? ==> forall j :: 0 <= j < r.value && rs[j].Some? ==> rs[r.value].value < rs[j].value
    ensures r.None? <==> forall j :: 0 <= j < |rs| ==> rs[j].None?
  {
    if |rs| == 0 then None
    else
      var init := rs[..|rs| - 1];
      var best := MinRatioIndex(init);
      assert forall j :: 0 <= j < |rs| - 1 ==> init[j] == rs[j];
      var last := rs[|rs| - 1];
      if last.None? then best
      else if best.None? || last.value < rs[best.value].value then Some(|rs| - 1)
      else best
  }

  /**
   * The row the solution step pivots on (project/app.py:445-460): the
   * min-ratio row, or row 0 when no row has a positive pivot-column entry.
   */
  function SolutionRow(t: Tableau, c: nat): (r: nat)
    requires WellFormed(t) && IsVariableColumn(c)
    ensures r < 2
    ensures Cell(t, r, c) > 0.0 || (r == 0 && Cell(t, 0, c) <= 0.0 && Cell(t, 1, c) <= 0.0)
  {
    match MinRatioIndex(Ratios(t, c))
    case Some(i) => i
    case None => 0
  }

  /** The chosen row has a positive entry, unless no row has one and row 0 is taken. */
  lemma SolutionRowChoice(t: Tableau, c: nat)
    requires WellFormed(t) && IsVariableColumn(c)
    ensures var r := SolutionRow(t, c);
      || (Cell(t, r, c) > 0.0 && forall i :: 0 <= i < 2 && Cell(t, i, c) > 0.0 ==>
            Cell(t, r, RhsColumn) / Cell(t, r, c) <= Cell(t, i, RhsColumn) / Cell(t, i, c))
      || (r == 0 && Cell(t, 0, c) <= 0.0 && Cell(t, 1, c) <= 0.0)
  {
    var rs := Ratios(t, c);
    var m := MinRatioIndex(rs);
    if m.Some? {
      forall i | 0 <= i < 2 && Cell(t, i, c) > 0.0
        ensures Cell(t, m.value, RhsColumn) / Cell(t, m.value, c) <= Cell(t, i, RhsColumn) / Cell(t, i, c)
      {
        assert rs[i].Some?;
      }
    } else {
      assert rs[0].None? && rs[1].None?;
    }
  }

  /** The pivot row divided by the pivot, each cell stored and read back. */
  function NormalizedRow(t: Tableau, r: nat, c: nat): (row: seq<real>)
    requires WellFormed(t) && r < 3 && IsVariableColumn(c) && Cell(t, r, c) != 0.0
    ensures |row| == Columns
  {
    seq(Columns, j requires 0 <= j < Columns => Round(t[r].cells[j] / Cell(t, r, c)))
  }

  /** A cell of row i after subtracting `factor` times the normalised pivot-row cell `norm`. */
  function Eliminate(cell: real, norm: real, factor: real): real {
    cell - norm * factor
  }

  /**
   * Row i minus the normalised pivot row times row i's own pivot-column
   * entry, each cell stored and read back.
   */
  function EliminatedRow(t: Tableau, i: nat, r: nat, c: nat): (row: seq<real>)
    requires WellFormed(t) && i < 3 && r < 3 && IsVariableColumn(c) && Cell(t, r, c) != 0.0
    ensures |row| == Columns
  {
    var norm := NormalizedRow(t, r, c);
    seq(Columns, j requires 0 <= j < Columns => Round(Eliminate(t[i].cells[j], norm[j], Cell(t, i, c))))
  }

  /** The pivot cell is normalised to 1, and elimination stores 0 in the pivot column of every row. */
  lemma PivotColumnCells(t: Tableau, r: nat, c: nat)
    requires WellFormed(t) && r < 3 && IsVariableColumn(c) && Cell(t, r, c) != 0.0
    ensures NormalizedRow(t, r, c)[c - 1] == 1.0
    ensures forall i :: 0 <= i < 3 ==> EliminatedRow(t, i, r, c)[c - 1] == 0.0
  {
    var p := Cell(t, r, c);
    RoundIntegral(1.0);
    RoundIntegral(0.0);
    assert p / p == 1.0;
    assert NormalizedRow(t, r, c)[c - 1] == 1.0;
    forall i | 0 <= i < 3
      ensures EliminatedRow(t, i, r, c)[c - 1] == 0.0
    {
      var f := Cell(t, i, c);
      assert EliminatedRow(t, i, r, c)[c - 1] == Round(Eliminate(f, 1.0, f));
    }
  }

  /** `perform_pivot_operations(t, r, c)`: relabel row r, normalise it, eliminate column c elsewhere. */
  function Pivoted(t: Tableau, r: nat, c: nat): (nt: Tableau)
    requires WellFormed(t) && r < 3 && IsVariableColumn(c) && Cell(t, r, c) != 0.0
    ensures WellFormed(nt)
    ensures Cell(nt, r, c) == 1.0 && forall i :: 0 <= i < 3 && i != r ==> Cell(nt, i, c) == 0.0
    ensures nt[r].basic == ColumnName(c) && forall i :: 0 <= i < 3 && i != r ==> nt[i].basic == t[i].basic
  {
    PivotColumnCells(t, r, c);
    seq(3, i requires 0 <= i < 3 =>
      if i == r then Row(ColumnName(c), NormalizedRow(t, r, c))
      else Row(t[i].basic, EliminatedRow(t, i, r, c)))
  }

  /** A pivot on a non-zero entry of a constraint row keeps the tableau canonical. */
  lemma PivotPreservesCanonical(t: Tableau, r: nat, c: nat)
    requires Canonical(t) && r < 2 && IsVariableColumn(c) && Cell(t, r, c) != 0.0
    ensures Canonical(Pivoted(t, r, c))
  {
    var nt := Pivoted(t, r, c);
    var o := 1 - r;
    var b := BasisColumn(t[o].basic);
    assert Cell(t, r, b) == 0.0;
    RoundIntegral(1.0);
    RoundIntegral(0.0);
    var p := Cell(t, r, c);
    assert NormalizedRow(t, r, c)[b - 1] == Round(0.0 / p);
    assert nt[o].basic == t[o].basic;
    forall k | 0 <= k < 3
      ensures Cell(nt, k, b) == (if k == o then 1.0 else 0.0)
    {
      if k != r {
        var f := Cell(t, k, c);
        assert EliminatedRow(t, k, r, c)[b - 1] == Round(Eliminate(Cell(t, k, b), 0.0, f));
      }
    }
  }

  /** The tableau after the z row's pivot column comes out negative or not. */
  datatype StepResult = StepResult(tableau: Tableau, hasNegativeInZ: bool)

  /**
   * The solution step of project/app.py:445-479 and 527-528: pivot column,
   * pivot row (with its fallback), the zero-pivot guard, the pivot and the
   * negative test on its result.
   */
  function SolveStep(t: Tableau): (res: Result<StepResult, string>)
    requires WellFormed(t)
    ensures res.Failure? <==> Cell(t, SolutionRow(t, PivotColumn(t)), PivotColumn(t)) == 0.0
    ensures res.Failure? ==> res.error == ZeroPivotError
    ensures res.Success? ==> WellFormed(res.value.tableau)
  {
    var c := PivotColumn(t);
    var r := SolutionRow(t, c);
    if Cell(t, r, c) == 0.0 then Failure(ZeroPivotError)
    else
      var nt := Pivoted(t, r, c);
      Success(StepResult(nt, HasNegativeInZ(nt)))
  }

  const ZeroPivotError: string := "Pivot element is zero (cannot divide)."

  /** A successful step keeps a canonical tableau canonical and puts the entering variable in the basis. */
  lemma SolveStepPreservesCanonical(t: Tableau)
    requires Canonical(t) && SolveStep(t).Success?
    ensures var nt := SolveStep(t).value.tableau;
      var c := PivotColumn(t);
      && Canonical(nt)
      && nt[SolutionRow(t, c)].basic == ColumnName(c)
      && Cell(nt, ZRow, c) == 0.0
  {
    var c := PivotColumn(t);
    var r := SolutionRow(t, c);
    PivotPreservesCanonical(t, r, c);
  }

  /**
   * The worked example: maximise 2x + 3y subject to 2x + y <= 18 and
   * 2x + 3y <= 42. Column y enters, the ratios are 18 and 14, row 1 is
   * the pivot row, and after the step no z-row cell is negative.
   */
  lemma ExampleIteration(t: Tableau)
    requires t == InitialTableau(2, 1, 18, 2, 3, 42, 2, 3)
    ensures PivotColumn(t) == 2
    ensures Ratios(t, 2) == [Some(18.0), Some(14.0)]
    ensures SolutionRow(t, 2) == 1
    ensures SolveStep(t) == Success(StepResult(
              [ Row(S1, [4.0 / 3.0, 0.0, 1.0, -1.0 / 3.0, 4.0]),
                Row(Y, [2.0 / 3.0, 1.0, 0.0, 1.0 / 3.0, 14.0]),
                Row(Z, [0.0, 0.0, 0.0, 1.0, 42.0]) ],
              false))
  {
    ExampleChoice(t);
    ExamplePivoted(t);
    var nt := Pivoted(t, 1, 2);
    assert !HasNegativeInZ(nt) by {
      assert ZCells(nt) == [0.0, 0.0, 0.0, 1.0];
    }
  }

  /** In the example the entering column is y and the leaving row is the second constraint. */
  lemma ExampleChoice(t: Tableau)
    requires t == InitialTableau(2, 1, 18, 2, 3, 42, 2, 3)
    ensures PivotColumn(t) == 2
    ensures Ratios(t, 2) == [Some(18.0), Some(14.0)]
    ensures SolutionRow(t, 2) == 1
  {
    var z := ZCells(t);
    assert z == [-2.0, -3.0, 0.0, 0.0];
    var k := FirstArgMin(z);
    assert z[k] <= z[1];
    var rs := Ratios(t, 2);
    assert rs == [Some(18.0), Some(14.0)];
    assert MinRatioIndex(rs[..1]) == Some(0);
  }

  /** The example tableau after the pivot on row 1, column y. */
  lemma ExamplePivoted(t: Tableau)
    requires t == InitialTableau(2, 1, 18, 2, 3, 42, 2, 3)
    ensures WellFormed(t) && Cell(t, 1, 2) != 0.0
    ensures Pivoted(t, 1, 2) == [ Row(S1, [4.0 / 3.0, 0.0, 1.0, -1.0 / 3.0, 4.0]),
                                  Row(Y, [2.0 / 3.0, 1.0, 0.0, 1.0 / 3.0, 14.0]),
                                  Row(Z, [0.0, 0.0, 0.0, 1.0, 42.0]) ]
  {
    ExampleNormalized(t);
    ExampleEliminated(t);
  }

  /** A value that is a fraction with denominator at most 10 is stored exactly. */
  lemma RoundFraction(v: real, n: int, d: int)
    requires 1 <= d <= MaxDenominator && v * d as real == n as real
    ensures Round(v) == v
  {
    assert v == Ratio(n, d);
    RoundExact(n, d);
  }

  /** A normalised cell whose exact value x / p has denominator at most 10 is stored exactly. */
  lemma NormalizedExact(t: Tableau, r: nat, c: nat, j: nat, x: real, p: real, n: int, d: int)
    requires WellFormed(t) && r < 3 && IsVariableColumn(c) && Cell(t, r, c) != 0.0 && j < Columns
    requires t[r].cells[j] == x && Cell(t, r, c) == p
    requires 1 <= d <= MaxDenominator && (x / p) * d as real == n as real
    ensures NormalizedRow(t, r, c)[j] == t[r].cells[j] / Cell(t, r, c)
  {
    RoundFraction(t[r].cells[j] / Cell(t, r, c), n, d);
  }

  /** An eliminated cell whose exact value has denominator at most 10 is stored exactly. */
  lemma EliminatedExact(t: Tableau, i: nat, r: nat, c: nat, j: nat, n: int, d: int)
    requires WellFormed(t) && i < 3 && r < 3 && IsVariableColumn(c) && Cell(t, r, c) != 0.0 && j < Columns
    requires 1 <= d <= MaxDenominator
    requires Eliminate(t[i].cells[j], NormalizedRow(t, r, c)[j], Cell(t, i, c)) * d as real == n as real
    ensures EliminatedRow(t, i, r, c)[j] == Eliminate(t[i].cells[j], NormalizedRow(t, r, c)[j], Cell(t, i, c))
  {
    RoundFraction(Eliminate(t[i].cells[j], NormalizedRow(t, r, c)[j], Cell(t, i, c)), n, d);
  }

  /** Two five-cell rows with equal cells are equal. */
  lemma SameRow(a: seq<real>, b: seq<real>)
    requires |a| == Columns && |b| == Columns
    requires a[0] == b[0] && a[1] == b[1] && a[2] == b[2] && a[3] == b[3] && a[4] == b[4]
    ensures a == b
  {
    assert forall j :: 0 <= j < Columns ==> a[j] == b[j];
  }

  lemma ExampleNormalized(t: Tableau)
    requires t == InitialTableau(2, 1, 18, 2, 3, 42, 2, 3)
    ensures NormalizedRow(t, 1, 2) == [2.0 / 3.0, 1.0, 0.0, 1.0 / 3.0, 14.0]
  {
    assert Cell(t, 1, 2) == 3.0 && t[1].cells == [2.0, 3.0, 0.0, 1.0, 42.0];
    NormalizedExact(t, 1, 2, 0, 2.0, 3.0, 2, 3);
    NormalizedExact(t, 1, 2, 1, 3.0, 3.0, 1, 1);
    NormalizedExact(t, 1, 2, 2, 0.0, 3.0, 0, 1);
    NormalizedExact(t, 1, 2, 3, 1.0, 3.0, 1, 3);
    NormalizedExact(t, 1, 2, 4, 42.0, 3.0, 14, 1);
    SameRow(NormalizedRow(t, 1, 2), [2.0 / 3.0, 1.0, 0.0, 1.0 / 3.0, 14.0]);
  }

  lemma ExampleEliminated(t: Tableau)
    requires t == InitialTableau(2, 1, 18, 2, 3, 42, 2, 3)
    requires NormalizedRow(t, 1, 2) == [2.0 / 3.0, 1.0, 0.0, 1.0 / 3.0, 14.0]
    ensures EliminatedRow(t, 0, 1, 2) == [4.0 / 3.0, 0.0, 1.0, -1.0 / 3.0, 4.0]
    ensures EliminatedRow(t, 2, 1, 2) == [0.0, 0.0, 0.0, 1.0, 42.0]
  {
    ExampleEliminatedFirst(t);
    ExampleEliminatedObjective(t);
  }

  /** The first constraint row after eliminating y. */
  lemma ExampleEliminatedFirst(t: Tableau)
    requires t == InitialTableau(2, 1, 18, 2, 3, 42, 2, 3)
    requires NormalizedRow(t, 1, 2) == [2.0 / 3.0, 1.0, 0.0, 1.0 / 3.0, 14.0]
    ensures EliminatedRow(t, 0, 1, 2) == [4.0 / 3.0, 0.0, 1.0, -1.0 / 3.0, 4.0]
  {
    assert Cell(t, 0, 2) == 1.0 && t[0].cells == [2.0, 1.0, 1.0, 0.0, 18.0];
    EliminatedExact(t, 0, 1, 2, 0, 4, 3);
    EliminatedExact(t, 0, 1, 2, 1, 0, 1);
    EliminatedExact(t, 0, 1, 2, 2, 1, 1);
    EliminatedExact(t, 0, 1, 2, 3, -1, 3);
    EliminatedExact(t, 0, 1, 2, 4, 4, 1);
    SameRow(EliminatedRow(t, 0, 1, 2), [4.0 / 3.0, 0.0, 1.0, -1.0 / 3.0, 4.0]);
  }

  /** The z row after eliminating y. */
  lemma ExampleEliminatedObjective(t: Tableau)
    requires t == InitialTableau(2, 1, 18, 2, 3, 42, 2, 3)
    requires NormalizedRow(t, 1, 2) == [2.0 / 3.0, 1.0, 0.0, 1.0 / 3.0, 14.0]
    ensures EliminatedRow(t, 2, 1, 2) == [0.0, 0.0, 0.0, 1.0, 42.0]
  {
    assert Cell(t, 2, 2) == -3.0 && t[2].cells == [-2.0, -3.0, 0.0, 0.0, 0.0];
    EliminatedExact(t, 2, 1, 2, 0, 0, 1);
    EliminatedExact(t, 2, 1, 2, 1, 0, 1);
    EliminatedExact(t, 2, 1, 2, 2, 0, 1);
    EliminatedExact(t, 2, 1, 2, 3, 1, 1);
    EliminatedExact(t, 2, 1, 2, 4, 42, 1);
    SameRow(EliminatedRow(t, 2, 1, 2), [0.0, 0.0, 0.0, 1.0, 42.0]);
  }
}
