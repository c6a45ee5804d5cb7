/**
 * Building the first tableau from the three input fields, as the first
 * request of project/app.py:330-356 does: both constraints must parse, and
 * an empty objective counts as 0x + 0y.
 */
module SolveRequest {
  import opened Wrappers
  import opened ExpressionParser
  import opened SimplexTableau

  /** The message shown when the constraints cannot be read. */
  const ParseError: string := "Could not parse constraints. Use format like: 2x + 3y <= 8"

  /** The objective coefficients the driver uses: `(0, 0)` when `parse_objective` gives `None`. */
  function ObjectiveCoefficients(objective: string): (cs: (int, int))
    ensures objective == "" ==> cs == (0, 0)
    ensures objective != "" ==> Some(cs) == ParseObjective(objective)
  {
    ParseObjective(objective).GetOr((0, 0))
  }

  /** The constraint rows, and the z row with the negated objective, of project/app.py:330-356. */
  function BuildTableau(objective: string, constraint1: string, constraint2: string): (r: Result<Tableau, string>)
    ensures r.Failure? <==> ParseConstraint(constraint1).None? || ParseConstraint(constraint2).None?
    ensures r.Failure? ==> r.error == ParseError
    ensures r.Success? ==> WellFormed(r.value)
  {
    match (ParseConstraint(constraint1), ParseConstraint(constraint2))
    case (Some((a1, b1, rhs1)), Some((a2, b2, rhs2))) =>
      var (c1, c2) := ObjectiveCoefficients(objective);
      Success(InitialTableau(a1, b1, rhs1, a2, b2, rhs2, c1, c2))
    case _ => Failure(ParseError)
  }

  /** Row i holds the coefficients and the bound of the constraint `p` next to its slack. */
  predicate HoldsConstraint(t: Tableau, i: nat, p: (int, int, int))
    requires WellFormed(t) && i < 2
  {
    Cell(t, i, 1) == p.0 as real && Cell(t, i, 2) == p.1 as real && Cell(t, i, RhsColumn) == p.2 as real
  }

  /**
   * A built tableau is canonical with basis S1, S2; row i carries constraint
   * i's coefficients and bound next to its slack, and the z row carries the
   * negated objective coefficients with a zero right-hand side.
   */
  lemma BuildTableauShape(objective: string, constraint1: string, constraint2: string)
    requires BuildTableau(objective, constraint1, constraint2).Success?
    ensures var t := BuildTableau(objective, constraint1, constraint2).value;
      && Canonical(t)
      && t[0].basic == S1 && t[1].basic == S2 && t[ZRow].basic == Z
      && HoldsConstraint(t, 0, ParseConstraint(constraint1).value)
      && HoldsConstraint(t, 1, ParseConstraint(constraint2).value)
      && Cell(t, ZRow, 1) == -(ObjectiveCoefficients(objective).0 as real)
      && Cell(t, ZRow, 2) == -(ObjectiveCoefficients(objective).1 as real)
      && Cell(t, ZRow, RhsColumn) == 0.0
  {
    var p1, p2 := ParseConstraint(constraint1).value, ParseConstraint(constraint2).value;
    var cs := ObjectiveCoefficients(objective);
    var t := InitialTableau(p1.0, p1.1, p1.2, p2.0, p2.1, p2.2, cs.0, cs.1);
    assert BuildTableau(objective, constraint1, constraint2) == Success(t);
    InitialShape(p1, p2, cs);
  }

  lemma InitialShape(p1: (int, int, int), p2: (int, int, int), cs: (int, int))
    ensures var t := InitialTableau(p1.0, p1.1, p1.2, p2.0, p2.1, p2.2, cs.0, cs.1);
      && Canonical(t)
      && t[0].basic == S1 && t[1].basic == S2 && t[ZRow].basic == Z
      && HoldsConstraint(t, 0, p1) && HoldsConstraint(t, 1, p2)
      && Cell(t, ZRow, 1) == -(cs.0 as real) && Cell(t, ZRow, 2) == -(cs.1 as real)
      && Cell(t, ZRow, RhsColumn) == 0.0
  {
  }

  /** With an empty objective the z row is all zeros, so no column is negative. */
  lemma EmptyObjectiveNoNegative(constraint1: string, constraint2: string)
    requires BuildTableau("", constraint1, constraint2).Success?
    ensures !HasNegativeInZ(BuildTableau("", constraint1, constraint2).value)
  {
    var p1, p2 := ParseConstraint(constraint1).value, ParseConstraint(constraint2).value;
    assert BuildTableau("", constraint1, constraint2) == Success(InitialTableau(p1.0, p1.1, p1.2, p2.0, p2.1, p2.2, 0, 0));
    ZeroObjectiveNoNegative(p1.0, p1.1, p1.2, p2.0, p2.1, p2.2);
  }

  lemma ZeroObjectiveNoNegative(a1: int, b1: int, rhs1: int, a2: int, b2: int, rhs2: int)
    ensures !HasNegativeInZ(InitialTableau(a1, b1, rhs1, a2, b2, rhs2, 0, 0))
  {
    var t := InitialTableau(a1, b1, rhs1, a2, b2, rhs2, 0, 0);
    assert forall j :: IsVariableColumn(j) ==> Cell(t, ZRow, j) == 0.0;
  }
}
