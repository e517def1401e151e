/** The common solver interface (Name and CanSolve) as a choice among the three
    strategies, and the driver's per-solver total over the solvable equations. */
module Solvers {
  import opened Equations
  import opened Search
  import RecursiveSolver
  import DfsSolver
  import BfsSolver

  datatype Strategy = Recursive | Bfs | Dfs

  function Name(strategy: Strategy): string
  {
    match strategy
    case Recursive => RecursiveSolver.Name
    case Bfs => BfsSolver.Name
    case Dfs => DfsSolver.Name
  }

  /** IBridgeRepairSolver.CanSolve: whichever strategy runs, the answer is the same. */
  method CanSolve(strategy: Strategy, eq: Equation) returns (r: bool)
    ensures r <==> Solvable(eq)
    ensures r == RecursiveSolver.CanSolve(eq)
  {
    match strategy
    case Recursive => r := RecursiveSolver.CanSolve(eq);
    case Bfs => r := BfsSolver.CanSolve(eq);
    case Dfs => r := DfsSolver.CanSolve(eq);
  }

  /** The sum of the targets of the solvable equations. */
  ghost function CalibrationTotal(eqs: seq<Equation>): int
  {
    if eqs == [] then 0
    else
      var last := eqs[|eqs| - 1];
      CalibrationTotal(eqs[..|eqs| - 1]) + (if Solvable(last) then last.testValue else 0)
  }

  /** The same sum by exhaustive search without pruning. */
  ghost function BruteForceTotal(eqs: seq<Equation>): int
  {
    if eqs == [] then 0
    else
      var last := eqs[|eqs| - 1];
      BruteForceTotal(eqs[..|eqs| - 1]) + (if Reachable(last) then last.testValue else 0)
  }

  /** The solvable equations of eqs, in input order, repeats kept. */
  ghost function SolvableOnes(eqs: seq<Equation>): seq<Equation>
  {
    if eqs == [] then []
    else
      var last := eqs[|eqs| - 1];
      SolvableOnes(eqs[..|eqs| - 1]) + (if Solvable(last) then [last] else [])
  }

  /** SolvableOnes keeps exactly the solvable equations. */
  lemma {:induction false} SolvableOnesMembers(eqs: seq<Equation>)
    ensures forall e :: e in SolvableOnes(eqs) <==> e in eqs && Solvable(e)
  {
    if eqs != [] {
      var init := eqs[..|eqs| - 1];
      SolvableOnesMembers(init);
      assert eqs == init + [eqs[|eqs| - 1]];
    }
  }

  /** The driver's loop for one solver: collects the solvable equations, in input order,
      and adds up their targets. */
  method TotalCalibration(strategy: Strategy, eqs: seq<Equation>) returns (solvable: seq<Equation>, total: int)
    ensures total == CalibrationTotal(eqs)
    ensures solvable == SolvableOnes(eqs)
    ensures forall e :: e in solvable ==> e in eqs && Solvable(e)
    ensures forall e :: e in eqs && Solvable(e) ==> e in solvable
  {
    solvable, total := [], 0;
    for i := 0 to |eqs|
      invariant total == CalibrationTotal(eqs[..i])
      invariant solvable == SolvableOnes(eqs[..i])
    {
      assert eqs[..i + 1][..i] == eqs[..i];
      var ok := CanSolve(strategy, eqs[i]);
      if ok {
        solvable := solvable + [eqs[i]];
        total := total + eqs[i].testValue;
      }
    }
    assert eqs[..|eqs|] == eqs;
    SolvableOnesMembers(eqs);
  }

  /** When every equation starts non-negative and continues with positive operands, the
      pruned total equals the brute-force total. */
  lemma {:induction false} TotalMatchesBruteForce(eqs: seq<Equation>)
    requires forall k :: 0 <= k < |eqs| ==> PositiveOperands(eqs[k])
    ensures CalibrationTotal(eqs) == BruteForceTotal(eqs)
  {
    if eqs != [] {
      PruningSound(eqs[|eqs| - 1]);
      TotalMatchesBruteForce(eqs[..|eqs| - 1]);
    }
  }
}
