/** RecursiveSolver: depth-first recursion that tries addition, then multiplication,
    and stops at the first success. */
module RecursiveSolver {
  import opened Equations
  import opened Search

  const Name: string := "Recursive"

  /** Fewer than two operands is unsolvable; otherwise start from the first operand. */
  function CanSolve(eq: Equation): (r: bool)
    ensures r <==> Solvable(eq)
    ensures |eq.numbers| < 2 ==> !r
  {
    if |eq.numbers| < 2 then false
    else CanSolveRecursive(eq.numbers, 0, eq.numbers[0], eq.testValue)
  }

  /** Having folded numbers[..index + 1] into currentValue: at the last operand, success is
      equality with the target; otherwise a sum or product within the target that succeeds.
      Each call moves one operand on, so the depth is the number of operands. */
  function CanSolveRecursive(numbers: seq<int>, index: nat, currentValue: int, target: int): (r: bool)
    requires index < |numbers|
    ensures r <==> ReachableFrom(numbers, index, currentValue, target)
    decreases |numbers| - index
  {
    if index == |numbers| - 1 then
      ReachLast(numbers, currentValue, target);
      currentValue == target
    else
      ReachStep(numbers, index, currentValue, target);
      var nextNumber := numbers[index + 1];
      var addResult := currentValue + nextNumber;
      if addResult <= target && CanSolveRecursive(numbers, index + 1, addResult, target) then
        true
      else
        var multiplyResult := currentValue * nextNumber;
        multiplyResult <= target && CanSolveRecursive(numbers, index + 1, multiplyResult, target)
  }

  /** 190: 10 19 is solvable (10 * 19). */
  lemma SolvesProduct()
    ensures CanSolve(Equation(190, [10, 19]))
  {
    var ops := [Mul];
    assert [10, 19][1..] == [19] && ops[1..] == [];
    assert Trace(10, [19], ops) == [190];
    assert Admissible(10, [19], ops, 190);
  }

  /** 3267: 81 40 27 is solvable (81 + 40 * 27 and 81 * 40 + 27). */
  lemma SolvesTwoSteps()
    ensures CanSolve(Equation(3267, [81, 40, 27]))
  {
    var xs := [81, 40, 27][1..];
    var ops := [Add, Mul];
    assert xs == [40, 27] && xs[1..] == [27] && ops[1..] == [Mul];
    assert Trace(81, xs, ops) == [121, 3267];
    assert Eval(81, xs, ops) == Eval(121, [27], [Mul]) == 3267;
    assert Admissible(81, xs, ops, 3267);
  }

  /** 83: 17 5 is not (17 + 5 = 22, 17 * 5 = 85). */
  lemma RejectsUnreachable()
    ensures !CanSolve(Equation(83, [17, 5]))
  {
    var xs := [17, 5][1..];
    assert xs == [5];
    forall ops: seq<Op> ensures !Admissible(17, xs, ops, 83) {
      if |ops| == 1 {
        assert ops[1..] == [];
        assert Eval(17, xs, ops) == Apply(ops[0], 17, 5);
      }
    }
  }
}
