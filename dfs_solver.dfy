/** DfsSolver: the same search driven by an explicit stack of (index, value) states.
    The stack is a sequence whose last element is the top. */
module DfsSolver {
  import opened Equations
  import opened Search
  import RecursiveSolver

  const Name: string := "DFS (Depth-First Search)"

  /** Pops a state; a final state that equals the target answers true, any other final
      state is dropped; otherwise the product and then the sum with the next operand are
      pushed when they do not exceed the target, so the sum is popped first. */
  method CanSolve(eq: Equation) returns (r: bool)
    ensures r <==> Solvable(eq)
    ensures r == RecursiveSolver.CanSolve(eq)
  {
    var numbers := eq.numbers;
    if |numbers| < 2 {
      return false;
    }
    var stack := [State(0, numbers[0])];
    SeedReaches(eq);
    while |stack| > 0
      invariant WorkInvariant(eq, stack)
      invariant Solvable(eq) <==> AnyReaches(eq, stack)
      decreases TotalWeight(|numbers|, stack)
    {
      ghost var before := stack;
      var top := stack[|stack| - 1];
      stack := stack[..|stack| - 1];
      assert before == stack + [top] && top in before;

      if top.index == |numbers| - 1 {
        if top.value == eq.testValue {
          ReachLast(numbers, top.value, eq.testValue);
          assert Reaches(eq, top);
          return true;
        }
        DropFinal(eq, before, top, stack);
        continue;
      }

      ghost var rest := stack;
      var nextNumber := numbers[top.index + 1];

      var multiplyResult := top.value * nextNumber;
      if multiplyResult <= eq.testValue {
        stack := stack + [State(top.index + 1, multiplyResult)];
      }

      var addResult := top.value + nextNumber;
      if addResult <= eq.testValue {
        stack := stack + [State(top.index + 1, addResult)];
      }

      assert stack == rest + Children(eq, top, true);
      ExpandKeepsInvariant(eq, before, top, rest, true);
      ExpandKeepsReach(eq, before, top, rest, true);
      ExpandLightens(eq, before, top, rest, true);
    }
    return false;
  }
}
