/** BfsSolver: the same search driven by an explicit FIFO queue of (index, value) states.
    The queue is a sequence whose first element is the front. */
module BfsSolver {
  import opened Equations
  import opened Search
  import RecursiveSolver

  const Name: string := "BFS (Breadth-First Search)"

  /** Level order: from front to back the indices never decrease, and they span at most
      two consecutive values. */
  predicate Levelled(queue: seq<State>)
  {
    forall j, k :: 0 <= j <= k < |queue| ==> InOrder(queue[j], queue[k])
  }

  /** a may stand before b in the queue: b is on a's level or the next one. */
  predicate InOrder(a: State, b: State)
  {
    a.index <= b.index <= a.index + 1
  }

  /** Dequeuing the front and enqueuing states one level below it keeps the level order. */
  lemma {:induction false} LevelledStep(front: State, rest: seq<State>, kids: seq<State>)
    requires Levelled([front] + rest)
    requires forall c :: c in kids ==> c.index == front.index + 1
    ensures Levelled(rest + kids)
  {
    var before := [front] + rest;
    var after := rest + kids;
    forall j, k | 0 <= j <= k < |after| ensures InOrder(after[j], after[k]) {
      if k < |rest| {
        assert after[j] == before[j + 1] && after[k] == before[k + 1];
        assert InOrder(before[j + 1], before[k + 1]);
      } else if j < |rest| {
        assert after[j] == before[j + 1] && before[0] == front;
        assert after[k] in kids;
        assert InOrder(before[0], before[j + 1]);
      } else {
        assert after[j] in kids && after[k] in kids;
      }
    }
  }

  /** Dequeues a state; a final state that equals the target answers true, any other final
      state is dropped; otherwise the sum and then the product with the next operand are
      enqueued when they do not exceed the target. */
  method CanSolve(eq: Equation) returns (r: bool)
    ensures r <==> Solvable(eq)
    ensures r == RecursiveSolver.CanSolve(eq)
  {
    var numbers := eq.numbers;
    if |numbers| < 2 {
      return false;
    }
    var queue := [State(0, numbers[0])];
    SeedReaches(eq);
    while |queue| > 0
      invariant WorkInvariant(eq, queue)
      invariant Levelled(queue)
      invariant Solvable(eq) <==> AnyReaches(eq, queue)
      decreases TotalWeight(|numbers|, queue)
    {
      ghost var before := queue;
      var front := queue[0];
      queue := queue[1..];
      assert before == [front] + queue && front in before;

      if front.index == |numbers| - 1 {
        if front.value == eq.testValue {
          ReachLast(numbers, front.value, eq.testValue);
          assert Reaches(eq, front);
          return true;
        }
        DropFinal(eq, before, front, queue);
        LevelledStep(front, queue, []);
        assert queue + [] == queue;
        continue;
      }

      ghost var rest := queue;
      var nextNumber := numbers[front.index + 1];

      var addResult := front.value + nextNumber;
      if addResult <= eq.testValue {
        queue := queue + [State(front.index + 1, addResult)];
      }

      var multiplyResult := front.value * nextNumber;
      if multiplyResult <= eq.testValue {
        queue := queue + [State(front.index + 1, multiplyResult)];
      }

      assert queue == rest + Children(eq, front, false);
      ExpandKeepsInvariant(eq, before, front, rest, false);
      ExpandKeepsReach(eq, before, front, rest, false);
      ExpandLightens(eq, before, front, rest, false);
      LevelledStep(front, rest, Children(eq, front, false));
    }
    return false;
  }

}
