/** What the three solvers decide: whether some choice of '+' or '*' for each gap
    between the operands, evaluated strictly left to right, reaches the target
    while no intermediate value exceeds it. Also the search states the worklist
    solvers keep, and what those worklists satisfy. */
module Search {
  import opened Equations

  datatype Op = Add | Mul

  function Apply(op: Op, acc: int, x: int): int
  {
    match op
    case Add => acc + x
    case Mul => acc * x
  }

  /** The left fold of xs into acc, gap k using ops[k]; no operator precedence. */
  function Eval(acc: int, xs: seq<int>, ops: seq<Op>): int
    requires |ops| == |xs|
    decreases |xs|
  {
    if xs == [] then acc else Eval(Apply(ops[0], acc, xs[0]), xs[1..], ops[1..])
  }

  /** The values the fold passes through: entry k is the value after gap k. */
  function Trace(acc: int, xs: seq<int>, ops: seq<Op>): (vs: seq<int>)
    requires |ops| == |xs|
    ensures |vs| == |xs|
    decreases |xs|
  {
    if xs == [] then []
    else
      var v := Apply(ops[0], acc, xs[0]);
      [v] + Trace(v, xs[1..], ops[1..])
  }

  /** ops is a candidate path that survives the solvers' pruning: no value after a gap
      exceeds the target, and the last one equals it. */
  ghost predicate Admissible(acc: int, xs: seq<int>, ops: seq<Op>, target: int)
  {
    && |ops| == |xs|
    && (forall k :: 0 <= k < |xs| ==> Trace(acc, xs, ops)[k] <= target)
    && Eval(acc, xs, ops) == target
  }

  /** Some admissible path folds xs into acc and ends at the target. */
  ghost predicate CanFinish(acc: int, xs: seq<int>, target: int)
  {
    exists ops :: Admissible(acc, xs, ops, target)
  }

  /** Having folded numbers[..index + 1] into acc, an admissible way to finish exists. */
  ghost predicate ReachableFrom(numbers: seq<int>, index: nat, acc: int, target: int)
    requires index < |numbers|
  {
    CanFinish(acc, numbers[index + 1..], target)
  }

  /** The equation has at least two operands and an admissible operator assignment. */
  ghost predicate Solvable(eq: Equation)
  {
    |eq.numbers| >= 2 && CanFinish(eq.numbers[0], eq.numbers[1..], eq.testValue)
  }

  /** The same without pruning: some operator assignment evaluates to the target. */
  ghost predicate Reachable(eq: Equation)
  {
    && |eq.numbers| >= 2
    && exists ops :: |ops| == |eq.numbers| - 1 && Eval(eq.numbers[0], eq.numbers[1..], ops) == eq.testValue
  }

  // ---------------------------------------------------------------------------
  // One step of the search

  /** Admissibility of a path read one gap at a time. */
  lemma AdmissibleCons(acc: int, xs: seq<int>, op: Op, ops: seq<Op>, target: int)
    requires xs != [] && |ops| == |xs| - 1
    ensures Admissible(acc, xs, [op] + ops, target) <==>
            Apply(op, acc, xs[0]) <= target && Admissible(Apply(op, acc, xs[0]), xs[1..], ops, target)
  {
    var all := [op] + ops;
    var v := Apply(op, acc, xs[0]);
    assert all[0] == op && all[1..] == ops;
    var tr := Trace(acc, xs, all);
    var rest := Trace(v, xs[1..], ops);
    assert tr == [v] + rest;
    assert Eval(acc, xs, all) == Eval(v, xs[1..], ops);
    if Admissible(acc, xs, all, target) {
      assert tr[0] == v;
      forall k | 0 <= k < |rest| ensures rest[k] <= target {
        assert rest[k] == tr[k + 1];
      }
    }
    if v <= target && Admissible(v, xs[1..], ops, target) {
      forall k | 0 <= k < |tr| ensures tr[k] <= target {
        if k > 0 {
          assert tr[k] == rest[k - 1];
        }
      }
    }
  }

  /** At the last operand the only path is the empty one: reachable exactly when acc is the target. */
  lemma ReachLast(numbers: seq<int>, acc: int, target: int)
    requires |numbers| > 0
    ensures ReachableFrom(numbers, |numbers| - 1, acc, target) <==> acc == target
  {
    assert numbers[|numbers|..] == [];
    if acc == target {
      assert Admissible(acc, [], [], target);
    }
  }

  /** Before the last operand, acc can finish exactly when its sum or its product with the
      next operand stays within the target and can finish from there. */
  lemma ReachStep(numbers: seq<int>, index: nat, acc: int, target: int)
    requires index + 1 < |numbers|
    ensures ReachableFrom(numbers, index, acc, target) <==>
            || (acc + numbers[index + 1] <= target && ReachableFrom(numbers, index + 1, acc + numbers[index + 1], target))
            || (acc * numbers[index + 1] <= target && ReachableFrom(numbers, index + 1, acc * numbers[index + 1], target))
  {
    var xs := numbers[index + 1..];
    assert xs[0] == numbers[index + 1] && xs[1..] == numbers[index + 2..];
    if ReachableFrom(numbers, index, acc, target) {
      var ops :| Admissible(acc, xs, ops, target);
      assert ops == [ops[0]] + ops[1..];
      AdmissibleCons(acc, xs, ops[0], ops[1..], target);
      assert CanFinish(Apply(ops[0], acc, xs[0]), xs[1..], target);
    }
    forall op: Op | Apply(op, acc, xs[0]) <= target && CanFinish(Apply(op, acc, xs[0]), xs[1..], target)
      ensures ReachableFrom(numbers, index, acc, target)
    {
      var ops :| Admissible(Apply(op, acc, xs[0]), xs[1..], ops, target);
      AdmissibleCons(acc, xs, op, ops, target);
      assert Admissible(acc, xs, [op] + ops, target);
    }
    assert Apply(Add, acc, xs[0]) == acc + numbers[index + 1];
    assert Apply(Mul, acc, xs[0]) == acc * numbers[index + 1];
  }

  // ---------------------------------------------------------------------------
  // When pruning is harmless, and when it is not

  /** The first operand, if any, is non-negative and every later one is positive. */
  predicate PositiveOperands(eq: Equation)
  {
    && (|eq.numbers| > 0 ==> eq.numbers[0] >= 0)
    && forall k :: 1 <= k < |eq.numbers| ==> eq.numbers[k] >= 1
  }

  lemma MulGrows(a: int, x: int)
    requires a >= 0 && x >= 1
    ensures a * x >= a
  {
    assert a * x == a * (x - 1) + a;
  }

  /** With a non-negative start and positive operands the fold never decreases, so every
      intermediate value is at most the final one. */
  lemma {:induction false} TraceBelowEval(acc: int, xs: seq<int>, ops: seq<Op>)
    requires |ops| == |xs| && acc >= 0
    requires forall k :: 0 <= k < |xs| ==> xs[k] >= 1
    ensures forall k :: 0 <= k < |xs| ==> acc <= Trace(acc, xs, ops)[k] <= Eval(acc, xs, ops)
    ensures acc <= Eval(acc, xs, ops)
    decreases |xs|
  {
    if xs != [] {
      var v := Apply(ops[0], acc, xs[0]);
      if ops[0] == Mul {
        MulGrows(acc, xs[0]);
      }
      TraceBelowEval(v, xs[1..], ops[1..]);
      var tr := Trace(acc, xs, ops);
      assert forall k :: 1 <= k < |xs| ==> tr[k] == Trace(v, xs[1..], ops[1..])[k - 1];
    }
  }

  /** Pruning loses nothing when the first operand is non-negative and the rest are positive. */
  lemma PruningSound(eq: Equation)
    requires PositiveOperands(eq)
    ensures Solvable(eq) <==> Reachable(eq)
  {
    if Reachable(eq) {
      var ops :| |ops| == |eq.numbers| - 1 && Eval(eq.numbers[0], eq.numbers[1..], ops) == eq.testValue;
      TraceBelowEval(eq.numbers[0], eq.numbers[1..], ops);
      assert Admissible(eq.numbers[0], eq.numbers[1..], ops, eq.testValue);
    }
  }

  /** A zero operand breaks that: (3 + 10) * 0 + 5 = 5, but 3 + 10 and 3 * 10 both exceed 5,
      so every path is pruned at the first gap. */
  lemma PruningLosesZeroPath()
    ensures Reachable(Equation(5, [3, 10, 0, 5]))
    ensures !Solvable(Equation(5, [3, 10, 0, 5]))
  {
    var eq := Equation(5, [3, 10, 0, 5]);
    var xs := eq.numbers[1..];
    assert xs == [10, 0, 5];
    var ops := [Add, Mul, Add];
    assert ops[1..] == [Mul, Add] && ops[1..][1..] == [Add] && xs[1..] == [0, 5] && xs[1..][1..] == [5];
    assert Eval(3, xs, ops) == Eval(13, [0, 5], [Mul, Add]) == Eval(0, [5], [Add]) == Eval(5, [], []) == 5;
    forall ops: seq<Op> ensures !Admissible(3, xs, ops, 5) {
      if |ops| == |xs| {
        assert Trace(3, xs, ops)[0] == Apply(ops[0], 3, 10) > 5;
      }
    }
  }

  // ---------------------------------------------------------------------------
  // The worklist solvers' states

  /** An entry of the DFS stack or the BFS queue: an operand index and the value so far. */
  datatype State = State(index: nat, value: int)

  function Seed(eq: Equation): State
    requires |eq.numbers| > 0
  {
    State(0, eq.numbers[0])
  }

  /** What every stacked or queued state satisfies: its index is in range, a state past
      the seed survived pruning, and a state at index 0 is the seed. */
  predicate Pending(eq: Equation, s: State)
  {
    && s.index < |eq.numbers|
    && (s.index >= 1 ==> s.value <= eq.testValue)
    && (s.index == 0 ==> s == Seed(eq))
  }

  /** The worklist holds pending states only, and holds an index-0 state only as the
      sole entry it starts with. */
  predicate WorkInvariant(eq: Equation, work: seq<State>)
  {
    && (forall s :: s in work ==> Pending(eq, s))
    && (forall s :: s in work && s.index == 0 ==> work == [Seed(eq)])
  }

  ghost predicate Reaches(eq: Equation, s: State)
  {
    s.index < |eq.numbers| && ReachableFrom(eq.numbers, s.index, s.value, eq.testValue)
  }

  /** Some state of the worklist can still reach the target. */
  ghost predicate AnyReaches(eq: Equation, work: seq<State>)
  {
    exists s :: s in work && Reaches(eq, s)
  }

  /** The states a non-final state expands to, in the order they are added: its sum and
      its product with the next operand, each kept only when it does not exceed the target. */
  function Children(eq: Equation, s: State, multiplyFirst: bool): (kids: seq<State>)
    requires s.index + 1 < |eq.numbers|
    ensures |kids| <= 2
    ensures forall c :: c in kids ==> c.index == s.index + 1 && c.value <= eq.testValue
  {
    var next := eq.numbers[s.index + 1];
    var sum := State(s.index + 1, s.value + next);
    var product := State(s.index + 1, s.value * next);
    var sums := if sum.value <= eq.testValue then [sum] else [];
    var products := if product.value <= eq.testValue then [product] else [];
    if multiplyFirst then products + sums else sums + products
  }

  /** Starting the worklist with the seed alone is starting it with the whole question. */
  lemma SeedReaches(eq: Equation)
    requires |eq.numbers| >= 2
    ensures WorkInvariant(eq, [Seed(eq)])
    ensures AnyReaches(eq, [Seed(eq)]) <==> Solvable(eq)
  {
    assert Reaches(eq, Seed(eq)) <==> Solvable(eq);
  }

  /** before is the worklist with s taken off its top (the end) or its front. */
  predicate TakenFrom(before: seq<State>, s: State, rest: seq<State>)
  {
    before == rest + [s] || before == [s] + rest
  }

  lemma TakenWeight(n: nat, before: seq<State>, s: State, rest: seq<State>)
    requires TakenFrom(before, s, rest)
    ensures TotalWeight(n, before) == TotalWeight(n, rest) + Weight(n, s)
    ensures forall c :: c in before <==> c == s || c in rest
  {
    TotalWeightConcat(n, rest, [s]);
    TotalWeightConcat(n, [s], rest);
    assert TotalWeight(n, [s]) == TotalWeight(n, []) + Weight(n, s);
  }

  /** Once a state has been taken off, no index-0 state is left. */
  lemma NoSeedLeft(eq: Equation, before: seq<State>, s: State, rest: seq<State>)
    requires TakenFrom(before, s, rest) && WorkInvariant(eq, before)
    ensures forall c :: c in rest ==> c.index != 0
  {
    TakenWeight(0, before, s, rest);
  }

  /** Dropping a final state that misses the target keeps the invariant and what the
      worklist can reach, and lightens the worklist. */
  lemma DropFinal(eq: Equation, before: seq<State>, s: State, rest: seq<State>)
    requires TakenFrom(before, s, rest) && WorkInvariant(eq, before)
    requires s.index == |eq.numbers| - 1 && s.value != eq.testValue
    ensures WorkInvariant(eq, rest)
    ensures AnyReaches(eq, rest) <==> AnyReaches(eq, before)
    ensures TotalWeight(|eq.numbers|, rest) < TotalWeight(|eq.numbers|, before)
  {
    TakenWeight(|eq.numbers|, before, s, rest);
    ReachLast(eq.numbers, s.value, eq.testValue);
    NoSeedLeft(eq, before, s, rest);
  }

  /** Replacing a non-final state by its kept children keeps the invariant. */
  lemma ExpandKeepsInvariant(eq: Equation, before: seq<State>, s: State, rest: seq<State>, multiplyFirst: bool)
    requires TakenFrom(before, s, rest) && WorkInvariant(eq, before)
    requires s.index + 1 < |eq.numbers|
    ensures WorkInvariant(eq, rest + Children(eq, s, multiplyFirst))
  {
    TakenWeight(0, before, s, rest);
    NoSeedLeft(eq, before, s, rest);
  }

  /** Replacing a non-final state by its kept children keeps what the worklist can reach. */
  lemma ExpandKeepsReach(eq: Equation, before: seq<State>, s: State, rest: seq<State>, multiplyFirst: bool)
    requires TakenFrom(before, s, rest)
    requires s.index + 1 < |eq.numbers|
    ensures AnyReaches(eq, rest + Children(eq, s, multiplyFirst)) <==> AnyReaches(eq, before)
  {
    TakenWeight(0, before, s, rest);
    var kids := Children(eq, s, multiplyFirst);
    ReachStep(eq.numbers, s.index, s.value, eq.testValue);
    var next := eq.numbers[s.index + 1];
    var sum := State(s.index + 1, s.value + next);
    var product := State(s.index + 1, s.value * next);
    assert sum in kids <==> sum.value <= eq.testValue;
    assert product in kids <==> product.value <= eq.testValue;
    assert Reaches(eq, s) <==> (sum in kids && Reaches(eq, sum)) || (product in kids && Reaches(eq, product));
  }

  /** Replacing a non-final state by its kept children lightens the worklist. */
  lemma ExpandLightens(eq: Equation, before: seq<State>, s: State, rest: seq<State>, multiplyFirst: bool)
    requires TakenFrom(before, s, rest)
    requires s.index + 1 < |eq.numbers|
    ensures TotalWeight(|eq.numbers|, rest + Children(eq, s, multiplyFirst)) < TotalWeight(|eq.numbers|, before)
  {
    var kids := Children(eq, s, multiplyFirst);
    TakenWeight(|eq.numbers|, before, s, rest);
    TotalWeightConcat(|eq.numbers|, rest, kids);
    ChildrenWeighLess(eq, s, kids);
  }

  // ---------------------------------------------------------------------------
  // Termination of the worklist loops

  function Pow2(k: nat): (p: nat)
    ensures p >= 1
  {
    if k == 0 then 1 else 2 * Pow2(k - 1)
  }

  /** A state at index i stands for at most 2^(n - i) - 1 pops still to come (itself and
      its descendants), where n is the number of operands. */
  function Weight(n: nat, s: State): nat
  {
    if s.index < n then Pow2(n - s.index) - 1 else 0
  }

  function TotalWeight(n: nat, work: seq<State>): nat
  {
    if work == [] then 0 else TotalWeight(n, work[..|work| - 1]) + Weight(n, work[|work| - 1])
  }

  lemma {:induction false} TotalWeightConcat(n: nat, a: seq<State>, b: seq<State>)
    ensures TotalWeight(n, a + b) == TotalWeight(n, a) + TotalWeight(n, b)
  {
    if b == [] {
      assert a + b == a;
    } else {
      assert (a + b)[..|a + b| - 1] == a + b[..|b| - 1];
      TotalWeightConcat(n, a, b[..|b| - 1]);
    }
  }

  /** The children a state is replaced by weigh less than the state itself. */
  lemma ChildrenWeighLess(eq: Equation, s: State, kids: seq<State>)
    requires s.index + 1 < |eq.numbers|
    requires |kids| <= 2 && forall c :: c in kids ==> c.index == s.index + 1
    ensures TotalWeight(|eq.numbers|, kids) < Weight(|eq.numbers|, s)
  {
    var n := |eq.numbers|;
    assert Pow2(n - s.index) == 2 * Pow2(n - (s.index + 1));
    if |kids| == 2 {
      assert kids[..1] == [kids[0]];
      assert kids[0] in kids && kids[1] in kids;
    } else if |kids| == 1 {
      assert kids[0] in kids;
    }
  }
}
