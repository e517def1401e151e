# Bridge Repair, verified model

Bridge Repair reads lines of the form `<target>: <n1> <n2> ...`. For each line it asks
whether `+` and `*` can be placed between the operands so that the expression equals the
target. The expression is evaluated strictly left to right, with no precedence.

Three solvers answer that question. They share one interface.

- The recursive solver tries addition, then multiplication.
- The DFS solver does the same search with an explicit stack.
- The BFS solver does it with an explicit queue.

All three prune any intermediate value that exceeds the target. The driver sums the
targets of the equations each solver accepts.

The model has six modules.

- `Text` covers the .NET text handling of `Equation.Parse`:
  - `String.Split` on one character, with `TrimEntries` and with `RemoveEmptyEntries`;
  - `String.Trim`, which `TrimEntries` applies to each field;
  - `Int64.Parse`.

  It also covers the text handling of the driver's printed line:
  - `String.Join`;
  - `Int64.ToString`.
- `Equations` holds the `Equation` record, `Equation.Parse` (failures become a `ParseError`
  instead of an exception), and the driver's printed form of an equation.
- `Search` holds the meaning of "solvable".
  - `Solvable` is the pruned meaning: some operator path stays at or below the target at
    every step and ends on it.
  - `Reachable` is the unpruned meaning.
  - It also holds the search states of the worklist solvers, what their stack or queue
    satisfies, and the weight that makes those loops terminate.
- `RecursiveSolver`, `DfsSolver` and `BfsSolver` each model one solver.
  - The recursive solver is a recursive function.
  - The two worklist solvers are methods with a `while` loop over a stack or queue held as
    a sequence. The top of the stack is the sequence's end; the front of the queue is its
    start.
- `Solvers` holds the solver interface as a choice of strategy, and the driver's loop that
  collects solvable equations and totals their targets.

Every solver is proved to answer `Solvable` exactly. So the three always agree.

`Solvable` is also proved equal to `Reachable` when the first operand is non-negative and
the rest are positive. A concrete equation with a zero operand shows that pruning can reject
an equation that unpruned search accepts.

For every equation within the range of `long`, parsing is proved to invert the driver's
`{TestValue}: {string.Join(" ", Numbers)}` rendering. The driver prints that rendering after a
`  ✓ ` marker, and the marker is not part of the round trip.

## Model

| member | source | states |
|---|---|---|
| Equations.Parse | BridgeRepair/Models/Equation.cs:5-15 | a successful parse yields a target and operands that all lie in the range of long |
| Equations.ReadFields | BridgeRepair/Models/Equation.cs:8-14 | an unparsable trimmed first field is InvalidTarget whether or not a second field exists, so the target is checked before the second field is needed; a parsable target with no second field is MissingColon; any success has every value in the range of long |
| Equations.ParseFields | BridgeRepair/Models/Equation.cs:7-14 | for "a:b" with no other colon: success iff a and every space-separated token of trimmed b parse; the target is a's value and the operands are the tokens' values in order; an unparsable a is InvalidTarget, any other failure is InvalidOperand |
| Equations.ReadTwoFields | BridgeRepair/Models/Equation.cs:8-12 | the same characterisation (ReadsAs) for the two fields taken directly |
| Equations.SecondColonIgnored | BridgeRepair/Models/Equation.cs:7-9 | text after a second colon does not change the result |
| Equations.NoColonRejected | BridgeRepair/Models/Equation.cs:7-9 | a line with no colon fails: on the target if it is not a number, and on the missing second field otherwise |
| Equations.NoOperands | BridgeRepair/Models/Equation.cs:9-12 | "T:" followed only by spaces parses to an equation with no operands |
| Equations.RepeatedSpaces | BridgeRepair/Models/Equation.cs:10 | a run of two spaces between operands tokenises the same as one space |
| Equations.SelectAll | BridgeRepair/Models/Equation.cs:11-12 | the mapped array exists iff every element converts; it then has one converted value per element, in order |
| Equations.ParseAllShows | BridgeRepair/Models/Equation.cs:11-12 | every printed operand parses back to itself |
| Equations.Tokens | BridgeRepair/Models/Equation.cs:10 | every token is non-empty and holds no space; RepeatedSpaces, NoOperands and OperandTokens characterise the tokenisation further |
| Equations.Format | BridgeRepair/Program.cs:113 | definition of the `{TestValue}: {string.Join(" ", Numbers)}` part of the printed line, after the `  ✓ ` marker; characterised by RoundTrip |
| Equations.OperandTokens | BridgeRepair/Program.cs:113 | the printed operand field, after trimming and splitting, gives back the printed operands |
| Equations.RoundTrip | BridgeRepair/Program.cs:113 | parsing the `{TestValue}: {string.Join(" ", Numbers)}` text of an in-range equation, without the `  ✓ ` marker that precedes it, gives the equation back |
| Text.Split | BridgeRepair/Models/Equation.cs:7 | there is at least one piece, no piece holds the separator, and joining the pieces with it restores the input |
| Text.Join | BridgeRepair/Program.cs:113 | definition of String.Join; characterised by SplitJoin, JoinAvoids and JoinTrimmed |
| Text.SplitNoSep | BridgeRepair/Models/Equation.cs:7 | a string with no separator is a single piece |
| Text.SplitAround | BridgeRepair/Models/Equation.cs:7 | splitting at one separator splits the two sides independently |
| Text.SplitFields | BridgeRepair/Models/Equation.cs:7 | a line with exactly one separator splits into the text before it and the text after it |
| Text.SplitJoin | BridgeRepair/Models/Equation.cs:10 | Split undoes Join when no piece holds the separator |
| Text.JoinAvoids | BridgeRepair/Program.cs:113 | a character in no piece, other than the separator, is absent from the join |
| Text.JoinTrimmed | BridgeRepair/Program.cs:113 | joining non-empty trimmed pieces with spaces gives a trimmed string |
| Text.RemoveEmpty | BridgeRepair/Models/Equation.cs:10 | keeps exactly the non-empty pieces, and never lengthens the list |
| Text.RemoveEmptyConcat | BridgeRepair/Models/Equation.cs:10 | removing empty pieces commutes with concatenation |
| Text.RemoveEmptyNoop | BridgeRepair/Models/Equation.cs:10 | nothing is removed from a list of non-empty pieces |
| Text.TrimStart | BridgeRepair/Models/Equation.cs:7 | the result is no longer than the input and does not start with white space |
| Text.TrimStartDrops | BridgeRepair/Models/Equation.cs:7 | TrimStart keeps a suffix and drops only white space |
| Text.TrimEnd | BridgeRepair/Models/Equation.cs:7 | the result is no longer than the input and does not end with white space |
| Text.TrimEndDrops | BridgeRepair/Models/Equation.cs:7 | TrimEnd keeps a prefix and drops only white space |
| Text.Trim | BridgeRepair/Models/Equation.cs:7 | the result has no white space at either end and is no longer than the input |
| Text.TrimIdentity | BridgeRepair/Models/Equation.cs:7 | Trim leaves a string unchanged iff neither of its ends is white space |
| Text.TrimIdempotent | BridgeRepair/Models/Equation.cs:7 | trimming twice is trimming once |
| Text.TrimAllWhite | BridgeRepair/Models/Equation.cs:7 | a string of white space trims to the empty string |
| Text.TrimLeadingSpace | BridgeRepair/Models/Equation.cs:7 | a space in front of a trimmed string is all that Trim removes |
| Text.ShowNat | BridgeRepair/Program.cs:113 | the rendering is a non-empty string of digits whose decimal value is n |
| Text.Show | BridgeRepair/Program.cs:113 | the rendering of a long is non-empty and has no white space at its ends |
| Text.ShowAlphabet | BridgeRepair/Program.cs:113 | the rendering uses only digits and the minus sign |
| Text.ParseLong | BridgeRepair/Models/Equation.cs:8 | a parsed value lies in the range of long |
| Text.ParseSigned | BridgeRepair/Models/Equation.cs:8 | the same, for an already trimmed string |
| Text.ParseLongRejects | BridgeRepair/Models/Equation.cs:8 | a string that is empty after trimming, starts with neither a digit nor a sign, or has a non-digit after its first character fails to parse |
| Text.ParseShow | BridgeRepair/Models/Equation.cs:8 | parsing the rendering of an in-range value gives that value |
| Text.ParseLongTrim | BridgeRepair/Models/Equation.cs:7-8 | trimming before parsing changes nothing |
| Search.AdmissibleCons | BridgeRepair/Solvers/RecursiveSolver.cs:28-36 | a path is admissible iff its first step stays within the target and the rest of the path is admissible from there |
| Search.ReachLast | BridgeRepair/Solvers/RecursiveSolver.cs:20-23 | at the last operand, finishing is possible iff the value equals the target |
| Search.ReachStep | BridgeRepair/Solvers/RecursiveSolver.cs:25-41 | before the last operand, finishing is possible iff the sum or the product stays within the target and can finish |
| Search.TraceBelowEval | BridgeRepair/Solvers/RecursiveSolver.cs:27-37 | with a non-negative start and positive operands, every intermediate value lies between the start and the final value |
| Search.PruningSound | BridgeRepair/Solvers/RecursiveSolver.cs:27-37 | when the first operand (if any) is non-negative and every later one positive, pruned and unpruned solvability coincide; equations with fewer than two operands included |
| Search.PruningLosesZeroPath | BridgeRepair/Solvers/RecursiveSolver.cs:27-37 | 5: 3 10 0 5 is reachable as (3 + 10) * 0 + 5 but not solvable with pruning |
| Search.Children | BridgeRepair/Solvers/DfsSolver.cs:30-44 | at most two new states, each one operand further on and within the target |
| Search.SeedReaches | BridgeRepair/Solvers/DfsSolver.cs:15-16 | the initial worklist satisfies the invariant, and it can reach the target iff the equation is solvable |
| Search.DropFinal | BridgeRepair/Solvers/DfsSolver.cs:23-28 | dropping a final state that misses the target keeps the invariant and what can be reached, and lowers the weight |
| Search.ExpandKeepsInvariant | BridgeRepair/Solvers/DfsSolver.cs:30-44 | replacing a state by its children keeps the worklist invariant |
| Search.ExpandKeepsReach | BridgeRepair/Solvers/DfsSolver.cs:30-44 | replacing a state by its children keeps what the worklist can reach |
| Search.ExpandLightens | BridgeRepair/Solvers/DfsSolver.cs:30-44 | replacing a state by its children lowers the worklist weight |
| Search.TakenWeight | BridgeRepair/Solvers/DfsSolver.cs:20 | taking a state off the worklist removes exactly that state and its weight |
| Search.NoSeedLeft | BridgeRepair/Solvers/DfsSolver.cs:16-20 | once the first state is taken off, no state at index 0 is left |
| Search.ChildrenWeighLess | BridgeRepair/Solvers/DfsSolver.cs:30-44 | a state's children weigh less than the state |
| RecursiveSolver.CanSolve | BridgeRepair/Solvers/RecursiveSolver.cs:9-15 | true iff the equation is solvable; false with fewer than two operands |
| RecursiveSolver.CanSolveRecursive | BridgeRepair/Solvers/RecursiveSolver.cs:17-42 | true iff the operands after index can be folded into currentValue along an admissible path that ends on the target |
| RecursiveSolver.SolvesProduct | BridgeRepair/Solvers/RecursiveSolver.cs:9-15 | 190: 10 19 is accepted |
| RecursiveSolver.SolvesTwoSteps | BridgeRepair/Solvers/RecursiveSolver.cs:9-15 | 3267: 81 40 27 is accepted |
| RecursiveSolver.RejectsUnreachable | BridgeRepair/Solvers/RecursiveSolver.cs:9-15 | 83: 17 5 is rejected |
| DfsSolver.CanSolve | BridgeRepair/Solvers/DfsSolver.cs:10-48 | true iff the equation is solvable, so it agrees with the recursive solver |
| BfsSolver.CanSolve | BridgeRepair/Solvers/BfsSolver.cs:10-48 | true iff the equation is solvable, so it agrees with the recursive solver |
| BfsSolver.LevelledStep | BridgeRepair/Solvers/BfsSolver.cs:18-44 | dequeuing the front and enqueuing states one level deeper keeps the queue in level order |
| Solvers.CanSolve | BridgeRepair/Solvers/IBridgeRepairSolver.cs:5-9 | whichever solver is chosen, the answer is solvability, the same for all three |
| Solvers.TotalCalibration | BridgeRepair/Program.cs:98-108 | the total is the sum of the targets of the solvable equations; the collected list is the input filtered by solvability, in input order with repeats kept, so it holds exactly the solvable input equations |
| Solvers.SolvableOnesMembers | BridgeRepair/Program.cs:101-107 | the filtered list holds an equation iff it is in the input and solvable |
| Solvers.TotalMatchesBruteForce | BridgeRepair/Program.cs:98-108 | with non-negative first operands (where there is one) and positive later ones, that total equals the total from unpruned search |

## Left out

- Integer width. Every integer is unbounded. Nothing models 64-bit wrap-around of the operands, the running value (`currentValue + nextNumber`, `currentValue * nextNumber`), the `int` index or the calibration total.
- RecursiveSolver.CanSolveRecursive: assumes the sums and products do not wrap. With wrap-around, an overflowing product could come out at or below the target and be explored.
- DfsSolver.CanSolve: the same assumption as the recursive solver.
- BfsSolver.CanSolve: the same assumption as the recursive solver.
- Solvers.TotalCalibration: the running total is not reduced modulo 2^64.
- Text.ParseLong: the model leaves out trailing NUL characters, which `Int64.Parse` accepts, and signs that depend on the culture. Its white-space set (U+0009 to U+000D and space) is the one `Int64.Parse` uses.
- Text.ParseLong: a format error and an overflow both give `None`, so `Parse` reports both as the same error.
- Text.Trim: `String.Trim`, and so `TrimEntries`, also strips Unicode white space such as U+00A0. The model strips only U+0009 to U+000D and space, so a line such as "\u00A05: 1 2", which .NET accepts, is InvalidTarget here.
- Equations.Parse: the exceptions become the `ParseError` values. The model does not capture that the driver crashes on the first malformed line.
- Equations.RoundTrip: covers the rendered equation only, not the whole printed line; `Parse` rejects the line with its `  ✓ ` marker, since the first field then is not a number.
- Program.cs file discovery, file reading, the filter on blank lines and all console output are I/O and are not modelled. `Solvers.TotalCalibration` starts from the parsed equations. The printed line format is modelled as `Equations.Format`, for the round trip.
- Solver names (`Name` properties) are constants and are not specified.
- The stack and queue are immutable sequences that the loops reassign. Neither the `Stack<T>` and `Queue<T>` objects nor their memory use are modelled.
- Performance and the exploration order are not modelled. The DFS push order (product, then sum) and the BFS enqueue order (sum, then product) are reproduced but not specified. For BFS, only its level order is proved.

Non-negative operands are not enough for pruning to be harmless: a zero operand can bring an over-target value back down
(`Search.PruningLosesZeroPath`). `Search.PruningSound` needs positive operands after the first.
