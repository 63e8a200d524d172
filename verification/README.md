# VRPTW solver core in Dafny

A model of the discrete core of a local-search solver for the vehicle
routing problem with time windows (VRPTW). Customers are numbered
0..n-1, with 0 the depot. Fixed vehicles 1..|q| each have their own
capacity `q[k-1]`. The "type-0" vehicle may be used any number of times,
each time with capacity `q0`. A solution is a list of routes; each route
is a vehicle id and the customers it visits in order.

The model covers five parts:

- **`Piecewise`** (`piecewise.dfy`): the piecewise-constant function
  algebra, with first-match evaluation, `Shift`, `AddPiece`, `Add` and the
  leftmost-greedy `Min` envelope. Each operation is related to its
  pointwise meaning.
- **`PenaltyEvaluator`** (`penalty.dfy`): the dynamic programme
  `getMinPenalty`. It is proved equal to the fewest missed time windows over
  all timetables that respect travel times and return to the depot in time.
- **`Routes`, `Instances`, `SolutionText`** (`routes.dfy`, `instances.dfy`,
  `solution_text.dfy`):
  - the route and solution values, `ExtendWithDepots` and `Clone`;
  - the capacity-only checker `isValid`;
  - the text form `Solution.ToString`, with a decoder proving it
    loses nothing.
- **`InitialSolution`** (`initial.dfy`): the greedy construction
  `createInitialSolution`, including the shared-list defect of its type-0
  phase (see Findings).
- **`Neighbourhoods`** (`neighbourhoods.dfy`): the five neighbourhood
  generators `intraRoute`, `twoOpt`, `crossExchange`, `replaceVehicle` and
  `addVehicle`.
  - Each enumerates move records in the order of the solver's nested loops.
  - For each, the enumerated list is proved to hold exactly the moves that
    satisfy a predicate.
  - Each move is given what it preserves and an inverse move.

`collections.dfy` holds shared vocabulary: `Option`, integer intervals, and
the concatenation a counted or foreach loop collects.

Instance data are given as inputs: demand, capacities, `q0`, windows, and
the integer travel-time matrix `t`. Integers are unbounded. `int.MinValue`
and `int.MaxValue` as breakpoints become the `NegInf`/`PosInf`
constructors of `Piecewise.Bound`.

Where the code and the design description disagree, the model follows the
code:

- `replaceVehicle` never touches the last route (loop bound `Count - 1`),
  rather than trying every route.
- The fixed phase of the construction stops at the first vehicle that
  loads nothing. Customers left over go to type-0 vehicles; there is no
  further overflow into the remaining fixed vehicles.
- The construction fails only when a customer left for the type-0 phase
  exceeds `q0`, not when any customer does.
- `isValid` checks capacity only. A solution passing it need not serve
  every customer exactly once, and the construction's shared-list defect
  produces such solutions.
- `PenaltyFunction(s, e, p)` evaluates to `p` at `x = s`, because the
  first piece wins, so the zero window is `(s, e]`.

## Model

| member | source | states |
|---|---|---|
| Routes.ExtendWithDepots | vrptw/Implementation/Solver/Route.cs:13-19 | the list has two more elements than the route, starts and ends with the depot 0, and holds the customers in order between them |
| Routes.Clone | vrptw/Implementation/Solver/Solution.cs:12-28 | the copy has the same number of routes in the same order, each with the same vehicle and an equal customer list, so it equals the original as a value |
| Instances.IsValid | vrptw/Implementation/Solver/RoutingTaskSolver.cs:390-418 | the loop accepts exactly when every route's summed demand is within its vehicle's capacity (q0 for vehicle 0, q[v-1] otherwise) |
| Instances.LoadAppend | vrptw/Implementation/Solver/RoutingTaskSolver.cs:395-399 | the summed demand of two concatenated customer lists is the sum of their loads |
| Piecewise.Zero | vrptw/Implementation/Solver/PiecewiseLinearFunction.cs:23-27 | the default function is well-formed and evaluates to 0 everywhere |
| Piecewise.PenaltyFunction | vrptw/Implementation/Solver/PiecewiseLinearFunction.cs:34-42 | three pieces, well-formed when s < e, value 0 exactly on (s, e] and p elsewhere (including at x = s) |
| Piecewise.EvalFirstMatch | vrptw/Implementation/Solver/PiecewiseLinearFunction.cs:140-150 | the value at x is that of the first piece whose closed interval holds x |
| Piecewise.EvalNoMatch | vrptw/Implementation/Solver/PiecewiseLinearFunction.cs:140-150 | the value is 0 when no piece holds x |
| Piecewise.EvalHalfOpen | vrptw/Implementation/Solver/PiecewiseLinearFunction.cs:140-150 | on a chain of pieces, each piece owns the half-open interval (lo, hi] |
| Piecewise.Shift | vrptw/Implementation/Solver/PiecewiseLinearFunction.cs:44-59 | keeps the piece count, the values and the infinities; keeps well-formedness; the result at x is the input at x + v |
| Piecewise.SplitAt | vrptw/Implementation/Solver/PiecewiseLinearFunction.cs:103-111 | splitting the first piece that strictly contains a point adds at most one piece, keeps both ends and changes no value |
| Piecewise.SplitAtChain | vrptw/Implementation/Solver/PiecewiseLinearFunction.cs:103-121 | after a split, the pieces still chain and none strictly contains the split point or any point no piece contained before |
| Piecewise.BumpEval | vrptw/Implementation/Solver/PiecewiseLinearFunction.cs:123-134 | once the function is split at lo and hi, the increment loop adds d exactly on (lo, hi] |
| Piecewise.AddPiece | vrptw/Implementation/Solver/PiecewiseLinearFunction.cs:94-138 | a zero value or an empty interval leaves the function unchanged; otherwise at most two pieces are added |
| Piecewise.AddPieceEval | vrptw/Implementation/Solver/PiecewiseLinearFunction.cs:94-138 | on a well-formed function, the result is well-formed and differs by exactly d on (lo, hi] and nowhere else |
| Piecewise.AddAllEval | vrptw/Implementation/Solver/PiecewiseLinearFunction.cs:83-92 | folding pieces into g adds each piece's value on its (lo, hi] and keeps g well-formed |
| Piecewise.AddEval | vrptw/Implementation/Solver/PiecewiseLinearFunction.cs:83-92 | Add of two well-formed functions is well-formed and is their pointwise sum |
| Piecewise.MinFrom | vrptw/Implementation/Solver/PiecewiseLinearFunction.cs:67-78 | the scan keeps the first piece's lower bound and value, ends at the last upper bound, never grows the list, and yields strictly decreasing values |
| Piecewise.Min | vrptw/Implementation/Solver/PiecewiseLinearFunction.cs:61-81 | the envelope never grows the piece count, keeps the first lower and last upper bound, has strictly decreasing values and keeps well-formedness |
| Piecewise.MinFromEval | vrptw/Implementation/Solver/PiecewiseLinearFunction.cs:67-78 | the scan's value at x is the least value among the pieces up to the one owning x |
| Piecewise.MinEval | vrptw/Implementation/Solver/PiecewiseLinearFunction.cs:61-81 | Min at x equals the prefix minimum of the input's pieces at x |
| Piecewise.MinIsPrefixMinimum | vrptw/Implementation/Solver/PiecewiseLinearFunction.cs:61-81 | Min at x is at most the input at every y <= x and equal to it at some y <= x |
| Piecewise.MinNonIncreasing | vrptw/Implementation/Solver/PiecewiseLinearFunction.cs:61-81 | Min's result never increases with x |
| PenaltyEvaluator.RelaxedEval | vrptw/Implementation/Solver/RoutingTaskSolver.cs:504-507 | shifting f[h-1] by the travel time and adding the stop's penalty function gives f[h-1] at the departure time plus the stop's penalty, and stays well-formed |
| PenaltyEvaluator.StepSucceeds | vrptw/Implementation/Solver/RoutingTaskSolver.cs:504-507 | with non-empty windows and f[h-1] in 0..h-1, the Min in the step cannot hit its int.MaxValue crash |
| PenaltyEvaluator.StepBounded | vrptw/Implementation/Solver/RoutingTaskSolver.cs:498-508 | one step takes a function with values in 0..h-1 to a well-formed one with values in 0..h |
| PenaltyEvaluator.FrontierFacts | vrptw/Implementation/Solver/RoutingTaskSolver.cs:495-508 | every f[h] exists, is well-formed, and lies in 0..h |
| PenaltyEvaluator.FrontierNonIncreasing | vrptw/Implementation/Solver/RoutingTaskSolver.cs:496-508 | every f[h] is non-increasing in time |
| PenaltyEvaluator.FrontierLowerBound | vrptw/Implementation/Solver/RoutingTaskSolver.cs:498-508 | f[h] at x is at most the penalty of every timetable for stops 1..h whose last visit is no later than x |
| PenaltyEvaluator.FrontierAttained | vrptw/Implementation/Solver/RoutingTaskSolver.cs:498-508 | some such timetable has exactly the penalty f[h](x) |
| PenaltyEvaluator.MinPenaltyOptimal | vrptw/Implementation/Solver/RoutingTaskSolver.cs:489-511 | getMinPenalty succeeds, lies in 0..k+1, is at most the penalty of every timetable back at the depot by its closing time, and equals that of one such timetable |
| SolutionText.IntTextRoundTrip | vrptw/Implementation/Solver/Solution.cs:36-40 | reading back the decimal text of any integer gives the integer |
| SolutionText.TextLines | vrptw/Implementation/Solver/Solution.cs:30-46 | the text is the route count on the first line, then exactly one line per route in order, each ended by a newline |
| SolutionText.LineFields | vrptw/Implementation/Solver/Solution.cs:36-42 | a route line is the vehicle id, then 0, each customer and 0, separated by single blanks |
| SolutionText.RouteLineRoundTrip | vrptw/Implementation/Solver/Solution.cs:34-43 | every route line decodes back to its route |
| SolutionText.TextRoundTrip | vrptw/Implementation/Solver/Solution.cs:30-46 | decoding the text of any solution gives the solution back |
| SolutionText.TextInjective | vrptw/Implementation/Solver/Solution.cs:30-46 | two solutions have the same text exactly when they are equal |
| InitialSolution.FleetMembers | vrptw/Implementation/Solver/RoutingTaskSolver.cs:128 | any rearrangement of the fleet has one entry per fixed vehicle, each with an id between 1 and the number of fixed vehicles and that vehicle's own capacity q[id-1] |
| InitialSolution.SortByCapacity | vrptw/Implementation/Solver/RoutingTaskSolver.cs:128 | the sort is a permutation of its input |
| InitialSolution.SortSorted | vrptw/Implementation/Solver/RoutingTaskSolver.cs:128 | on a list in id order the result is in descending capacity, ties in id order (stable) |
| InitialSolution.TryOrder | vrptw/Implementation/Solver/RoutingTaskSolver.cs:128 | the try order is a sorted permutation of the fleet, each entry a real vehicle with its own capacity |
| InitialSolution.TryOrderDistinct | vrptw/Implementation/Solver/RoutingTaskSolver.cs:128 | no vehicle appears twice in the try order |
| InitialSolution.RunLoadIsLoad | vrptw/Implementation/Solver/RoutingTaskSolver.cs:137-150 | the demand the loading loop adds up customer by customer equals the route load isValid sums for the run it produced |
| InitialSolution.LoadFromFacts | vrptw/Implementation/Solver/RoutingTaskSolver.cs:137-150 | the loading loop's running load is the summed demand of the customers taken, fits the capacity, and the next customer would overflow it |
| InitialSolution.RunFull | vrptw/Implementation/Solver/RoutingTaskSolver.cs:137-165 | a vehicle that loads something gets a non-empty run of consecutive customers with positive load within its capacity, and the next customer would not fit |
| InitialSolution.FixedVehicles | vrptw/Implementation/Solver/RoutingTaskSolver.cs:135-178 | the k-th fixed route uses the k-th vehicle of the try order |
| InitialSolution.FixedCover | vrptw/Implementation/Solver/RoutingTaskSolver.cs:152-171 | the fixed routes together serve customers last+1 .. last served, in order, each once |
| InitialSolution.FixedRuns | vrptw/Implementation/Solver/RoutingTaskSolver.cs:137-165 | every fixed route is a full run for its vehicle's capacity |
| InitialSolution.FixedStops | vrptw/Implementation/Solver/RoutingTaskSolver.cs:166-176 | the phase ends only when the last customer is served, the vehicles run out, or the next vehicle loads nothing |
| InitialSolution.FixedSolution | vrptw/Implementation/Solver/RoutingTaskSolver.cs:134-178 | the fixed routes are feasible, use distinct non-zero vehicles, and serve customers 1 .. last served |
| InitialSolution.PackFails | vrptw/Implementation/Solver/RoutingTaskSolver.cs:185-190 | the type-0 packing fails exactly when some remaining customer alone exceeds q0 |
| InitialSolution.PackCover | vrptw/Implementation/Solver/RoutingTaskSolver.cs:185-207 | the flushed batches and the open batch hold the remaining customers in order |
| InitialSolution.PackKeeps | vrptw/Implementation/Solver/RoutingTaskSolver.cs:191-206 | every flushed batch is non-empty and within q0, and so is the open batch once it holds a customer |
| InitialSolution.PackBatchNonEmpty | vrptw/Implementation/Solver/RoutingTaskSolver.cs:205-208 | after at least one step the open batch is non-empty, so the final route is always emitted |
| InitialSolution.TypeZeroFacts | vrptw/Implementation/Solver/RoutingTaskSolver.cs:180-215 | the type-0 batches all fit q0 and together serve the customers after the fixed phase, in order |
| InitialSolution.CreateFails | vrptw/Implementation/Solver/RoutingTaskSolver.cs:180-190 | the construction returns null exactly when a customer left after the fixed phase exceeds q0, with or without the shared list |
| InitialSolution.CreateFeasible | vrptw/Implementation/Solver/RoutingTaskSolver.cs:126-225 | a solution the construction returns always passes isValid and uses each fixed vehicle at most once |
| InitialSolution.SharingHarmless | vrptw/Implementation/Solver/RoutingTaskSolver.cs:184-214 | the shared list changes the result exactly when the type-0 phase flushes a batch |
| InitialSolution.SharingBreaksPartition | vrptw/Implementation/Solver/RoutingTaskSolver.cs:198-214 | whenever a batch is flushed, the returned solution serves some customer twice and is not a partition of the customers |
| InitialSolution.SharingCounterexample | vrptw/Implementation/Solver/RoutingTaskSolver.cs:184-214 | on a two-customer instance the construction returns two type-0 routes that both serve customer 2 |
| InitialSolution.CreateIntendedCorrect | vrptw/Implementation/Solver/RoutingTaskSolver.cs:126-225 | with a fresh list per type-0 route the result serves every customer 1..n-1 exactly once, passes isValid and uses each fixed vehicle at most once |
| InitialSolution.SharingIntended | vrptw/Implementation/Solver/RoutingTaskSolver.cs:184-214 | with a fresh list per route the same instance gets customers 1 and 2 on separate routes |
| Neighbourhoods.KeepValid | vrptw/Implementation/Solver/RoutingTaskSolver.cs:257 | the filter keeps exactly the candidates that pass isValid and never lengthens the list |
| Neighbourhoods.KeepValidAll | vrptw/Implementation/Solver/RoutingTaskSolver.cs:257 | when every candidate passes isValid, the filter returns the candidate list whole and in order |
| Neighbourhoods.KeepValidAppend | vrptw/Implementation/Solver/RoutingTaskSolver.cs:257 | the filter keeps generation order: filtering two lists one after the other gives the filtered first list followed by the filtered second |
| Neighbourhoods.MoveSegmentPerm | vrptw/Implementation/Solver/RoutingTaskSolver.cs:245-249 | removing a segment and reinserting it elsewhere permutes the route's customers |
| Neighbourhoods.MoveSegmentBack | vrptw/Implementation/Solver/RoutingTaskSolver.cs:245-249 | moving the segment back to its old index restores the route |
| Neighbourhoods.IntraMovesMember | vrptw/Implementation/Solver/RoutingTaskSolver.cs:234-241 | the loops enumerate exactly the moves with a length of 2 or 3, a start leaving a customer after the segment, and a different target within the length and leaving a customer after it |
| Neighbourhoods.IntraRouteNeighbours | vrptw/Implementation/Solver/RoutingTaskSolver.cs:229-258 | a solution is an intraRoute neighbour exactly when it passes isValid and some such move produces it |
| Neighbourhoods.IntraMoveShape | vrptw/Implementation/Solver/RoutingTaskSolver.cs:243-249 | a move changes only its route, keeping the vehicle, the length and the customers' multiset |
| Neighbourhoods.IntraMoveKeeps | vrptw/Implementation/Solver/RoutingTaskSolver.cs:243-249 | the solution's customer bag is kept, and fixed vehicles are unique after the move exactly when they were before |
| Neighbourhoods.IntraMoveBack | vrptw/Implementation/Solver/RoutingTaskSolver.cs:243-249 | moving the segment back is again a valid move and restores the solution |
| Neighbourhoods.TwoOptMovesMember | vrptw/Implementation/Solver/RoutingTaskSolver.cs:264-271 | the loops enumerate exactly the route pairs i < j with split points leaving both a non-empty head and a non-empty tail |
| Neighbourhoods.TwoOptNeighboursMember | vrptw/Implementation/Solver/RoutingTaskSolver.cs:260-287 | a solution is a twoOpt neighbour exactly when it passes isValid and some such move produces it |
| Neighbourhoods.TwoOptKeeps | vrptw/Implementation/Solver/RoutingTaskSolver.cs:272-278 | the two routes exchange tails and keep their vehicles, all other routes are unchanged, and the bag and fixed-vehicle uniqueness are kept |
| Neighbourhoods.TwoOptInvolution | vrptw/Implementation/Solver/RoutingTaskSolver.cs:272-278 | the same move applied again is valid and restores the solution |
| Neighbourhoods.CrossMovesMember | vrptw/Implementation/Solver/RoutingTaskSolver.cs:295-303 | the loops enumerate exactly the lengths 2 and 3, pairs i < j, and segment starts that leave a customer after each segment |
| Neighbourhoods.CrossNeighboursMember | vrptw/Implementation/Solver/RoutingTaskSolver.cs:289-322 | a solution is a crossExchange neighbour exactly when it passes isValid and some such move produces it |
| Neighbourhoods.CrossPerm | vrptw/Implementation/Solver/RoutingTaskSolver.cs:307-312 | swapping two equal-length segments keeps the two lists' customers together |
| Neighbourhoods.CrossKeeps | vrptw/Implementation/Solver/RoutingTaskSolver.cs:305-312 | only routes i and j change; they keep their vehicles and lengths, and the bag and fixed-vehicle uniqueness are kept |
| Neighbourhoods.CrossInvolution | vrptw/Implementation/Solver/RoutingTaskSolver.cs:305-312 | exchanging the same segments again is valid and restores the solution |
| Neighbourhoods.UnusedMember | vrptw/Implementation/Solver/RoutingTaskSolver.cs:328-330 | the unused list holds exactly the fixed vehicles 1..|q| that no route uses |
| Neighbourhoods.ReplaceMovesMember | vrptw/Implementation/Solver/RoutingTaskSolver.cs:332-347 | the loops enumerate exactly the routes other than the last, each with an unused fixed vehicle, or with vehicle 0 when it has another |
| Neighbourhoods.ReplaceNeighboursMember | vrptw/Implementation/Solver/RoutingTaskSolver.cs:324-350 | a solution is a replaceVehicle neighbour exactly when it passes isValid and some such move produces it |
| Neighbourhoods.ReplaceKeeps | vrptw/Implementation/Solver/RoutingTaskSolver.cs:336-345 | only one vehicle id changes: every route keeps its customers, the last route is untouched, the bag is kept and fixed vehicles stay unique |
| Neighbourhoods.ReplaceBack | vrptw/Implementation/Solver/RoutingTaskSolver.cs:336-345 | on a solution meeting the solver's invariant, giving the old vehicle back is again a move and restores the solution |
| Neighbourhoods.AddMovesMember | vrptw/Implementation/Solver/RoutingTaskSolver.cs:356-364 | the loops enumerate exactly an unused fixed vehicle or vehicle 0, any route, and a split leaving a non-empty head and tail |
| Neighbourhoods.AddNeighboursMember | vrptw/Implementation/Solver/RoutingTaskSolver.cs:352-385 | a solution is an addVehicle neighbour exactly when it passes isValid and some such move produces it |
| Neighbourhoods.AddKeeps | vrptw/Implementation/Solver/RoutingTaskSolver.cs:366-375 | the route keeps its non-empty head, its non-empty tail becomes a new last route with the new vehicle, other routes are unchanged, the bag is kept and fixed vehicles stay unique |
| Neighbourhoods.AddMergeBack | vrptw/Implementation/Solver/RoutingTaskSolver.cs:366-375 | merging the new route back undoes the split |

## Left out

- The constructor of the solver (distances by `Math.Sqrt` and `(int)` truncation) is not modelled. The travel-time matrix `t` is an input.
- Reading the instance file, the command-line program and the random case generator are file I/O and floating point, and are not modelled.
- `evaluate`/`evaluateDetailed` and the `solve` loop are not modelled. They use a double-valued objective, a parallel loop whose tie-breaking is a race, and a loop with no termination measure.
- 32-bit overflow of shifted breakpoints and summed values is not modelled: integers are unbounded.
- The one 32-bit effect that changes control flow is kept: `Min`'s running minimum starts at `int.MaxValue`.
- Piecewise.Min: requires the first value to be below `int.MaxValue`. Otherwise the solver indexes an empty list. The evaluator models that crash as `None` (`PenaltyEvaluator.Step`).
- PenaltyEvaluator.MinPenaltyOptimal: assumes every window on the route is non-empty (start < end) and the route is shorter than `int.MaxValue`. With an empty window the penalty function is not well-formed, and nothing is claimed about the result.
- Aliasing of the mutable `Triplet` objects is not modelled. `Add` changes its argument's triplets through a shallow `Clone` (PiecewiseLinearFunction.cs:85), and `AddPiece` changes its receiver's (lines 108, 118 and 127). In `getMinPenalty` both are temporaries, so the values computed are unaffected. `Min` copies its pieces with `Triplet.Create` (line 71), so its write at line 76 reaches only its own copy. Functions are immutable values here.
- `PiecewiseLinearFunction.Clone` is the identity on values and has no member of its own.
- Routes.Clone: freshness of the copied lists (editing the copy cannot change the original) holds trivially for immutable values; only equality is stated.
- The platform newline of `ToString` is modelled as "\n".
- Neighbourhoods.KeepValid: filters with the `Feasible` predicate rather than calling the `isValid` method. `Instances.IsValid` proves the two agree on every solution whose ids are in range. On ids out of range the solver's `isValid` would index outside its arrays; that crash is not modelled.
- Cloning inside the generators is implicit: every move builds a new value.

## Findings

| source | as written | input that shows it | evidently intended | confidence | as-written member | corrected member |
|---|---|---|---|---|---|---|
| vrptw/Implementation/Solver/RoutingTaskSolver.cs:184-214 | every type-0 route is given the same `currentList`, which is cleared and refilled at each flush, so all type-0 routes end up holding the last batch | no fixed vehicles, q0 = 10, customers 1 and 2 with demand 6 each: the result is two type-0 routes both serving customer 2, and customer 1 is not served | each flushed batch keeps its own list, so customers 1..n-1 are served exactly once | not executed | InitialSolution.SharingCounterexample | InitialSolution.CreateIntendedCorrect |
