# Firefighter dispatch, modelled in Dafny

This project models the dispatch engine of a small firefighting simulation. A city has a
fire station and buildings on integer grid coordinates, some of which are burning. A
dispatcher holds a roster of firefighters and, given a batch of burning buildings, sends
them out so that every fire is put out. Each firefighter accumulates the Manhattan
distance it walks.

There are two solvers:

- **The exact solver (`bruteForce`)** is used for at most one firefighter and at most
  ten buildings. It lists every ordering of the buildings by repeated insertion (`permute`).
  It keeps the first cheapest ordering, costed from the fire station (`calcPathCost`),
  and walks it.
- **The greedy solver (`greedyDispatch`)** is used for more than one firefighter or
  more than ten buildings. It keeps a firefighter × building distance matrix. A
  `Integer.MAX_VALUE` sentinel marks a building that is not burning or already taken.
  Each step takes the candidate moves (`getPossibleMoves`) and narrows them by three
  tie-break tiers, each applied with `getMins`:
  1. least distance (`moveToDist`);
  2. largest column sum, i.e. the building farthest from everyone (`moveToColumnSum`);
  3. least distance travelled so far (`moveToDistTraveled`).

  It then commits the first survivor: it puts the fire out, moves the firefighter,
  recomputes that firefighter's row and blanks the building's column.

The model follows the Java code in `FireDispatchImpl` and `FirefighterImpl`:

| file | what it holds |
|---|---|
| `results.dfy` | `Option`, `Result`, the escaping Java exceptions, and the `Outcome` of a `void` call |
| `geometry.dfy` | coordinates, Manhattan distance, the length of a walk (`RouteLength`) and where it ends |
| `firefighters.dfy` | class `Firefighter`: `location`, `distanceTraveled`, ghost `origin` and `route` |
| `city.dfy` | class `City`, a stand-in for the city: fire station and burning flags; `Extinguish` |
| `moves.dfy` | the `Move` record and the matrix's enumeration order |
| `permutations.dfy` | `permute`: the specification `Generated` and the imperative triple loop |
| `tours.dfy` | `calcPathCost`, the first cheapest ordering, the exact tour and its optimality, and which stops of a walk put a fire out |
| `selection.dfy` | the pure view of the greedy step: candidates, `getMins`, the three tiers, and `Choose` with its lexicographic characterisation |
| `greedy.dfy` | `greedyDispatch` as a function of the values it reads and writes: the start state, one iteration (`Advance`) and the whole run (`GreedyRun`) |
| `dispatch.dfy` | class `FireDispatch`: roster, `array2` distance matrix, every operation of the dispatcher, proved to follow the greedy run, and the greedy-progress invariant |
| `scenarios.dfy` | the two-fire test worked through the exact solver, the two-firefighter test worked through the greedy run and the dispatcher, and a building that does not burn sent to each solver |

The state that the source updates in place is modelled as classes:

- the roster is a `seq<Firefighter>` field;
- the distance matrix is an `array2<Cell>`;
- each firefighter's location and distance are fields;
- the city's burning flags are a `map` field.

Every loop of the source is a `while` loop with invariants. Each method is proved against
a pure function (`Generated`, `Candidates`, `Minimal`, `Narrow`, `Choose`, `Cheapest`,
`ExactTour`, `Visited`, `RouteLength`, `GreedyRun`). The properties the source promises are proved
about those functions:

- `permute` returns every ordering (`Permutations.GeneratedComplete`), and for distinct
  numbers, as `bruteForce`'s indices 0 .. m-1 are, each exactly once
  (`Permutations.GeneratedOnce`);
- the exact tour is no longer than any other ordering;
- the greedy choice is the lexicographically best candidate, and each greedy step
  commits exactly that choice of the state it starts from;
- a greedy dispatch throws `IndexOutOfBounds` exactly when some step finds no candidate;
- a greedy dispatch of distinct burning buildings with at least one firefighter puts
  them all out, and each firefighter walks exactly the buildings committed to it, in
  order (with no firefighter, a non-empty batch throws `IndexOutOfBounds`).

On an empty batch the code does the following. With at most one firefighter,
`dispatchFirefighters` hands it to `bruteForce`. Its `permute` then reads `nums[0]` of an
empty array and throws. `Dispatch.FireDispatch.DispatchFirefighters` states that outcome
(`Threw(IndexOutOfBounds)`). With more firefighters, `greedyDispatch` runs no step. In both
cases no firefighter moves, and the contract states that too.

## Model

| member | source | states |
|---|---|---|
| Geometry.AbsDistanceIsMetric | src/main/firefighters/FireDispatchImpl.java:171-179 | the Manhattan distance both solvers add up is symmetric, zero exactly between equal nodes, and obeys the triangle inequality |
| Geometry.RouteLengthAppend | src/main/firefighters/FirefighterImpl.java:24-27 | accumulating leg lengths is additive over a walk split in two, and the walk ends where its second part ends |
| Geometry.RouteLengthFirstLeg | src/main/firefighters/FireDispatchImpl.java:171-179 | a walk's cost is the first leg from the start plus the rest walked from the first stop, as `calcPathCost` adds them |
| Geometry.RouteLengthMonotone | src/main/firefighters/FirefighterImpl.java:24-27 | adding stops never decreases the distance travelled |
| Geometry.RouteLengthAtLeastDirect | src/main/firefighters/FirefighterImpl.java:24-27 | the distance travelled is at least the straight Manhattan distance from the start to the current location |
| Firefighters.Firefighter.constructor | src/main/firefighters/FirefighterImpl.java:10-13 | a new firefighter stands at the given location with distance 0 and an empty route |
| Firefighters.Firefighter.UpdateLocation | src/main/firefighters/FirefighterImpl.java:24-27 | moving adds the Manhattan length of the leg and ends at the new location; the distance stays the length of the whole route walked |
| Firefighters.DistanceScenario | src/main/scenarios/BasicScenarios.java:14-20 | the distance test: from (0,0) a walk to (2,3) has travelled 5, and on to (0,5) 9 |
| CityModel.City.Extinguish | src/main/firefighters/FireDispatchImpl.java:250 | putting out a fire succeeds exactly when the building burns (otherwise `NoFireFoundException`); afterwards nothing burns there and every other flag is kept |
| Permutations.LayersCount | src/main/firefighters/FireDispatchImpl.java:40-47 | the middle and innermost loops produce (i+1) lists per list of the previous round |
| Permutations.LayersMember | src/main/firefighters/FireDispatchImpl.java:40-47 | every list produced is an earlier list with the new number inserted at one of the positions 0..i |
| Permutations.LayersLengths | src/main/firefighters/FireDispatchImpl.java:40-47 | inserting into lists of length i gives lists of length i+1 |
| Permutations.LayersContains | src/main/firefighters/FireDispatchImpl.java:40-47 | every insertion position of every earlier list is produced |
| Permutations.LayersPermutations | src/main/firefighters/FireDispatchImpl.java:40-47 | inserting `x` into reorderings of a multiset gives reorderings of that multiset plus `x` |
| Permutations.Generated | src/main/firefighters/FireDispatchImpl.java:28-51 | after handling the first i numbers every list has length i |
| Permutations.InsertAtInjective | src/main/firefighters/FireDispatchImpl.java:43-45 | inserting a number absent from two lists gives the same list only at the same position of the same list |
| Permutations.AppendDistinct | src/main/firefighters/FireDispatchImpl.java:40-47 | appending a repeat-free list of lists that shares nothing with a repeat-free list gives a repeat-free list |
| Permutations.ColumnDistinct | src/main/firefighters/FireDispatchImpl.java:42-46 | one pass of the innermost loop over repeat-free lists produces no list twice |
| Permutations.LayerApart | src/main/firefighters/FireDispatchImpl.java:40-47 | a list built with `x` at a position before `c` is not a list with `x` at position `c` |
| Permutations.ColumnApart | src/main/firefighters/FireDispatchImpl.java:40-47 | the pass for position `c` produces no list an earlier pass produced |
| Permutations.LayersDistinct | src/main/firefighters/FireDispatchImpl.java:40-47 | the middle and innermost loops over repeat-free lists produce no list twice |
| Permutations.GeneratedOnce | src/main/firefighters/FireDispatchImpl.java:28-51 | from distinct numbers `permute` returns no ordering twice |
| Permutations.Permute | src/main/firefighters/FireDispatchImpl.java:28-51 | more than ten numbers throw `IllegalArgumentException`, an empty array throws on `nums[0]`, otherwise the result is the insertion-order enumeration |
| Permutations.InsertEverywhere | src/main/firefighters/FireDispatchImpl.java:40-47 | one round of the middle and innermost loops, position-major, builds exactly the insertions of `x` into every list |
| Permutations.GeneratedCount | src/main/firefighters/FireDispatchImpl.java:19-51 | there are exactly i! lists after i numbers |
| Permutations.GeneratedArePermutations | src/main/firefighters/FireDispatchImpl.java:19-51 | every list returned is a reordering of the input |
| Permutations.GeneratedComplete | src/main/firefighters/FireDispatchImpl.java:19-51 | every reordering of the input is among the lists returned |
| Tours.CalcPathCost | src/main/firefighters/FireDispatchImpl.java:171-179 | the loop's cost is the length of the walk from the fire station through the path's buildings |
| Tours.CheapestIsFirstMinimum | src/main/firefighters/FireDispatchImpl.java:279-288 | the kept ordering costs no more than any ordering, and every earlier ordering costs strictly more |
| Tours.SelectCheapest | src/main/firefighters/FireDispatchImpl.java:279-288 | the selection loop keeps the first cheapest ordering |
| Tours.OrderingFacts | src/main/firefighters/FireDispatchImpl.java:272-277 | an ordering of 0..m-1 has length m, indexes only buildings of the batch, and names every one of them |
| Tours.InsertAtDistinct | src/main/firefighters/FireDispatchImpl.java:43-45 | inserting a fresh number into a list without repeats gives a list without repeats |
| Tours.GeneratedDistinct | src/main/firefighters/FireDispatchImpl.java:28-51 | orderings of distinct numbers have no repeated entry |
| Tours.AllOrders | src/main/firefighters/FireDispatchImpl.java:272-277 | the orderings `bruteForce` considers are non-empty and each visits every building exactly once |
| Tours.ExactTour | src/main/firefighters/FireDispatchImpl.java:270-288 | the walked ordering visits every building of the batch exactly once |
| Tours.ExactTourOptimal | src/main/firefighters/FireDispatchImpl.java:263-288 | no ordering of the buildings gives a shorter route from the fire station than the exact tour |
| Tours.VisitedAll | src/main/firefighters/FireDispatchImpl.java:291-298 | a walk over distinct burning buildings puts out a fire at every stop |
| Tours.PathNodesDistinct | src/main/firefighters/FireDispatchImpl.java:291-298 | distinct buildings walked in a repeat-free order are distinct stops |
| Tours.TourCoversBuildings | src/main/firefighters/FireDispatchImpl.java:291-298 | walking an ordering stops at every building of the batch and nowhere else |
| Tours.WalkPutsOutEvery | src/main/firefighters/FireDispatchImpl.java:291-298 | with distinct burning buildings, walking a repeat-free ordering extinguishes at every stop |
| Tours.RouteLengthTwoStops | src/main/firefighters/FireDispatchImpl.java:171-179 | a two-stop walk costs its two legs |
| Tours.PairCost | src/main/firefighters/FireDispatchImpl.java:171-179 | a two-building path costs the leg from the station plus the leg between the buildings |
| Selection.RowCandidatesSpec | src/main/firefighters/FireDispatchImpl.java:81-86 | one row's candidates are exactly its non-sentinel cells, in building order |
| Selection.CandidatesSpec | src/main/firefighters/FireDispatchImpl.java:77-89 | the candidates are exactly the non-sentinel cells, firefighter-major then building |
| Selection.MinOfIsMin | src/main/firefighters/FireDispatchImpl.java:98-115 | the running minimum of `getMins` is the least value and occurs among the values |
| Selection.KeepAtSpec | src/main/firefighters/FireDispatchImpl.java:98-115 | keeping the moves of one value keeps exactly those, in order |
| Selection.GetMins | src/main/firefighters/FireDispatchImpl.java:98-115 | the loop (reset on a new minimum, append on a tie) returns exactly the moves of least value, in order |
| Selection.MinimalSpec | src/main/firefighters/FireDispatchImpl.java:98-115 | `getMins` keeps a move iff its value is no larger than any other, keeps one whenever it is given one, and preserves order |
| Selection.MinimalOfShort | src/main/firefighters/FireDispatchImpl.java:229-243 | on at most one move `getMins` changes nothing, so the `size() > 1` guards do not change the outcome |
| Selection.NarrowSpec | src/main/firefighters/FireDispatchImpl.java:228-243 | a tier keeps exactly the moves whose key no other move undercuts, non-empty iff its input is, in order |
| Selection.ChooseSpec | src/main/firefighters/FireDispatchImpl.java:226-248 | the committed move is the candidate preferred to every other by (distance, −column sum, travelled, enumeration order); there is one iff some cell is not the sentinel; it is the only such candidate |
| Selection.ChooseExists | src/main/firefighters/FireDispatchImpl.java:226-248 | a move is chosen exactly when a candidate exists, and it is a candidate |
| Selection.ChosenPreferred | src/main/firefighters/FireDispatchImpl.java:226-248 | the chosen move beats each other candidate on the first tier where they differ, or precedes it on a full tie |
| Selection.PreferredAsymmetric | src/main/firefighters/FireDispatchImpl.java:226-248 | the tie-break order is asymmetric, so the best candidate is unique |
| Greedy.AdvanceBurning | src/main/firefighters/FireDispatchImpl.java:247-257 | an iteration only ever puts a fire out, and only at a building of the batch |
| Greedy.GreedyRunBurning | src/main/firefighters/FireDispatchImpl.java:216-261 | a greedy dispatch never sets a fire and leaves every building outside the batch as it found it |
| Greedy.ThrownStays | src/main/firefighters/FireDispatchImpl.java:247-248 | once `possibleMoves.get(0)` has thrown out of the loop, no later iteration happens |
| Greedy.NoFirefighterThrows | src/main/firefighters/FireDispatchImpl.java:218-248 | with no firefighter the matrix has no row, so a non-empty batch throws `IndexOutOfBounds` at the first step |
| Greedy.GreedyRunThrows | src/main/firefighters/FireDispatchImpl.java:225-248 | a greedy dispatch throws only `IndexOutOfBounds`, and throws exactly when some step finds every cell holding the sentinel |
| Greedy.AdvanceLog | src/main/firefighters/FireDispatchImpl.java:246-259 | an iteration logs nothing or logs the greedy choice of a completed run whose building was burning |
| Greedy.LoggedAreChoices | src/main/firefighters/FireDispatchImpl.java:225-260 | every committed move was the greedy choice of the state just before it, and put out a burning building |
| Dispatch.FullRange | src/main/firefighters/FireDispatchImpl.java:225 | a set of building indices as large as the batch holds all of them, and a smaller one misses one |
| Dispatch.AssignedSnoc | src/main/firefighters/FireDispatchImpl.java:248-255 | committing a move claims its building |
| Dispatch.WalkedStep | src/main/firefighters/FireDispatchImpl.java:252 | committing a move extends exactly its firefighter's route by its building |
| Dispatch.RefreshedIsRefresh | src/main/firefighters/FireDispatchImpl.java:253-256 | a matrix whose every cell matches the commit of firefighter `f` to building `b` is the greedy run's refreshed matrix |
| Dispatch.SettledChoice | src/main/firefighters/FireDispatchImpl.java:226-249 | with a firefighter on hand and a building unclaimed, the greedy choice exists and is an unclaimed burning building |
| Dispatch.SettledStep | src/main/firefighters/FireDispatchImpl.java:250-256 | a committed move keeps every cell at the distance from its firefighter's location or the sentinel, and the burning flags in step with the claimed set |
| Dispatch.ProgressStep | src/main/firefighters/FireDispatchImpl.java:225-260 | one greedy iteration carries the progress invariant over to the log extended by its move |
| Dispatch.FireDispatch.constructor | src/main/firefighters/FireDispatchImpl.java:14-17 | a new dispatcher serves the given city with an empty roster |
| Dispatch.FireDispatch.SetFirefighters | src/main/firefighters/FireDispatchImpl.java:181-188 | the roster is replaced by n fresh firefighters at the fire station (none for negative n) |
| Dispatch.FireDispatch.UpdateDistances | src/main/firefighters/FireDispatchImpl.java:60-70 | row f holds the distance from firefighter f to each burning building and the sentinel elsewhere; other rows are kept |
| Dispatch.FireDispatch.FillDistances | src/main/firefighters/FireDispatchImpl.java:220-222 | after the first loop every row holds its firefighter's distances |
| Dispatch.FireDispatch.GetPossibleMoves | src/main/firefighters/FireDispatchImpl.java:77-89 | the moves are exactly the non-sentinel cells in enumeration order |
| Dispatch.FireDispatch.MoveToDist | src/main/firefighters/FireDispatchImpl.java:123-129 | each move's value is its matrix cell |
| Dispatch.FireDispatch.MoveToColumnSum | src/main/firefighters/FireDispatchImpl.java:138-148 | each move's value is minus the sum of its building's column |
| Dispatch.FireDispatch.MoveToDistTraveled | src/main/firefighters/FireDispatchImpl.java:156-162 | each move's value is its firefighter's distance travelled |
| Dispatch.FireDispatch.NarrowBy | src/main/firefighters/FireDispatchImpl.java:228-243 | one guarded tier computes that tier's narrowing of the moves |
| Dispatch.FireDispatch.SelectMove | src/main/firefighters/FireDispatchImpl.java:226-248 | the three tiers in order and `get(0)` yield the greedy choice |
| Dispatch.FireDispatch.ClearColumn | src/main/firefighters/FireDispatchImpl.java:254-256 | the building's column becomes the sentinel and every other cell is kept |
| Dispatch.FireDispatch.MoveTo | src/main/firefighters/FireDispatchImpl.java:252-256 | only firefighter `f` moves, to the building, by one leg added to its distance and route, and the matrix becomes the greedy run's refresh |
| Dispatch.FireDispatch.CommitMove | src/main/firefighters/FireDispatchImpl.java:247-259 | a failed extinguish changes nothing; a successful one clears the fire, moves the firefighter by one leg, recomputes its row and blanks the column |
| Dispatch.FireDispatch.ChooseMove | src/main/firefighters/FireDispatchImpl.java:226-249 | under greedy progress the chosen move exists and names a burning, unclaimed building |
| Dispatch.FireDispatch.GreedyStep | src/main/firefighters/FireDispatchImpl.java:225-260 | one iteration commits `Choose` of the matrix and distances it starts from; there is a choice iff some cell is not the sentinel, none without firefighters; the new state and log are the greedy run's next iteration; it never ignites a building and touches only the batch; under progress it finds and claims a burning building |
| Dispatch.FireDispatch.CommitChoice | src/main/firefighters/FireDispatchImpl.java:247-259 | the `try` block for the greedy choice advances the dispatcher by exactly one iteration of the greedy run, puts a fire out only at the chosen building, and carries greedy progress over |
| Dispatch.FireDispatch.Iterate | src/main/firefighters/FireDispatchImpl.java:225-260 | from the state of the greedy run after `i` iterations, one step reaches the run after `i + 1`, which has thrown exactly when there was no choice |
| Dispatch.FireDispatch.StepAll | src/main/firefighters/FireDispatchImpl.java:225-260 | the step loop, stopping at the first throw, ends in the greedy run's final outcome, state and log; from greedy progress it completes with one move per building |
| Dispatch.FireDispatch.NewMatrix | src/main/firefighters/FireDispatchImpl.java:218-222 | a fresh matrix of one row per firefighter and one column per building, and the dispatcher's state becomes the greedy run's start; nobody moves |
| Dispatch.FireDispatch.ReadyDone | src/main/firefighters/FireDispatchImpl.java:225-260 | at the end of a ready batch every building is claimed and out, and each firefighter has walked on from where it stood through its committed buildings in order |
| Dispatch.FireDispatch.GreedyDispatch | src/main/firefighters/FireDispatchImpl.java:216-261 | the outcome, final state and committed moves are those of the greedy run from the filled matrix; it never ignites and touches only the batch; with no firefighter and a non-empty batch it throws; on distinct burning buildings it completes, puts every building out, commits each building once, and each firefighter walks its committed buildings in order |
| Dispatch.FireDispatch.BruteForce | src/main/firefighters/FireDispatchImpl.java:270-299 | more than ten or zero buildings, or no firefighter, throw with nothing changed; otherwise the first firefighter walks the exact tour, putting out every fire it finds, and afterwards no building of the batch burns |
| Dispatch.FireDispatch.IndexArray | src/main/firefighters/FireDispatchImpl.java:273-276 | the index array holds 0..m-1 |
| Dispatch.FireDispatch.WalkPath | src/main/firefighters/FireDispatchImpl.java:290-298 | the firefighter's route grows by exactly the stops where a fire was put out, and every stop ends not burning |
| Dispatch.FireDispatch.DispatchFirefighters | src/main/firefighters/FireDispatchImpl.java:193-206 | more than one firefighter or more than ten buildings take the greedy path, whose outcome and state are the greedy run's, with each firefighter walking its committed buildings for a ready batch; otherwise the outcome and walk are `bruteForce`'s for any batch (completes iff one firefighter and at least one building, a throw changes nothing, the firefighter walks the burning stops of the exact tour and ends on the last), a ready batch is put out along the whole exact tour, which no ordering undercuts from the station; an empty batch moves nobody and throws with at most one firefighter |
| Scenarios.TwoFireOrders | src/main/firefighters/FireDispatchImpl.java:28-51 | the orderings of two buildings come out as [1, 0] then [0, 1] |
| Scenarios.TwoFireReversedCost | src/main/scenarios/BasicScenarios.java:69-87 | visiting (1,1) before (0,1) from (0,0) costs 3 |
| Scenarios.TwoFireInOrderCost | src/main/scenarios/BasicScenarios.java:69-87 | visiting (0,1) before (1,1) from (0,0) costs 2 |
| Scenarios.TwoFireTour | src/main/scenarios/BasicScenarios.java:69-87 | the exact solver picks [0, 1] for the two-fire test, at distance 2 |
| Scenarios.CrossStartGrid | src/main/scenarios/BasicScenarios.java:90-101 | in the two-firefighter test every firefighter is one block from each fire |
| Scenarios.CrossFirstChoice | src/main/firefighters/FireDispatchImpl.java:226-248 | with every cell 1, equal column sums and nobody moved, the first step picks firefighter 0 for building 0 |
| Scenarios.CrossFirstState | src/main/firefighters/FireDispatchImpl.java:247-256 | after the first step firefighter 0 stands on (0,1) having walked 1, column 0 is blanked and row 0 holds 2 |
| Scenarios.CrossSecondChoice | src/main/firefighters/FireDispatchImpl.java:226-248 | in the second step firefighter 1, one block from (1,0), beats firefighter 0 at two blocks |
| Scenarios.CrossSecondState | src/main/firefighters/FireDispatchImpl.java:247-256 | after the second step firefighter 1 stands on (1,0) having walked 1, and neither building burns |
| Scenarios.CrossFirstRun | src/main/firefighters/FireDispatchImpl.java:225-260 | the first iteration of the two-firefighter test completes and commits firefighter 0 to (0,1) |
| Scenarios.CrossSecondRun | src/main/firefighters/FireDispatchImpl.java:225-260 | the second iteration completes and commits firefighter 1 to (1,0) |
| Scenarios.CrossRun | src/main/scenarios/BasicScenarios.java:90-123 | the greedy run of the two-firefighter test completes, a firefighter on each fire, one block each, both fires out |
| Scenarios.DoubleFirefighterDoubleFire | src/main/scenarios/BasicScenarios.java:90-123 | against the dispatcher: total distance 2, a firefighter on each fire, neither burning |
| Scenarios.ColdBuildingThrows | src/main/firefighters/FireDispatchImpl.java:248 | two firefighters and a batch whose only building does not burn: the matrix holds only the sentinel and the first step throws `IndexOutOfBounds` |
| Scenarios.ColdBuildingDispatch | src/main/firefighters/FireDispatchImpl.java:248 | the same batch through the dispatcher ends with `IndexOutOfBounds` |
| Scenarios.LoneColdBuilding | src/main/firefighters/FireDispatchImpl.java:200-206 | one firefighter and a single building that does not burn: the exact solver completes and the firefighter stays at the station having walked 0 |

## Left out

- City, buildings and `getBuilding`: the `City` class is a stand-in of fire station plus a coordinate → burning map. `getBuilding(n).extinguishFire()` is `Extinguish`, failing when nothing burns at `n`. `CityImpl`, `BuildingImpl` and `FireproofBuildingException` are not part of this model.
- 32-bit integers: distances, column sums and path costs are unbounded. The sentinel `Integer.MAX_VALUE` is the value 2147483647 and its column sums do not wrap around. A Java run whose sums overflow can rank moves differently.
- Dispatch.FireDispatch.MoveToColumnSum: a column sum is stated without 32-bit wrap-around, because the model's integers are unbounded.
- Selection.GetMins: the running minimum starts as "none yet" rather than `Integer.MAX_VALUE`. The two agree for every value a Java `int` can hold.
- Tours.SelectCheapest: the running minimum starts as "none yet" rather than `Integer.MAX_VALUE`, so a path whose cost reaches `Integer.MAX_VALUE` (possible only by overflow) is still selectable.
- `distMatrix` before the first greedy dispatch: the source leaves it `null`. The model starts with a 0 × 0 matrix, and no operation reads it before `greedyDispatch` replaces it.
- `e.printStackTrace()` in the two `catch` blocks is output only. The model keeps the control flow: the rest of that step is skipped.
- `getFirefighters`, `getLocation`, `distanceTraveled()` and `toString` are plain accessors or formatting. The model reads the fields directly.
- Ghost state: `origin` and `route` of a firefighter, and the move `log` of a greedy dispatch, exist only to state what was walked. They have no counterpart in the source.
- The randomized scenarios use random cities and are not modelled. Of the basic scenarios, the two-fire test is worked through the exact solver, the two-firefighter test (`doubleFirefighterDoubleFire`) through the greedy run and the dispatcher, and the distance test (`firefighterDistance`) is replayed by `Firefighters.DistanceScenario`. The single-fire tests and `fireDispatch` are not replayed as concrete runs; they are instances of the general contracts of `BruteForce`, `DispatchFirefighters` and `ExactTourOptimal`. The `TSP` scenario calls `TSPBruteForce` and `calcPathCost(List<CityNode>)`, which the `FireDispatch` interface declares but `FireDispatchImpl` does not define, so it is not modelled.
