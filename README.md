# Ant-colony task scheduler, modelled in Dafny

This project models the optimisation engine of a small Ant Colony
Optimisation (ACO) scheduler. The scheduler assigns `taskNum` independent
tasks, each with an integer length, to `nodeNum` processing nodes, each with
an integer speed, so that the makespan stays small. The makespan is the
largest total duration any single node receives.

One run works like this:

1. It computes the duration matrix `time[t][n] = length[t] / speed[n]`.
2. It sets every pheromone entry to 1.
3. It repeats a fixed number of iterations. In each iteration:
   - Every ant assigns every task to a node. An ant numbered at most the task's
     exploit threshold takes the task's best-pheromone node. Any other ant takes
     a random node in `[0, nodeNum - 1)`.
   - Each ant's makespan is computed.
   - The pheromone is updated. It decays by `p = 0.5`. The edges of the best
     ant are reinforced. Each row's best node and its exploit threshold
     `floor(antNum * max / sum)` are recomputed.

The project has two files:

- `aco_spec.dfy` (module `AcoSpec`) holds pure definitions and lemmas about
  them. It covers:
  - the duration of a task on a node;
  - the exploit-or-explore choice;
  - one-hot path rows;
  - node loads and the makespan;
  - the choice of the best ant (a first strict minimum below 9999);
  - the row statistics (first maximum, sum, all-equal test);
  - the best-node hint and the exploit threshold;
  - the reinforcement rule;
  - one whole iteration as a function on values. A `Trail` holds the
    pheromone matrix, the best nodes and the thresholds that one iteration
    hands to the next. `NextTrail` is the trail an iteration leaves, and
    `Makespans` are the makespans it reports. `Run` lists the trails of k
    iterations, and `Reports` lists what each iteration reports.
- `colony.dfy` (module `Aco`) holds the imperative model. Class `Colony` keeps
  the duration and pheromone matrices as `array2<real>`, and the best-node and
  threshold arrays as `array<int>`. Its methods update these arrays in place
  with the source's own nested loops. Most methods are proved against the
  functions of `AcoSpec`. `Iteration` states its effect on the arrays, and
  `Advance` restates that effect as `Makespans` and `NextTrail` of the trail
  the iteration starts from. `Search` and `Aca` return a ghost trace of
  trails, which exists only for the proof, and are proved equal to `Run` and
  `Reports`. The path buffer is an `array3<int>` of
  (ant, task, node) flags.

`float` is modelled as `real`. Every `rand()` call is replaced by a draw
supplied as a parameter:

- `pathDraw(i, a, t)` is the draw for ant `a` and task `t` in iteration `i`;
- `rowDraw(i, t)` is the draw for row `t` in iteration `i`, used when that row
  is all equal.

The problem sizes are parameters instead of the constants 1000 tasks,
20 nodes and 100 ants.

Some behaviour of the code is easy to misread. The model reproduces it:

- Reinforcement sits inside an extra loop over all ants. Each edge of the best
  ant's path therefore gains `antNum * (1 / duration)`, not one `1 / duration`
  (`Reinforce`, `RepeatIsProduct`, `ReinforcementExceedsOneIncrement`).
- Exploration and the all-equal tie-break both reduce the draw modulo
  `nodeNum - 1`. Neither can ever pick the last node
  (`ExploreCoversAllButLast`, `Hint`).
- A row is "all equal" when each entry equals its left neighbour. That is the
  same as the row holding a single value (`AllSameIffConstant`).
- Before the first update, the best-node and threshold arrays are all zero.
  They are zero-initialised globals. So in the first iteration ant 0 puts every
  task on node 0, and every other ant explores (constructor).
- `nodeNum` must be at least 2. With a single node, `rand() % (nodeNum - 1)`
  divides by zero, and every row is trivially all equal, so the first update
  already does that division. The source fixes `nodeNum = 20`.

The best-ant scan, the decay, the reinforcement (and its per-row node loop) and
the per-row recomputation of `updatePheromoneMatrix` are separate methods. So
are the per-row scan, the path clearing before the build loop, the per-ant body
of `calTime`, the ants' half of an iteration (`RunAnts`) and the body of the iteration loop. `UpdatePheromoneMatrix`, `Iteration` and `Search` call them
in the source's order.

## Model

| member | source | states |
|---|---|---|
| `AcoSpec.Duration` | main.cpp:82 | a duration times the node's speed gives back the task's length, and a positive length gives a positive duration |
| `Aco.Colony.InitTimeMatrix` | main.cpp:76-85 | afterwards every cell `time[t, n]` is `Duration(length[t], speed[n])`, so every cell is positive |
| `Aco.Colony.InitPheromoneMatrix` | main.cpp:92-101 | afterwards every entry of the `taskNum x nodeNum` pheromone matrix is 1, so all entries are positive |
| `Aco.Colony.constructor` | main.cpp:35-50 | the matrices and arrays have the problem's dimensions, and every entry of the duration and pheromone matrices and of the best-node and threshold arrays starts at zero, as static globals do |
| `AcoSpec.Assign` | main.cpp:110-119 | ants numbered up to the threshold (inclusive) get the best node; the others get a node in `[0, nodeNum - 1)`; a best node in range gives a result in range |
| `AcoSpec.ExploitIgnoresDraw` | main.cpp:113-116 | for an exploiting ant the chosen node does not depend on the random draw |
| `AcoSpec.ExploreCoversAllButLast` | main.cpp:118 | exploration reaches every node below `nodeNum - 1`, and no draw ever yields node `nodeNum - 1` |
| `Aco.Colony.ClearPaths` | main.cpp:257-263 | afterwards every flag of the path buffer is 0 |
| `Aco.Colony.BuildPaths` | main.cpp:257-273 | after clearing and building, every (ant, task) row of the path buffer is one-hot at the node `Assign` picks, and it holds exactly one 1 |
| `AcoSpec.OneHotHasSingleOne` | main.cpp:257-273 | a row that is one-hot at an index in range contains exactly one entry equal to 1 |
| `AcoSpec.Load` | main.cpp:134-139 | a node's summed duration over the tasks flagged on it is non-negative when all durations are |
| `AcoSpec.MaxLoad` | main.cpp:130-145 | the running maximum from -1 is at least -1, at least every node load, and either -1 or equal to one of the node loads |
| `Aco.Colony.AntMakespan` | main.cpp:129-146 | the loop over nodes for one ant returns the makespan of that ant's path |
| `Aco.Colony.CalTime` | main.cpp:125-148 | each ant's recorded time is the makespan of its path: the maximum over nodes of the summed durations of the tasks flagged on that node |
| `AcoSpec.TaskWithinMakespan` | main.cpp:125-148 | with non-negative durations, no placed task's duration exceeds the makespan, and the makespan equals some node's load |
| `AcoSpec.LoadCoversTask` | main.cpp:135-139 | a task flagged on a node contributes its duration to that node's load, so the load is at least that duration |
| `AcoSpec.OneHotLoadIsAssignedLoad` | main.cpp:131-139 | for one-hot rows, the flag-matrix load equals the load computed from the task-to-node map |
| `AcoSpec.SmallScheduleMakespan` | main.cpp:76-148 | lengths 10, 20, 30 on speeds 5, 10 give durations [[2,1],[4,2],[6,3]]; tasks 0 and 2 on node 1 and task 1 on node 0 give makespan 4 |
| `Aco.Colony.BuiltMakespansPositive` | main.cpp:265-276 | every makespan computed from freshly built paths is positive |
| `AcoSpec.MinScan` | main.cpp:170-179 | minIndex is -1 exactly when no time is below 9999, and then minTime stays 9999; otherwise minTime is the time at minIndex, below 9999, no larger than any time, and strictly smaller than every earlier time |
| `Aco.SelectBestAnt` | main.cpp:170-179 | the scan loop returns the index `BestAnt` gives |
| `AcoSpec.BestAntIsFirstMinimum` | main.cpp:172-179 | the best ant has the least time, and every lower-numbered ant has a strictly larger time |
| `Aco.Colony.DecayPheromone` | main.cpp:161-167 | afterwards every entry is its old value times p |
| `Aco.Colony.ReinforceRow` | main.cpp:189-193 | one pass over a row adds `1/time[t, n]` to exactly the best ant's edges of row t and changes no other entry |
| `Aco.Colony.Reinforce` | main.cpp:187-193 | afterwards every entry is its old value plus `1/time[t, n]` added `antNum` times on the best ant's edges, and nothing added elsewhere |
| `AcoSpec.RepeatIsProduct` | main.cpp:187-193 | adding a gain once per ant equals adding `antNum` times the gain |
| `AcoSpec.ReinforcedIsRepeatedGain` | main.cpp:161-193 | decaying an entry and then adding `1/duration` once per ant on the best path (nothing elsewhere) gives exactly `Reinforced` of the entry |
| `AcoSpec.Reinforced` | main.cpp:161-193 | off the best path an updated entry is exactly p times the old one; a positive entry stays positive |
| `AcoSpec.ReinforcedOnBest` | main.cpp:187-193 | on the best path an updated entry is p times the old one plus `antNum / duration` |
| `AcoSpec.ReinforcementExceedsOneIncrement` | main.cpp:187-193 | with two or more ants, a best-path edge gains more than a single `1 / duration` |
| `AcoSpec.FirstMax` | main.cpp:200-211 | the scan's result is an entry of the row, at least every entry, and strictly greater than every entry before its index |
| `AcoSpec.EntryAtMostSum` | main.cpp:202-218 | in a row of positive entries, every entry is at most the row sum, and the sum is positive |
| `AcoSpec.AllSameIsConstant` | main.cpp:203-216 | when each entry equals its left neighbour, every entry equals the first one |
| `AcoSpec.AllSameIffConstant` | main.cpp:203-216 | "each entry equals its left neighbour" holds if and only if all entries of the row are equal |
| `Aco.Colony.ScanRow` | main.cpp:200-219 | the row loop returns the row's `FirstMax` (value and index), its sum, and whether it is all-same |
| `AcoSpec.Hint` | main.cpp:205-228 | the recorded node is in range and holds a row maximum; an all-equal row gets a node below `nodeNum - 1`; otherwise it is the first maximum |
| `AcoSpec.Threshold` | main.cpp:232 | for a row of positive pheromone, `floor(antNum * max / sum)` lies in `[0, antNum]` |
| `AcoSpec.Quota` | main.cpp:232 | the integer cast of `antNum * (max / sum)` for `0 < max <= sum` lies in `[0, antNum]` |
| `AcoSpec.ScanGivesHint` | main.cpp:198-232 | the scan's first maximum, sum and all-same flag, with the draw replacing the node of an all-equal row, give exactly `Hint`, a positive entry at most the sum, and `Threshold` of the row |
| `AcoSpec.QuotientFloorInRange` | main.cpp:232 | when `0 < max <= sum`, `floor(antNum * (max / sum))` lies between 0 and antNum |
| `Aco.Colony.RowHint` | main.cpp:198-232 | the best node and threshold computed for row t are `Hint` and `Threshold` of that row and the draw |
| `Aco.Colony.RecomputeHints` | main.cpp:198-233 | afterwards every row's best node and threshold are `Hint` and `Threshold` of the new pheromone row, and both lie in range |
| `Aco.Colony.UpdatePheromoneMatrix` | main.cpp:156-234 | every entry becomes `Reinforced(old entry, on the best ant's path, duration, antNum)`; best nodes and thresholds follow the new rows; all invariants (positive pheromone, hints in range) are kept |
| `Aco.Colony.RunAnts` | main.cpp:257-276 | every (ant, task) row of the path buffer is one-hot at the node `Assign` picks from the current best node and threshold; `times` holds each ant's `Makespan` of its path, all positive, and the pheromone and hints are untouched |
| `Aco.Colony.Iteration` | main.cpp:257-285 | every (ant, task) row of the path buffer is one-hot at the node `Assign` picks from the old best node and threshold; each returned makespan, also left in `times`, is the `Makespan` of that ant's path, and all are positive; with a best ant, every pheromone entry is `Reinforced(old entry, on the best ant's path, duration, antNum)`, and each row's best node and threshold are `Hint` and `Threshold` of the new row; with no best ant the state is unchanged |
| `AcoSpec.BuiltPaths` | main.cpp:257-273 | when every best node is a node index, each (ant, task) row the ants write holds exactly one 1, so every ant places every task on exactly one node |
| `AcoSpec.OneHotIsOneHotRow` | main.cpp:257-271 | a row one-hot at c is the width-wide row with a single 1 at c, so a cleared and then set row is fixed by the chosen node |
| `Aco.Colony.BufferMakespans` | main.cpp:265-276 | a buffer whose rows are one-hot at the `Assign` choices holds `BuiltPaths`, so its makespans are `Makespans` of the trail the iteration starts from |
| `Aco.Colony.PheromoneIsReinforcedRows` | main.cpp:161-193 | entries each equal to `Reinforced` of the old entry form the matrix that decays every entry and reinforces the best path |
| `Aco.Colony.HintsAreRecomputed` | main.cpp:198-233 | best nodes and thresholds recomputed row by row are `BestNodes` and `Thresholds` of the new matrix, and the state still fits |
| `Aco.Colony.ReinforcedAdvances` | main.cpp:156-234 | with a best ant, the in-place update from the best built path leaves exactly the trail `NextTrail` gives |
| `Aco.Colony.IterationAdvances` | main.cpp:257-285 | the facts `Iteration` proves about the arrays amount to reporting `Makespans` of the starting trail and leaving its `NextTrail`, in both the best-ant and the no-best-ant case |
| `Aco.Colony.Advance` | main.cpp:257-285 | one iteration reports, and leaves in `times`, `Makespans` of the trail it starts from and leaves exactly `NextTrail` of that trail; the invariants are kept |
| `AcoSpec.NextTrailFits` | main.cpp:156-234 | an iteration keeps one pheromone row of `nodeNum` entries per task, one best node and one threshold per task, and every pheromone entry positive |
| `AcoSpec.NextHintsInRange` | main.cpp:198-233 | after an iteration every best node is a node index and every threshold lies in `[0, antNum]` |
| `AcoSpec.RunFits` | main.cpp:253-286 | every trail of a run from a fitting trail fits, so pheromone stays positive throughout the search |
| `AcoSpec.RunSteps` | main.cpp:253-286 | in a run, iteration i reports the `Makespans` of trail i, and trail i + 1 is the `NextTrail` of trail i with iteration i's draws |
| `Aco.Colony.Search` | main.cpp:253-286 | the ghost trace is the `Run` of as many iterations as the history has entries, starting from the state before the search; the history is the `Reports` of that trace, one entry of `antNum` positive makespans per iteration; the final pheromone, best nodes and thresholds are the trace's last trail; fewer entries than the budget only when the last iteration had no makespan below 9999, and every earlier one had one |
| `Aco.Colony.Aca` | main.cpp:302-312 | durations become `Duration(length, speed)`; the trace is the `Run` from the all-one pheromone matrix and the best nodes and thresholds held before; the history is its `Reports`; the final state is the trace's last trail; the early-stop facts of `Search` hold |

## Left out

- `rand()` and its global state (main.cpp:67, 118, 223) are not modelled. Each draw is a natural-number parameter.
- `random_array` and `main` (main.cpp:63-69, 315-322) are not modelled. They only generate the problem with `rand()` and pause the console. The constructor takes the lengths and speeds, which must be positive.
- Floating-point rounding is not modelled; `float` is `real`. So the all-equal test at main.cpp:213 is exact equality. The `static_cast<int>` at main.cpp:232 is `Floor`, which agrees with truncation because the quotient is non-negative.
- The `printf` report (main.cpp:278-283) is not modelled. `Search` returns each iteration's makespans as a history instead.
- Allocating and freeing the path buffer (main.cpp:243-251, 288-296) is not modelled. `Search` allocates one `array3<int>` buffer and reuses it.
- The unused constant `q` and the commented-out multiplicative update (main.cpp:58, 181-185) are not modelled, because they never execute.
- The two `memset` calls (main.cpp:195-196) are not modelled. Every entry they would clear is overwritten by the loop at main.cpp:198-233.
- `acaSearch`'s `_antNum` parameter is not kept separate from the global `antNum`. `aca` passes `antNum`, so one `antNum` serves both.
- Aco.Colony.UpdatePheromoneMatrix: requires some makespan below 9999. Otherwise `minIndex` stays -1, and the source reads `pathMatrix_allAnt[-1]`, which is undefined behaviour.
- Aco.Colony.Search: stops after an iteration with no makespan below 9999, because the source's next step there is undefined behaviour. `Iteration` leaves the pheromone unchanged in that case.
- Aco.Colony.constructor: requires at least two nodes, because `rand() % (nodeNum - 1)` at main.cpp:118 and 223 divides by zero for a single node.
- The ghost trace returned by `Search` and `Aca` has no counterpart in the source. It records the states between iterations so that the contracts can name them.
- Convergence and solution quality are not modelled. They are probabilistic claims about the search, not properties of one step.
