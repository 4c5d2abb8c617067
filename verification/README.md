# Verification of the walking-bus solver, the MANGO task runtime and Prim's program

Three programs of this repository, modelled in Dafny, and the properties they are written for.

**Walking bus** (`Arcs`, `ArcSort`, `GreedyTree`, `LineGrowth`, `Flags`, `WorkList`, `FirstPass`, `Sets`, `Sums`,
`Walks`, `Checker`, `Counting`, `DangerPass`, `PassSafety`, `LeafMoves`, `LeafChoice`, `WalkingBus`, `ReportedLeaves`). The solver grows a tree from the
school over a work-list of arcs that its own quicksort re-sorts lazily, then moves leaves below other leaves
to make the walk less dangerous; a Python script judges the result. `GreedyTree` defines the intended tree
without a work-list: each arc is the least of all arcs that could be taken. `LineGrowth` says the same without an
order on arcs: line after line, always on to the nearest stop that can keep its limit. `FirstPass` is the program on
its arrays and is proved to produce such a tree. `DangerPass` is the second pass on its arrays and `LeafChoice` what
each leaf gets from it. `Checker` is the judge. `WalkingBus` joins them.

What comes out, for every instance with a symmetric, non-negative distance matrix with zero diagonal, as
coordinates give it, and a limit `alpha >= 1`:

* The tree of the first pass is one that grows lines: if some stop can follow the stop entered last within its limit,
  the nearest that can does; if none can, the stop nearest to the school opens a line; of equally near ones the stop
  with the less dangerous step. Every such tree is a greedy one and the other way round.
* The tree of the second pass is the one in which every arc took its turn: a leaf walks to the least dangerous leaf
  within its limit, the first of several, if that is safer than before; all else stays.
* The judge accepts the tree after the first pass, after every moved leaf and at the end. The program tests
  distances of the first pass that it never refreshes, but this cannot matter: the first pass builds its lines
  one after the other, the end of a finished line is too far from every later stop, and so a leaf that was
  moved never becomes a parent. The recorded distance of a stop is always the length of its walk.
* The danger falls by the sum of the decreases of all single replacements, of which a stop may see several.
* The number of leaves the program prints after the second pass is the judge's count exactly when, at the turn of
  each stop at the school, that stop has a child or no leaf is less dangerous for it and near enough. It need not
  be: `ReportedLeaves` holds an instance, given by coordinates, on which every run prints 3 and the judge counts 2.
* The judge's verdict is the first fault in the order of its tests, said in terms of the lines of the file and of walks
  along them; no file has two verdicts.
* The work-list is filled from the whole tree once, n(n-1)/2 arcs are queued in all, and the fixed arrays suffice.

**MANGO runtime** (`Workgroup`, `Protocol`, `GroupSafety`, `GroupDistance`, `GroupProgress`, `GroupFairness`,
`GroupStarvation`, `Runtime`). Tasks count down event words to meet at a barrier and to exit; the main thread joins
them. A read of a word leaves 0 in it, so the reader holds the word until it writes. One protected read or write is
one step, a schedule is any sequence of actors, and the theorems hold for every number of tasks and every schedule.
`Runtime` performs the same steps on mutable words. The joiner can return exactly when all tasks call the barrier equally often and the number
of tasks plus one fits a 32-bit word; then some continuation completes from every reachable state.

Such a group of n tasks with K barrier calls each is complete after exactly n(7K + 3) + 2K + 2 lowering steps: a
read of 0, a poll that comes too early and a step of an actor that is done lower nothing, every other step counts as one. An infinite schedule completes
the group if and only if it is fair in this sense: an actor that is helpful again and again, because it holds a word
or would find the word it needs free, takes such a step again and again. That every actor steps again and again is not
enough, because a word that is being polled can read 0 each time another task looks (`GroupStarvation`).

**Prim's program** (`Graphs`, `SpanningTrees`, `Prim`). The printed edges form a spanning tree exactly when the
graph is connected. Connected or not, no n-1 links that link all nodes are lighter, where a missing edge costs
100000 as in the program. The cached distances agree with a scan of the whole cut.

`For_Challenge/walking_bus_solution/report.tex` says that a stop that already has a child is put into the arc as a new
branch. The code does not: it drops such an arc (line 247 of `walking_bus2.c`), and the model follows the code.

## Model

| member | source | states |
|---|---|---|
| Arcs.CoordinatesGiveDistance | For_Challenge/walking_bus_solution/walking_bus2.c:191-208 | distances computed from integer coordinates are symmetric, not negative and 0 on the diagonal, which is all that is asked of them below |
| ArcSort.GetPivot | For_Challenge/walking_bus_solution/walking_bus2.c:53-80 | in place: ends, returns a position in the range that holds the old first arc, nothing before it is less, everything after it is strictly less, the range is rearranged, the rest untouched |
| ArcSort.QuickSort | For_Challenge/walking_bus_solution/walking_bus2.c:84-94 | in place: the range is a rearrangement in which no arc is less than a later one, for any keys, and everything outside is untouched |
| GreedyTree.GreedyShape | For_Challenge/walking_bus_solution/walking_bus2.c:245-295 | in a greedy run every stop is entered once, from a node already reached, by the arc that the distance of that node dictates |
| GreedyTree.LinesOpenAtSchool | For_Challenge/walking_bus_solution/walking_bus2.c:243-263 | an arc opens a line if and only if it leaves the school, and no taken arc exceeds the limit of its stop, although taking an opening arc tests no limit |
| GreedyTree.OneChildPerStop | For_Challenge/walking_bus_solution/walking_bus2.c:246-263 | two arcs from the same node leave the school |
| GreedyTree.StuckEnd | For_Challenge/walking_bus_solution/walking_bus2.c:278-287 | once a new line is opened, a node without a child is too far from every later stop |
| GreedyTree.OneLineAtATime | For_Challenge/walking_bus_solution/walking_bus2.c:234-297 | an arc that does not leave the school continues from the stop entered just before |
| GreedyTree.ChildrenOfSchool | For_Challenge/walking_bus_solution/walking_bus2.c:258-263 | the counter of branches is the number of children of the school |
| LineGrowth.TakenIsLeast | For_Challenge/walking_bus_solution/walking_bus2.c:41-48 | of all arcs that could be taken, one that extends a line goes before one that opens one, then the shorter, then the less dangerous |
| LineGrowth.OnlyLastFollowed | For_Challenge/walking_bus_solution/walking_bus2.c:243-247 | an arc that could extend a line starts at the stop entered last |
| LineGrowth.GreedyGrowsLines | For_Challenge/walking_bus_solution/walking_bus2.c:234-326 | a tree is greedy if and only if each step goes from the last stop to the nearest stop that keeps its limit, or, if there is none, from the school to the stop nearest to it, equal distances decided by the danger of the step |
| WorkList.AcceptedArc | For_Challenge/walking_bus_solution/walking_bus2.c:236-256 | the arc popped from an ordered work-list that covers what can be taken is a greedy step as soon as it passes the guard |
| WorkList.RejectedArc | For_Challenge/walking_bus_solution/walking_bus2.c:243-247 | dropping an arc that fails the guard loses nothing that can be taken later |
| WorkList.VisitKeepsQueue | For_Challenge/walking_bus_solution/walking_bus2.c:249-295 | after a visit the remaining and the newly queued arcs cover exactly what can be taken |
| WorkList.NewArcsInOrder | For_Challenge/walking_bus_solution/walking_bus2.c:270-295 | arcs are queued in the order of the nodes they enter |
| WorkList.RefillFromSchool | For_Challenge/walking_bus_solution/walking_bus2.c:298-325 | the first refill queues the school's arcs, which are all that can be taken |
| WorkList.SchoolArcQueued | For_Challenge/walking_bus_solution/walking_bus2.c:234-326 | while a stop is unvisited the work-list holds the school's arc to it |
| FirstPass.NeverDry | For_Challenge/walking_bus_solution/walking_bus2.c:234-326 | the work-list cannot be empty again while a stop is unvisited |
| FirstPass.QueueArcs | For_Challenge/walking_bus_solution/walking_bus2.c:270-295 | appends one arc to every node outside the tree, in order, and asks for sorting exactly if it queued one |
| FirstPass.TreeBuilder.constructor | For_Challenge/walking_bus_solution/walking_bus2.c:210-232 | the initial arrays and counters satisfy the loop invariant |
| FirstPass.TreeBuilder.Pop | For_Challenge/walking_bus_solution/walking_bus2.c:238-244 | sorting only after something was queued suffices: the arc taken is least of all queued |
| FirstPass.TreeBuilder.AddToTree | For_Challenge/walking_bus_solution/walking_bus2.c:249-265 | the selected arcs grow by the popped one and flags, child counts, distances and branch counter still describe them |
| FirstPass.TreeBuilder.Visit | For_Challenge/walking_bus_solution/walking_bus2.c:249-295 | additionally queues one arc for every node still outside |
| FirstPass.TreeBuilder.Accept | For_Challenge/walking_bus_solution/walking_bus2.c:243-295 | a popped arc that passes the guard is visited; the invariant holds again and the arcs queued and to be queued stay the same in number |
| FirstPass.TreeBuilder.Reject | For_Challenge/walking_bus_solution/walking_bus2.c:243-247 | a popped arc that fails the guard is dropped and the invariant holds again |
| FirstPass.TreeBuilder.Refill | For_Challenge/walking_bus_solution/walking_bus2.c:298-325 | runs only the first time and queues n-1 arcs |
| FirstPass.TreeBuilder.Iterate | For_Challenge/walking_bus_solution/walking_bus2.c:234-326 | keeps the invariant; without a refill the queued arcs plus those still to be queued drop by one |
| FirstPass.BuildTree | For_Challenge/walking_bus_solution/walking_bus2.c:210-326 | the selected arcs are a greedy tree over all stops, which `LineGrowth.GreedyGrowsLines` describes without the order of the sort; branches, child counts and distances are those of the tree; one refill, n(n-1)/2 arcs queued, at most 1 + n(n-1)/2 iterations, all within the fixed arrays |
| Walks.LengthIsOfWalk | For_Challenge/pedibus_checker.py:118-123 | the length within a number of steps is c if and only if a list of nodes of at most that many steps follows the targets from the stop to the first school on it, and its costs add up to c |
| Walks.WalkDecided | For_Challenge/pedibus_checker.py:118-123 | a walk that reaches the school does so within n steps, so cutting it off there is exact |
| Checker.ReadLines | For_Challenge/pedibus_checker.py:74-101 | fills the arrays of targets and degrees, or stops at the first line that starts at the school, or at a stop where an earlier line starts; no line before it does |
| Checker.Walk | For_Challenge/pedibus_checker.py:119-123 | along the array of targets: the cost of a list of nodes from the stop to the school, or the verdict that no such list exists |
| Checker.ReadSolution | For_Challenge/pedibus_checker.py:72-129 | feasible if and only if every stop has one line, the school none but one to it, and every stop a walk along the lines within the limit; then the number of stops without a line to them and the sum of the dangers of the lines; every other verdict is the first fault in the order of the tests |
| Checker.OneVerdict | For_Challenge/pedibus_checker.py:72-129 | the first fault is unique: no solution satisfies the description of two verdicts |
| Checker.WalksMeasured | For_Challenge/pedibus_checker.py:118-127 | in a clean file the length along the targets decides whether a walk along the lines exists and keeps the limit |
| Checker.LeavesCounted | For_Challenge/pedibus_checker.py:111-116 | the counted leaves are the stops without a line to them |
| Checker.DangerSummed | For_Challenge/pedibus_checker.py:85 | the running total is the sum of the dangers of the lines |
| Checker.TargetsAreLines | For_Challenge/pedibus_checker.py:87-88 | in a clean file the entry of a stop is the end of its line, -1 if it has none |
| Counting.LeavesAreLines | For_Challenge/pedibus_checker.py:111-116 | in a tree without two-child stops the judge's leaf count is the number of children of the school |
| DangerPass.MinimizeDanger | For_Challenge/walking_bus_solution/walking_bus2.c:340-372 | the arrays end in the state the pass function gives for the state before, which `LeafChoice.PassTakesTurns` describes without the loop |
| DangerPass.OfferLeaves | For_Challenge/walking_bus_solution/walking_bus2.c:342-371 | the inner loop, as a function of the state before, which `LeafChoice.OffersChoose` describes without the loop |
| PassSafety.WasLeaf | For_Challenge/walking_bus_solution/walking_bus2.c:345-350 | a stop handled as a leaf was a leaf after the first pass |
| PassSafety.MovedStopsRefused | For_Challenge/walking_bus_solution/walking_bus2.c:355-357 | the unrefreshed distance test refuses every stop handled before as a target |
| PassSafety.SchoolKeepsAChild | For_Challenge/walking_bus_solution/walking_bus2.c:350 | while some stop is a leaf the school has a child, so it is never a target |
| PassSafety.MoveTarget | For_Challenge/walking_bus_solution/walking_bus2.c:350-359 | the node a leaf moves to is a stop that was not moved |
| PassSafety.MoveKeepsInv | For_Challenge/walking_bus_solution/walking_bus2.c:359-366 | one substitution keeps child counts exact, at most one child per stop, moved stops childless, limits, strictly lower and correct dangers |
| PassSafety.PassKeepsInv | For_Challenge/walking_bus_solution/walking_bus2.c:340-372 | so does the pass up to any arc |
| LeafMoves.OffersDecrease | For_Challenge/walking_bus_solution/walking_bus2.c:347-370 | each replacement in the inner loop takes a positive amount off the danger of its arc; together they account for the change, and without any the tree stays |
| LeafMoves.PassesDecrease | For_Challenge/walking_bus_solution/walking_bus2.c:340-372 | the same for all replacements of the pass; there is none if and only if the tree stays |
| LeafMoves.StaysAtSchool | For_Challenge/walking_bus_solution/walking_bus2.c:345-366 | a stop at the school is there at the end if and only if, at its turn, it has a child or no leaf is less dangerous for it and near enough |
| LeafChoice.OffersChoose | For_Challenge/walking_bus_solution/walking_bus2.c:347-370 | offering all nodes to a leaf ends with the least dangerous of those that are without a child and near enough when the turn begins, the first of several, if it is safer than the arc, else with the arc as it was |
| LeafChoice.NothingBetter | For_Challenge/walking_bus_solution/walking_bus2.c:353-366 | after the turn of a leaf no node that was open to it is less dangerous |
| LeafChoice.PassTakesTurns | For_Challenge/walking_bus_solution/walking_bus2.c:340-372 | the tree after the pass is the only one in which every arc comes from the first tree by its turn |
| WalkingBus.RecordedIsWalked | For_Challenge/walking_bus_solution/walking_bus2.c:355-366 | at any time a list of nodes along the written lines leads from the stop to the school at exactly the recorded distance, within its limit |
| WalkingBus.AcceptedThroughout | For_Challenge/pedibus_checker.py:102-127 | after any number of handled arcs the judge accepts the tree if and only if there is a stop |
| WalkingBus.JudgedFigures | For_Challenge/pedibus_checker.py:111-116 | at any time the judge's leaves plus the stops moved off the school are the branches of the first pass, and the judge's danger is the sum of the recorded ones |
| WalkingBus.PassGains | For_Challenge/walking_bus_solution/walking_bus2.c:331-380 | the judge's danger of the tree after any number of handled arcs is that of the first tree less the decrease of every single replacement, each positive, none only if nothing changed |
| WalkingBus.TotalDanger | For_Challenge/walking_bus_solution/walking_bus2.c:375-380 | the printed danger is the judge's |
| WalkingBus.WriteSolution | For_Challenge/walking_bus_solution/walking_bus2.c:398-401 | one line per arc, stop first, parent second |
| WalkingBus.Solve | For_Challenge/walking_bus_solution/walking_bus2.c:210-402 | both passes on the arrays: the file is that of the second pass of a greedy tree, with its branches and both dangers |
| WalkingBus.BothPassesAccepted | For_Challenge/pedibus_checker.py:87-127 | the judge accepts both trees of every greedy run; exact leaf counts of both; the danger falls by the sum of the single positive decreases |
| WalkingBus.FirstPassGrowsLines | For_Challenge/walking_bus_solution/walking_bus2.c:234-326 | the first pass ends with a tree that grows lines over all stops, and every such tree is greedy |
| WalkingBus.SecondPassTakesTurns | For_Challenge/walking_bus_solution/walking_bus2.c:340-372 | the final tree is the only one in which every arc of the first tree took its turn, with the distances recorded in the first pass |
| WalkingBus.ReportedLeavesRight | For_Challenge/walking_bus_solution/walking_bus2.c:329-382 | the leaf count printed last is the judge's if and only if every stop at the school, at its turn, has a child or no leaf is less dangerous for it and near enough |
| WalkingBus.SolveAndJudge | For_Challenge/pedibus_checker.py:159-160 | the program followed by the judge: lines grown by the first pass, turns taken in the second, feasible if and only if there is a stop, the printed danger, the printed leaves less the stops moved off the school |
| ReportedLeaves.ExampleReceivable | For_Challenge/walking_bus_solution/walking_bus2.c:191-208 | the distances of the example are those of points with integer coordinates |
| ReportedLeaves.OnlyTree | For_Challenge/walking_bus_solution/walking_bus2.c:234-326 | on the example there is one greedy tree |
| ReportedLeaves.ReportTooHigh | For_Challenge/walking_bus_solution/walking_bus2.c:382 | on the example the program prints three leaves and the judge accepts with two |
| Protocol.SpawnedInv | ACA Project/API_CPP/src_dev/mango_hn_gn.c:77-98 | the initial words and tasks satisfy the invariant |
| Protocol.PeekStep | ACA Project/API_CPP/src_dev/mango_hn.c:80-82 | looking at the release word keeps the invariant |
| Protocol.SignalStep | ACA Project/API_CPP/src_dev/mango_hn.c:69-74 | counting down the barrier word keeps it |
| Protocol.SignalledValue | ACA Project/API_CPP/src_dev/mango_hn.c:70-73 | a signal writes the number of tasks that have not arrived before it, never 0 |
| Protocol.WaitStep | ACA Project/API_CPP/src_dev/mango_hn.c:51-62 | polling the release word keeps it |
| Protocol.ResetStep | ACA Project/API_CPP/src_dev/mango_hn.c:102-105 | restoring the barrier word keeps it |
| Protocol.ReleaseStep | ACA Project/API_CPP/src_dev/mango_hn.c:105-106 | releasing the round keeps it |
| Protocol.ExitStep | ACA Project/API_CPP/src_dev/mango_hn.c:26-33 | exiting keeps it |
| Protocol.MainStep | ACA Project/API_CPP/src_dev/mango_hn.c:64-67 | the polling joiner keeps it |
| Protocol.RunInv | ACA Project/API_CPP/src_dev/mango_hn.c:26-109 | the invariant holds in every state of every schedule |
| GroupSafety.BarrierSafety | ACA Project/API_CPP/src_dev/mango_hn.c:76-109 | no task passes its k-th barrier before all have called their k-th; two tasks are at most one round apart |
| GroupSafety.ReleaseParity | ACA Project/API_CPP/src_dev/mango_hn.c:80-106 | the release word, stored or held, has the parity of the finished rounds, and the leader will write that of the next |
| GroupSafety.ReleasedExactly | ACA Project/API_CPP/src_dev/mango_hn.c:51-62 | a polling task leaves if and only if its own round has been released |
| GroupSafety.ZeroMeansHeld | ACA Project/API_CPP/src_dev/mango_hn_gn.c:61-75 | a word is 0 if and only if somebody holds it, and never two hold it |
| GroupSafety.HolderReturnsWord | ACA Project/API_CPP/src_dev/mango_hn.c:26-109 | the holder of a word gives it back with its next step, never as 0 |
| GroupSafety.CounterConservation | ACA Project/API_CPP/src_dev/mango_hn.c:69-107 | barrier word, stored or held, plus arrivals since the reset is ntasks + 1 |
| GroupSafety.OneLeader | ACA Project/API_CPP/src_dev/mango_hn.c:84-88 | there is a last arriver exactly while all tasks have arrived, and never two |
| GroupSafety.RestoredBeforeRelease | ACA Project/API_CPP/src_dev/mango_hn.c:102-106 | when a round is about to be released the counter is restored and all other tasks are polling |
| GroupSafety.JoinSafety | ACA Project/API_CPP/src_dev/mango_hn.c:26-67 | exit word, stored or held, plus tasks gone is ntasks + 1; an exit never writes 0; the joiner returns only after all tasks have exited |
| GroupDistance.StepExact | ACA Project/API_CPP/src_dev/mango_hn.c:26-109 | a step lowers the distance to completion by exactly one, or, if it reads 0, polls too early, gives back a word polled too early or belongs to an actor that is done, not at all |
| GroupDistance.RemainingSign | ACA Project/API_CPP/src_dev/mango_hn.c:26-109 | the distance is never negative, and 0 if and only if all tasks have exited and join has returned |
| GroupDistance.CompleteExactly | ACA Project/API_CPP/src_dev/mango_hn.c:26-109 | n tasks with K barrier calls each are complete if and only if the schedule had n(7K + 3) + 2K + 2 lowering steps, and none has more |
| GroupProgress.SomebodyHelps | ACA Project/API_CPP/src_dev/mango_hn.c:40-109 | in every reachable state short of completion some actor holds a word or would find the word it needs free |
| GroupProgress.HelpfulStep | ACA Project/API_CPP/src_dev/mango_hn.c:26-109 | a helpful step lowers the distance, or keeps it and gives back a word |
| GroupProgress.Progress | ACA Project/API_CPP/src_dev/mango_hn.c:26-109 | with equal numbers of barrier calls every schedule can be continued until all tasks have exited and join has returned |
| GroupProgress.NeverComplete | ACA Project/API_CPP/src_dev/mango_hn.c:76-109 | with unequal numbers join returns on no schedule |
| GroupProgress.WrappedIsStuck | ACA Project/API_CPP/src_dev/mango_hn_gn.c:80-81 | when ntasks + 1 wraps to 0 both words stay 0 and nobody gets past them |
| GroupProgress.JoinReturns | ACA Project/API_CPP/src_dev/mango_hn.c:64-67 | join can return if and only if all tasks call the barrier equally often and ntasks + 1 does not wrap |
| GroupFairness.AtIsRun | ACA Project/API_CPP/src_dev/mango_hn.c:26-109 | a state of an infinite schedule is the state after its finite prefix |
| GroupFairness.ReleaseFreeAgain | ACA Project/API_CPP/src_dev/mango_hn.c:51-62 | while only polls hold words, a fair schedule frees the release word again |
| GroupFairness.NotIdling | ACA Project/API_CPP/src_dev/mango_hn.c:26-109 | short of completion a fair schedule always takes another lowering step |
| GroupFairness.FairExactlyCompletes | ACA Project/API_CPP/src_dev/mango_hn.c:26-109 | an infinite schedule completes the group if and only if every actor that is helpful again and again takes a helpful step again and again |
| GroupStarvation.FairButStuck | ACA Project/API_CPP/src_dev/mango_hn.c:40-107 | two tasks that can complete, and a schedule in which every actor steps again and again and that never completes, however far it is followed: a leader that always reads the release word while the poller holds it |
| Runtime.EventWord.ReadSynchronization | ACA Project/API_CPP/src_dev/mango_hn_gn.c:68-75 | returns the word and leaves 0 |
| Runtime.EventWord.WriteSynchronization | ACA Project/API_CPP/src_dev/mango_hn_gn.c:61-66 | stores the word |
| Runtime.TaskGroup.Spawn | ACA Project/API_CPP/src_dev/mango_hn_gn.c:77-98 | sets up the words and tasks of the protocol's initial state |
| Runtime.TaskGroup.StepTask | ACA Project/API_CPP/src_dev/mango_hn.c:26-109 | the next read or write of a task, in memory, is the protocol's step |
| Runtime.TaskGroup.StepMain | ACA Project/API_CPP/src_dev/mango_hn.c:51-67 | so is the next read or write of the joiner |
| Runtime.Execute | ACA Project/API_CPP/src_dev/mango_hn_gn.c:77-98 | executing a schedule in memory gives the state of the protocol's run |
| Graphs.TotalAppend | For_Challenge/prims_alg.c:115-145 | the total of two lists of links is the sum of their totals |
| Graphs.TotalOne | For_Challenge/prims_alg.c:97-140 | the total of one link is its weight, 100000 if there is no such edge |
| SpanningTrees.ReachedTogether | For_Challenge/prims_alg.c:119-143 | the chosen edges link the reached nodes |
| SpanningTrees.Exchange | For_Challenge/prims_alg.c:119-143 | n-1 links that link all nodes and begin with the first k choices become such links that begin with k + 1 and are not heavier |
| SpanningTrees.NotHeavier | For_Challenge/prims_alg.c:119-143 | no n-1 links that link all nodes are lighter than the choices, a missing edge costing 100000 |
| SpanningTrees.ChoicesAreEdges | For_Challenge/prims_alg.c:123-135 | in a connected graph every choice is an edge |
| SpanningTrees.MinimumSpanningTree | For_Challenge/prims_alg.c:97-145 | the choices form a spanning tree if and only if the graph is connected; connected or not, nothing that links all nodes by n-1 links is lighter |
| Prim.CacheUpdated | For_Challenge/prims_alg.c:63-77 | offering the new node to every node keeps the cache equal to a scan of the whole cut |
| Prim.CheapestCached | For_Challenge/prims_alg.c:121-139 | the node with the smallest cached distance, with its cached link, is the cheapest link of the cut |
| Prim.PrimSolver.UpdateDistances | For_Challenge/prims_alg.c:63-77 | every entry is relaxed against the new node and nothing else changes |
| Prim.PrimSolver.Nearest | For_Challenge/prims_alg.c:121-131 | the first node outside the tree with the smallest cached distance |
| Prim.PrimSolver.Start | For_Challenge/prims_alg.c:95-113 | the initial cache agrees with the cut around node 0 |
| Prim.PrimSolver.Add | For_Challenge/prims_alg.c:133-141 | adds a cheapest link and keeps flags and cache in agreement |
| Prim.PrimSolver.Run | For_Challenge/prims_alg.c:95-145 | prints n-1 choices of Prim's algorithm and reports the sum of their costs |
| Prim.MinimumTree | For_Challenge/prims_alg.c:97-145 | a spanning tree exactly for connected graphs; the reported total is the cost of the printed links and, connected or not, the least possible; 0 for a single node |

## Left out

- Files, printing, timing and memory: the instance is a parameter and the solution file a result.
- Floating point: distances and dangers are exact reals, so rounding, NaN and the judge's rounding to four decimals are not modelled.
- Distances: the matrix is a parameter with the properties of distances, which distances of coordinates are proved to have; computing square roots is not modelled.
- Arc records: values in array slots. The program shares pointers to records, each of which is in one list only, so sharing is not modelled.
- The judge reads node numbers in range; its reaction to malformed lines is not modelled. Its tests of an out-degree above 1, which cannot fire after the test before, are omitted.
- The weighted solution value and the challenge value are output formatting.
- Semaphores, shared memory, `pthread_create` and the suspend call: each protected read or write is one atomic step.
- The fifo part of the barrier and the host handshake: the last arriver may be delayed arbitrarily there, which every schedule allows, but fifo words are not modelled. The three group words are assumed distinct.
- Fairness: whether the operating system's scheduler is fair in the sense of `GroupFairness` is not claimed.
- `For_Challenge/walking_bus.c` and `walking_bus2_UNTESTED.c` are drafts; the copy in `walking_bus_solution_FavaroFimZuliani` is the same program.
- Optimality of the walking bus is not claimed by its authors.
