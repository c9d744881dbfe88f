# Verified models of the graph, dispatch, traffic and patch code

This project models the self-contained algorithms of the repository in Dafny and proves what they
are relied on for. `dafny verify dfyconfig.toml` checks all of it. There is one module per source
component, beside a few for shared notions:

- `Topsort` and `PairGraphs`: Kahn's algorithm on counts of parents, as one list and level by level.
- `FindCycles`, `CycleGraphs` and `Rotations`: the elementary cycles of a graph, found with a stack
  of simple paths, and the comparison of cycles up to rotation.
- `Dispatcher`: the parallel dispatcher of `test.py` as a transition system of one main thread, any
  number of worker threads, two FIFO queues, sentinels and an interrupt flag that may be set at any
  moment. All statements are about every interleaving.
- `Histories`: what happens to each test along a run of the dispatcher, and that reports, counters and
  the exit code tell just that.
- `TypeGraphs`, `TypeRecords` and `TypePaths`: registered types as a labelled graph with its walks,
  the records made of them, and the backtracking search that collects configuration paths.
- `MissChains`: counting on a ring of ranks, and the triangular correction of an array in place.
- `Interpolation`, `CustomRands` and `FlowBins`: piecewise linear size distributions with their two
  lookups and integrals, and the choice of size bins. Floating-point numbers are exact reals.
- `TrafficGen`: the merge of the arrivals of all hosts by time.
- `PatchText`, `PatchRoundTrip` and `Patches`: unified diffs as values and text, the regular
  expressions and the parser on values, and the mutable patch objects with their printing and
  parsing. The format is "Diff -u or -U Output Format" of POSIX.1-2017 `diff`, in the form with
  explicit counts.
- `PatchParser`: what the regular expressions match and what the parser builds, told without them.
- `Permutations` and `Binary`: all rearrangements of a list, and binary numbers as strings.
- `TcpWriter`: a fixed amount of data written to a socket that takes what it has room for.
- `Lists`, `Sums` and `Outcomes`: shared helpers.

Loops and objects that change state are methods and classes with loop invariants; what they promise
is stated through functions and predicates that are defined independently of them, and the lemmas
are about those. The scripts are read as Python 2 where that matters: `/` on integers floors,
dictionaries have an arbitrary order, and `StopIteration` ends a generator.

## Where the code differs from its description

- `topsort` explains the `CycleError` with every leftover element having a child. What it has is a
  leftover parent: left over is exactly what is on or below a cycle, so the explanation is right
  exactly if each such element has a child (`Topsort.LeftoversHaveChildrenIff`).
- `Uniquefy` takes its container by value, so the records that `Gather` means to make unique keep
  their duplicates. `TypeRecords.DifferentIffNotDoubled` says exactly when there are none, for names
  that can be read off a path; that type names differ, and attribute names within a type, is what
  simulation/src/core/model/type-id.cc:388 and 666 enforce. The aggregation of ns3::Node with
  ns3::Icmpv4L4Protocol is recorded twice (print-introspected-doxygen.cc:537 and 539), so records do
  repeat (`TypeRecords.AggregatedTwice`).
- The miss chains are off by the number of ranks times the number of packets missed by all ranks, up
  in the last place and down in the one before (`MissChains.CorrectedCounts`). They are right exactly
  if there is no such packet (`MissChains.RightIffNobodyMissesAll`).
- A negative limit on processes gives no workers, and the main thread then waits for ever if there is
  any job (`Dispatcher.FinishesIffLimitNotNegative`).
- Written patches are not always parsed back: a removed text that starts with "-- " and an added text
  that starts with "++ " are taken for file names. `PatchRoundTrip.RoundTripIff` is the exact
  condition.
- The TCP writer closes its socket whenever its loop ends, also when the buffer is full and data is
  left (`TcpWriter.ClosedEarlyIffFull`). The same loop in
  simulation/examples/tcp/tcp-large-transfer.cc:215-218 closes only when everything is written.
- Its byte count is shared by all flows: a flow that starts sets it back, and a flow that is still
  sending goes on from where the new one has come to. If the first flow had come to n and the new one
  to c, and the first one is then served to the end, it has been given n + 20000 - c bytes
  (`TcpWriter.Program.SecondFlowBetween`, `TcpWriter.Program.FirstByteAgain`). The buffer is never
  filled in this file, so that the bytes themselves do not differ (`TcpWriter.SameBytesKeepStream`);
  for data that does, the same contract says exactly when they are the right ones.
- `int2bin` with width 0 cuts nothing off and never complains that a number is too large, and a
  negative number ends in a `KeyError`.
- Inter-arrival times are cut to whole nanoseconds and can be zero; a host retires exactly when its
  draws lead beyond the end (`TrafficGen.RetiredIffBeyond`), so that one that only draws zeros never
  does. A single host looks for a destination for ever (`TrafficGen.GenerateFlows`).
- `getPercentileFromValue` extrapolates to negative percentiles between 0 and the first size
  (`CustomRands.NegativeBelowFirst`), and `getValueFromPercentile` has no result beyond percentile 100.

## Model

| member | source | states |
|---|---|---|
| Topsort.Topsort | simulation/bindings/python/topsort.py:61-112 | `CycleError` exactly for pair lists with a directed cycle, duplicates and self-loops allowed; otherwise every mentioned element once, parents before children. The error carries what was sorted and the tables of the rest, where each leftover element still waits for a leftover parent; the leftover elements are exactly those on or below a cycle |
| Topsort.BuildTables | simulation/bindings/python/topsort.py:77-90 | the tables hold, for each element, the number of pairs into it and the list of its children in list order, repetitions kept |
| Topsort.Roots | simulation/bindings/python/topsort.py:93 | the elements whose count is zero, each once, in an order that nothing is assumed about |
| Topsort.KnockDown | simulation/bindings/python/topsort.py:100-103 | counting down a list of children leaves each count equal to the number of pairs from parents not yet processed, and queues exactly the children that reach zero, after all their parents |
| Topsort.Process | simulation/bindings/python/topsort.py:97-106 | one round of the loop keeps the tables and the queue right for one more processed parent and shortens the table of counts |
| Topsort.TakeParent | simulation/bindings/python/topsort.py:98-103 | the children list of a parent whose count is zero never names that parent or a deleted element, and holds each child as often as its count has to go down |
| Topsort.StuckMeansCycle | simulation/bindings/python/topsort.py:108-111 | every element left over with nonzero counts is on or below a directed cycle |
| Topsort.Conclude | simulation/bindings/python/topsort.py:97-112 | when the queue has been used up, leftover counts exist exactly if there is a cycle, and are positive |
| Topsort.LeftoverIffBelowCycle | simulation/bindings/python/topsort.py:108-111 | the elements that the error names are exactly those that a walk leads to from a cycle |
| Topsort.LeftoversHaveChildrenIff | simulation/bindings/python/topsort.py:109-110 | the remark that each of them has a child is right exactly if every element on or below a cycle has one |
| Topsort.LeftoverWithoutChild | simulation/bindings/python/topsort.py:109-110 | sorting the pairs (2,3), (3,2), (3,4) raises an error that names 4, which has no child |
| PairGraphs.ParentsEverywhereGiveCycle | simulation/bindings/python/topsort.py:108-111 | in a finite set whose members all have parents in it, every member is on or below a cycle |
| PairGraphs.TopologicalOrderHasNoCycle | simulation/bindings/python/topsort.py:61-67 | a list with every parent before its children leaves no room for a cycle |
| PairGraphs.ProcessOne | simulation/bindings/python/topsort.py:97-103 | processing a parent lowers the count of every element by the number of its entries in the parent's list |
| Topsort.TopsortLevels | simulation/bindings/python/topsort.py:157-172 | level k holds exactly the elements whose longest chain of ancestors has k edges; the end is a `CycleError` exactly if there is a cycle; which then names exactly the elements on or below one; otherwise the levels laid end to end are a topological order of all elements |
| Topsort.TopsortLevelsCore | simulation/bindings/python/topsort.py:203-232 | the same for any tables given directly that describe some pair list, even tables that leave out or include elements without children |
| Topsort.ProcessLevel | simulation/bindings/python/topsort.py:218-225 | deleting a whole level counts its children down to what the processed set says |
| Topsort.NextLevel | simulation/bindings/python/topsort.py:205-215 | the elements without unprocessed parents are those whose longest chain of ancestors is one edge longer than in the level before |
| Topsort.LevelsConclude | simulation/bindings/python/topsort.py:227-232 | leftover counts exist exactly if there is a cycle, for the elements on or below one; without one the levels reach every element |
| Topsort.LevelsPartition | simulation/bindings/python/topsort.py:203-215 | levels by depth are disjoint and in topological order when laid end to end |
| PairGraphs.DepthIsUnique | simulation/bindings/python/topsort.py:203-215 | an element has at most one longest-chain length, so it is in at most one level |
| Rotations.IsRotated | simulation/bindings/python/rad_util.py:735-775 | true exactly if the second list is the first one started elsewhere; two empty lists raise an `IndexError` |
| Rotations.Symmetric | simulation/bindings/python/rad_util.py:735-775 | being rotated into each other is symmetric |
| Rotations.Transitive | simulation/bindings/python/rad_util.py:735-775 | being rotated into each other is transitive, so that comparing with one representative per cycle is enough |
| FindCycles.FindCycles | simulation/bindings/python/topsort.py:343-385 | the cycles reported are the elementary cycles of the graph, each exactly once up to rotation, whatever the order of the keys |
| FindCycles.ExploreRoot | simulation/bindings/python/topsort.py:351-385 | the worklist of one root terminates and reports every cycle that a simple path from the root closes |
| FindCycles.VisitChildren | simulation/bindings/python/topsort.py:356-385 | each child of the path taken from the stack either closes a reported cycle or gives a longer simple path on the stack, and the stack gets lighter |
| FindCycles.VisitChild | simulation/bindings/python/topsort.py:363-385 | a child on the path gives the elementary cycle from its first occurrence on; any other child extends the path and is marked visited |
| FindCycles.Report | simulation/bindings/python/topsort.py:370-377 | a cycle is added unless it is a rotation of a reported one, and no two reported cycles are rotations of each other |
| FindCycles.ChildrenWeighLess | simulation/bindings/python/topsort.py:352-385 | the simple paths that can grow out of all children of a path weigh less than the path itself |
| FindCycles.PushWeight | simulation/bindings/python/topsort.py:379-382 | what one stacked path adds to the weight, for paths of a graph with n nodes |
| FindCycles.AllExplored | simulation/bindings/python/topsort.py:352-385 | with the stack empty every simple path from the root has been taken from it |
| FindCycles.WalkThenRound | simulation/bindings/python/topsort.py:346-351 | a simple path to the first node on a cycle, followed by that cycle, is a simple path |
| FindCycles.ReachableIsListed | simulation/bindings/python/topsort.py:346-351 | every elementary cycle that can be reached from a finished root is reported up to rotation |
| FindCycles.NothingMissed | simulation/bindings/python/topsort.py:346-351 | skipping roots that have been visited loses no cycle |
| CycleGraphs.RotateCycle | simulation/bindings/python/topsort.py:366-374 | an elementary cycle started at any of its nodes is an elementary cycle and a rotation of it |
| CycleGraphs.SuffixIsCycle | simulation/bindings/python/topsort.py:366-368 | the part of the path from the repeated node on is an elementary cycle |
| Dispatcher.StepInv | simulation/test.py:965-1033 | every step of any thread, and an interrupt at any moment, keeps the invariant: order of phases, FIFO discipline, contents of all places, and the conservation of jobs and sentinels |
| Dispatcher.StepConserves | simulation/test.py:965-1033 | every dispatched job stays in exactly one of the input queue, a worker, the output queue and the collected jobs; every sentinel stays in the input queue or with a returned worker |
| Dispatcher.StepKeepsContents | simulation/test.py:979-1033 | only real jobs reach the output queue; what is reported is the dispatched job, marked as interrupted only after an interrupt, with its return code changed only if it was not skipped (to which code, says `Histories.CollectedTruth`) |
| Dispatcher.StepKeepsOrder | simulation/test.py:1664-1667 | jobs stay ahead of sentinels in the input queue, so that no job is left there once a worker has returned |
| Dispatcher.StepTotal | simulation/test.py:965-1033 | how each step changes any quantity that is summed over the places |
| Dispatcher.StepsCountDown | simulation/test.py:965-1033 | each step but an interrupt uses up one of the steps that are left |
| Dispatcher.RunInv | simulation/test.py:1366-1406 | the invariant holds at the end of every run, under every interleaving |
| Dispatcher.EveryRunIsBounded | simulation/test.py:965-1033 | every run has at most six steps per job and three per worker, not counting interrupts |
| Dispatcher.NotStuck | simulation/test.py:1686-1687 | as long as there is a worker or nothing to do, a state before completion has a step to go on with |
| Dispatcher.StuckIffNoWorkers | simulation/test.py:1686-1687 | runs that cannot go on are complete exactly if there is a worker or there is no job |
| Dispatcher.NoWorkersNoResults | simulation/test.py:1403-1406 | without workers nothing is ever put on the output queue |
| Dispatcher.FinishesIffLimitNotNegative | simulation/test.py:1392-1406 | the dispatcher finishes exactly if the limit on processes is not negative or there is no job |
| Dispatcher.CompletedRun | simulation/test.py:1825-1826 | at the end all workers have returned, both queues are empty and every job has been collected exactly once, as a report on what was dispatched; that the reports are true, says `Histories.CollectedTruth` |
| Dispatcher.Verdict | simulation/test.py:1679-1720 | the five counters are the numbers of collected jobs of each kind, and the exit code is 0 exactly if passed and skipped jobs make up the total |
| Dispatcher.StatusesPartition | simulation/test.py:1686-1720 | every collected job is counted under exactly one status, the interrupted ones under none of the counters |
| Dispatcher.CompletedVerdict | simulation/test.py:1909-1912 | in every completed run, interrupted or not, the counters and the interrupted jobs sum to the number of tests, and passed plus skipped is that number exactly if every job was skipped or reported code 0 without being interrupted |
| Dispatcher.Workers | simulation/test.py:1392-1403 | as many workers as the machine has processors and a nonzero limit allows, none for a negative limit |
| Histories.StepTrail | simulation/test.py:965-1033 | every step keeps the histories right: a job that waits has not been touched, a job let through has met the flag once before any interrupt and has not been run, and what is reported has happened |
| Histories.Alone | simulation/test.py:965-1033 | a job that a worker has is in no queue, with no other worker and not collected |
| Histories.CollectedTruth | simulation/test.py:979-1033 | in every run, a collected job that is marked as interrupted met the flag exactly once, after an interrupt, and was never run; any other met it exactly once, before every interrupt, and if it is not one to skip it was run by exactly one step and reports the code which that run returned |
| Histories.FirstInFirstOut | simulation/test.py:965-1033 | in every run the workers take the tests in the order of dispatch and then the sentinels, and the main thread collects the reports in the order in which they were put |
| Histories.CountedByEnd | simulation/test.py:1686-1720 | in every completed run the number counted under a status is the number of tests that ended so: flag met after an interrupt, let through and to be skipped, or let through and run once with code 0, 1, 2 or another |
| Histories.Finish | simulation/test.py:1679-1720 | at the end of every completed run each of the five counters is the number of tests whose own run ended so, and the exit code is 0 exactly if every test met the flag before every interrupt and was one to skip or was run once with code 0 |
| Histories.EveryOutcome | simulation/test.py:965-1033 | whatever a run returns, and also when an interrupt comes before it, there is a complete run that reports just that |
| TypePaths.StaticInformation.DoGather | simulation/utils/print-introspected-doxygen.cc:420-503 | the search terminates on every finite graph, cyclic or not, leaves both stacks as they were, and appends one record for each trail in the order of the search |
| TypePaths.StaticInformation.Descend | simulation/utils/print-introspected-doxygen.cc:449-453 | pushing, searching and popping adds the records of one more edge and restores both stacks |
| TypePaths.StaticInformation.GatherAttributes | simulation/utils/print-introspected-doxygen.cc:429-468 | the attribute loop follows the pointer attributes that do not point to plain objects, and the containers, in order, each as one edge (which, says `TypeGraphs.EdgeIff`) |
| TypePaths.StaticInformation.GatherChildren | simulation/utils/print-introspected-doxygen.cc:469-481 | the second loop follows every registered type that is a descendant |
| TypePaths.StaticInformation.GatherAggregates | simulation/utils/print-introspected-doxygen.cc:482-502 | the third loop follows every aggregation that names the type, to the other member |
| TypePaths.StaticInformation.Gather | simulation/utils/print-introspected-doxygen.cc:411-417 | the records are those of the search, and stay as they are: from the start they are all different only if no edge is doubled, and exactly then where names can be read off a path |
| TypePaths.StaticInformation.GetCurrentPath | simulation/utils/print-introspected-doxygen.cc:328-338 | the steps on the path, each behind a slash |
| TypePaths.StaticInformation.RecordOutput | simulation/utils/print-introspected-doxygen.cc:341-346 | the type with the current path is appended to the output |
| TypePaths.StaticInformation.HasAlreadyBeenProcessed | simulation/utils/print-introspected-doxygen.cc:349-361 | true exactly for the types on the stack |
| TypeGraphs.EdgeIff | simulation/utils/print-introspected-doxygen.cc:429-502 | there is an edge with a step to a target exactly if an attribute points to it, other than to plain objects, and is named so; or is a container of it, named so with "/[i]"; or it is a registered descendant, or the other member of an aggregation, each named "$" and its name |
| TypeGraphs.EdgesFromEntries | simulation/utils/print-introspected-doxygen.cc:429-502 | each attribute, descendant and aggregation of this kind gives exactly one edge, attributes first, then descendants, then aggregations, each in the order of its list |
| TypeGraphs.GivesOne | simulation/utils/print-introspected-doxygen.cc:429-502 | no entry gives two edges |
| TypeGraphs.TrailsSound | simulation/utils/print-introspected-doxygen.cc:420-503 | every trail of the search is a walk that repeats no type and avoids the types being processed, with its labels and its last type |
| TypeGraphs.TrailsComplete | simulation/utils/print-introspected-doxygen.cc:420-503 | every such walk is a trail of the search |
| TypeGraphs.TrailsInOrder | simulation/utils/print-introspected-doxygen.cc:420-503 | the trails come in the order of a depth-first search: a type before what is below it, and the edges in their order |
| TypeGraphs.TrailsOnce | simulation/utils/print-introspected-doxygen.cc:420-503 | no walk is a trail twice |
| TypeRecords.DifferentIffNoCollision | simulation/utils/print-introspected-doxygen.cc:411-417 | on every graph the records are all different exactly if no two non-repeating walks lead to the same type by the same path |
| TypeRecords.DifferentIffNotDoubled | simulation/utils/print-introspected-doxygen.cc:411-417 | two equal edges out of a type that can be reached without passing their target always repeat a record; if names differ and can be read off a path, the records are all different exactly if there are no such edges |
| TypeRecords.WithoutLoops | simulation/utils/print-introspected-doxygen.cc:424-427 | every walk has a non-repeating one to the same type through some of the same types |
| TypeRecords.PathsJoin | simulation/utils/print-introspected-doxygen.cc:328-338 | the path of one step is the step behind a slash, and the path of steps after others is the one path behind the other |
| TypeRecords.StepsBetweenSlashes | simulation/utils/print-introspected-doxygen.cc:328-338 | a path string cut at its slashes gives back the steps, if they hold none |
| TypeRecords.PathDetermines | simulation/utils/print-introspected-doxygen.cc:329-338 | a path string determines the steps it was joined from, if the names in them hold no slash and none is "[i]" |
| TypeRecords.StepDetermines | simulation/utils/print-introspected-doxygen.cc:429-502 | if attribute names differ within a type and type names differ, edges out of a type with the same step are equal |
| TypeRecords.CollisionDoubles | simulation/utils/print-introspected-doxygen.cc:420-503 | then two walks with the same path part ways over two equal edges |
| TypeRecords.AggregatedTwice | simulation/utils/print-introspected-doxygen.cc:531-551 | an aggregation that is listed twice, as at lines 537 and 539, doubles an edge, so that records repeat |
| TypePaths.StaticInformation.GatherAll | simulation/utils/print-introspected-doxygen.cc:558-562 | one gathering for each root object: the records are appended search by search, and are all different exactly if no two of the searches make the same one |
| TypeRecords.AllDifferentIff | simulation/utils/print-introspected-doxygen.cc:558-562 | the records of several searches are all different exactly if no two walks, from one or two of their types, lead to the same type by the same path |
| TypeRecords.SearchedTwice | simulation/utils/print-introspected-doxygen.cc:558-562 | a type that is searched from twice repeats its record |
| MissChains.CountWindows | analysis/src/models/bitmap-repartition.py:137-154 | place i of the vector is the number of pairs of a starting rank and a packet such that i + 1 ranks in a row round the ring all miss the packet |
| MissChains.Correct | analysis/src/models/bitmap-repartition.py:158-160 | the in-place elimination leaves the second differences of the vector |
| MissChains.CorrectionSolves | analysis/src/models/bitmap-repartition.py:156-160 | those are the one and only solution of raw[j] = sum over i >= j of (i - j + 1) * c[i] |
| MissChains.Checksum | analysis/src/models/bitmap-repartition.py:163-166 | the printed checksum is the first entry before the correction |
| MissChains.RunsAreSecondDifferences | analysis/src/models/bitmap-repartition.py:156-160 | the number of maximal runs of exactly i + 1 adjacent missing ranks is the second difference of the window counts |
| MissChains.CorrectedCounts | analysis/src/models/bitmap-repartition.py:137-160 | the value computed for each length, with the exact error in the last two places |
| MissChains.RightIffNobodyMissesAll | analysis/src/models/bitmap-repartition.py:137-160 | the counts of chains are right for every length exactly if no packet is missed by all ranks |
| MissChains.ChainRepartition | analysis/src/models/bitmap-repartition.py:137-166 | the whole computation: the corrected vector and the checksum, for every set of received packets |
| MissChains.SingleWindows | analysis/src/models/bitmap-repartition.py:106-110 | the checksum counts the missed (rank, packet) combinations |
| CustomRands.CustomRand.TestCdf | traffic_gen/custom_rand.py:5-13 | true exactly for lists of at least two points that grow strictly in both coordinates from percentile 0 to 100; an empty list raises an `IndexError` |
| CustomRands.CustomRand.SetCdf | traffic_gen/custom_rand.py:14-18 | an accepted list replaces the old one, any other list leaves it |
| CustomRands.CustomRand.GetValueFromPercentile | traffic_gen/custom_rand.py:39-44 | the interpolated value up to percentile 100, and no result beyond |
| CustomRands.CustomRand.GetPercentileFromValue | traffic_gen/custom_rand.py:31-38 | the interpolated percentile from size 0 to the last size, and -1 elsewhere; it is within [0, 100] exactly for sizes from the first to the last one that are not negative |
| CustomRands.CustomRand.GetAvg | traffic_gen/custom_rand.py:19-27 | the whole integral: the same as `getIntegralY(100)` |
| CustomRands.CustomRand.GetIntegralY | traffic_gen/custom_rand.py:45-56 | the integral up to the percentile, and the whole integral beyond percentile 100 |
| CustomRands.PercentileOfValue | traffic_gen/custom_rand.py:31-44 | looking up the percentile of the value of a percentile gives that percentile, segment boundaries included |
| CustomRands.ValueOfPercentile | traffic_gen/custom_rand.py:31-44 | the other way round |
| CustomRands.ValueGrows | traffic_gen/custom_rand.py:39-44 | the value is strictly increasing |
| CustomRands.PercentileGrows | traffic_gen/custom_rand.py:31-38 | the percentile is strictly increasing |
| CustomRands.LookupsAtPoints | traffic_gen/custom_rand.py:31-44 | both lookups go through the points of the distribution |
| CustomRands.NegativeBelowFirst | traffic_gen/custom_rand.py:31-38 | the percentile is negative exactly for sizes below the first one |
| CustomRands.IntegralBetween | traffic_gen/custom_rand.py:45-56 | the integral between two percentiles lies between the rectangles on the two values |
| CustomRands.MeanBetween | traffic_gen/custom_rand.py:19-27 | the mean lies between the smallest and the largest size |
| FlowBins.FlowBins | traffic_gen/flow_bins.py:22-52 | the whole script: an empty file raises, an unacceptable distribution is refused, and otherwise the lines printed are the sizes met on the way down, rising in size and percentile, sizes above 1000 at most doubling |
| FlowBins.ChooseBins | traffic_gen/flow_bins.py:28-49 | the loop terminates, its visits are a descent from percentile 100 to percentile 1 or to size 0 in such rounds, and the bins are the positive sizes visited, strictly falling, each bin above 1000 followed by one not below its half |
| FlowBins.DescentIsUnique | traffic_gen/flow_bins.py:28-49 | the visits, with their percentiles, are determined by the distribution |
| FlowBins.NextVisit | traffic_gen/flow_bins.py:34-49 | one round goes to the percentile p - 1, or to 1 from at most 2, and to the truncated value there, or to the half of a size above 1000 if that is more; it lowers the percentile by at most 1 and never reaches the error branch |
| FlowBins.OneOrHalf | traffic_gen/flow_bins.py:34-47 | neighbouring percentiles are exactly 1 apart, or the last one is 1, or the size is the half of a size above 1000 that would have shrunk to less |
| FlowBins.HalfBetween | traffic_gen/flow_bins.py:41-47 | the half of a large size lies strictly between the values one percentile apart, so its percentile is not negative and its value is that half |
| FlowBins.PrintBins | traffic_gen/flow_bins.py:50-52 | each size is printed once, with the percentile at which the value is exactly that size |
| FlowBins.Sort | traffic_gen/flow_bins.py:50 | ascending and a permutation, strictly ascending for distinct bins |
| TrafficGen.GenerateFlows | traffic_gen/traffic_gen.py:78-97 | for all draws of times, destinations and sizes: one waiting entry per host; flows within the window, in the order of their times and at equal times of their sources; each retired host's flows exactly its arrivals whose successor is still within the window; each flow goes to the first destination drawn in its round that is not the source, and has the size drawn for it, or 1 if that is not positive; no host is left once enough of the times drawn were not zero, and a single host never finds a destination |
| TrafficGen.DrawDestination | traffic_gen/traffic_gen.py:84-86 | the first drawn destination that is not the source |
| TrafficGen.Round | traffic_gen/traffic_gen.py:79-95 | one round takes the least entry, draws its time and a destination, sends or retires, and keeps all that is known of the rounds so far |
| TrafficGen.Recorded | traffic_gen/traffic_gen.py:84-94 | each round picks the first destination after the ones used up that is not the source, and a flow sent in it has that destination and the next size |
| TrafficGen.Head | traffic_gen/traffic_gen.py:79-81 | the head is the least entry by time and host |
| TrafficGen.Sent | traffic_gen/traffic_gen.py:89-95 | sending a flow keeps all of that |
| TrafficGen.SentInOrder | traffic_gen/traffic_gen.py:89-95 | sending the flow of the least entry keeps the flows ordered by time and source and nobody behind |
| TrafficGen.Retired | traffic_gen/traffic_gen.py:87-88 | so does retiring a host |
| TrafficGen.BudgetReplaced | traffic_gen/traffic_gen.py:95 | moving a host on by a positive time uses up part of a bound on the draws still needed |
| TrafficGen.BudgetDrawn | traffic_gen/traffic_gen.py:95 | a time of zero uses up nothing of it, and leaves the hosts as they are |
| TrafficGen.BudgetRemoved | traffic_gen/traffic_gen.py:88 | so does retiring a host |
| TrafficGen.RetiredIffBeyond | traffic_gen/traffic_gen.py:82-88 | whatever was drawn, a host has retired exactly if it has drawn and its draws lead from its first arrival beyond the end |
| TrafficGen.ZerosNeverRetire | traffic_gen/traffic_gen.py:82-88 | draws of zero never retire a host that starts within the window |
| Patches.PatchChunkLine.Write | simulation/utils/check-style.py:214-227 | the mark of the kind in front of the text, or an exception and nothing written if the kind is not set |
| Patches.PatchChunk.Src | simulation/utils/check-style.py:263-272 | the lines that are removed or kept, in their order, as many as the header says |
| Patches.PatchChunk.Dst | simulation/utils/check-style.py:273-282 | the lines that are added or kept, in their order |
| Patches.PatchChunk.Write | simulation/utils/check-style.py:283-304 | the header and the lines, up to a line whose kind is not set, which raises; for positions that are not negative the header in the file holds the two positions and, behind each, the number of the lines that follow it with the marks of its side |
| Patches.Patch.Write | simulation/utils/check-style.py:356-365 | the two names and the chunks, up to one that raises |
| Patches.ParsePatchset | simulation/utils/check-style.py:367-411 | the objects built are those of the parser on values, and an exception is raised in the same cases |
| Patches.StartChunk | simulation/utils/check-style.py:387-391 | a header gives the last patch a new chunk, which lines are added to from then on; no chunk is shared between patches |
| Patches.AddToChunk | simulation/utils/check-style.py:392-409 | a line is added to the chunk started last and to nothing else, even if a new patch has begun |
| Patches.WriteAll | simulation/utils/check-style.py:356-365 | patches one after the other; one raises exactly if some line has no kind |
| Patches.WriteAndParse | simulation/utils/check-style.py:356-411 | patch objects written and parsed back have the same views exactly if they are well formed and hold no line that can be mistaken for a name |
| PatchText.HeaderRead | simulation/utils/check-style.py:370 | the expression for headers finds the positions that a written header holds, unless one is negative |
| PatchText.HeaderNumbersRead | simulation/utils/check-style.py:301-302 | a reader of all four numbers finds in a written header the positions and the counts, each in its place |
| PatchText.DecimalValue | simulation/utils/check-style.py:248-249 | the digits printed for a number are read back as that number |
| PatchText.NoLeadingZero | simulation/utils/check-style.py:301-302 | no number but 0 is printed with a zero in front |
| PatchRoundTrip.ClassifyLine | simulation/utils/check-style.py:369-411 | how a written line is read: as itself, or as a file name if its text makes it look like one |
| PatchRoundTrip.RoundTripIff | simulation/utils/check-style.py:356-411 | writing a list of patches and parsing the text gives the same patches exactly if kinds are set, positions are not negative, names and texts hold no newline, no removed text starts with "-- " and no added text with "++ " |
| PatchRoundTrip.PatchesComeBack | simulation/utils/check-style.py:367-411 | the parsing half: patches, chunks, kinds and texts come back |
| PatchRoundTrip.ParsedOk | simulation/utils/check-style.py:367-411 | whatever is parsed has set kinds, positions that are not negative, and no newlines |
| PatchRoundTrip.ParsedCount | simulation/utils/check-style.py:367-411 | parsing loses and invents no lines |
| PatchRoundTrip.SplitFile | simulation/utils/check-style.py:376 | reading a written file line by line gives the written lines |
| PatchRoundTrip.MistakenForName | simulation/utils/check-style.py:223-227 | a removed line with the text "-- x" does not come back |
| PatchRoundTrip.HeaderCountsMatch | simulation/utils/check-style.py:283-304 | the numbers of source and destination lines of a chunk are the numbers of the texts that follow its header by their marks |
| PatchRoundTrip.WrittenCounts | simulation/utils/check-style.py:283-304 | the four numbers in the header of a written chunk are its positions and, by their marks, the numbers of the lines that follow |
| PatchParser.NameIff | simulation/utils/check-style.py:368-369 | a line is taken for the name of an old or a new file exactly if it is "--- " or "+++ " and that name, up to one newline behind it |
| PatchParser.ChunkHeaderIff | simulation/utils/check-style.py:370 | a line is taken for a header exactly if it starts with one, with any digits for the four numbers and anything behind it, and its positions are the values of the first and the third |
| PatchParser.BodyIff | simulation/utils/check-style.py:371-373 | a line is taken for a line of a chunk exactly if it is the mark of its kind and its text, up to one newline behind it, and not a file name |
| PatchParser.RaisesIff | simulation/utils/check-style.py:374-411 | parsing raises exactly if some line is matched by nothing, or is a new file name or a header without an old file name before it, or a line of a chunk without a header before it |
| PatchParser.ParsedAsDescribed | simulation/utils/check-style.py:374-411 | otherwise the chunks, in one list, are those that the headers start, each with the lines up to the next header; and the patches are those that the old file names start, each with the last new name and the number of headers up to the next |
| PatchParser.HeadsAndChunksTell | simulation/utils/check-style.py:374-411 | that leaves nothing open: patches with the same names, numbers of chunks and list of chunks are the same |
| Permutations.Permutations | simulation/bindings/python/rad_util.py:310-326 | n! lists for n items, which are exactly the rearrangements of the input; of distinct items each one once |
| Permutations.EachOrder | simulation/bindings/python/rad_util.py:315-322 | a list is among the insertions of the first item into all rearrangements of the rest exactly if it is a rearrangement of all |
| Permutations.AllDistinct | simulation/bindings/python/rad_util.py:315-322 | insertions into different lists, or at different places, differ |
| Binary.WrittenIffFits | simulation/bindings/python/rad_util.py:91-105 | for a positive width and i >= 0, a `ValueError` exactly if i >= 2^n; otherwise n bits that read back as i |
| Binary.CutKeepsValue | simulation/bindings/python/rad_util.py:97-105 | for any width, even zero or negative: an error exactly if the value does not fit into the bits that are kept, and otherwise the value is kept |
| Binary.ReadThenWritten | simulation/bindings/python/rad_util.py:91-130 | a string of bits is what is written for its value in its width |
| Binary.WidthZeroNeverRaises | simulation/bindings/python/rad_util.py:99-102 | with width 0 every number is written in full |
| Binary.NegativeRaises | simulation/bindings/python/rad_util.py:96 | a negative number raises a `KeyError` |
| Binary.BinaryRange | simulation/bindings/python/rad_util.py:632-660 | for at least one bit, 2^bits strings, the k-th one what `int2bin` gives for k; none for zero bits or -1, an `IndexError` below |
| Binary.Increment | simulation/bindings/python/rad_util.py:648-659 | flipping bits up to the first zero adds one, with the carry out of the last place in the last toggle |
| TcpWriter.Program.WriteUntilBufferFull | simulation/examples/socket/socket-bound-tcp-static-routing.cc:213-231 | every slice given to the socket is inside the buffer and reaches the end of the data, the end of the total or the room found; the count is that of the loop on numbers, never passes the total, and what the socket takes is the next piece of the repeated data |
| TcpWriter.Program.StartFlow | simulation/examples/socket/socket-bound-tcp-static-routing.cc:198-211 | the count starts again from zero, and a new socket is given the stream from its start |
| TcpWriter.Program.WholeFlow | simulation/examples/socket/socket-bound-tcp-static-routing.cc:198-231 | over a whole flow, its start and any number of callbacks, the socket has been given data[k % writeSize] for k up to the bytes counted |
| TcpWriter.NeverTooMuch | simulation/examples/socket/socket-bound-tcp-static-routing.cc:215-229 | the count only grows and stays within the total, so that no 32-bit sum wraps around |
| TcpWriter.RoundToEnd | simulation/examples/socket/socket-bound-tcp-static-routing.cc:217-229 | a round in which the socket has room and takes a whole buffer goes on to the next multiple of the buffer size or to the total |
| TcpWriter.TwentyRounds | simulation/examples/socket/socket-bound-tcp-static-routing.cc:215-229 | from the start, rounds of this kind write everything exactly if there are at least 20 of them |
| TcpWriter.EndingIff | simulation/examples/socket/socket-bound-tcp-static-routing.cc:213-231 | one call returns with the socket open exactly if, after rounds that the loop goes on after, the socket refuses; and it is still looping exactly if it goes on after every answer with bytes left |
| TcpWriter.ClosedEarlyIffFull | simulation/examples/socket/socket-bound-tcp-static-routing.cc:215-231 | the socket is closed before everything is written exactly if, after rounds that the loop goes on after, its buffer is found full while bytes are left |
| TcpWriter.AllWritten | simulation/examples/socket/socket-bound-tcp-static-routing.cc:215-231 | a socket that takes something each time is given everything and then closed |
| TcpWriter.NothingTakenNoEnd | simulation/examples/socket/socket-bound-tcp-static-routing.cc:215-229 | a socket that has room but takes nothing keeps the loop running |
| TcpWriter.ClosedWithNothingWritten | simulation/examples/socket/socket-bound-tcp-static-routing.cc:215-231 | the socket is closed with nothing written exactly if its buffer is found full before it has taken anything |
| TcpWriter.Program.SecondFlowBetween | simulation/examples/socket/socket-bound-tcp-static-routing.cc:198-231 | when a second flow starts in between, the first socket is served from where the second flow has come to: it has taken as much as is counted exactly if both have come equally far, and for all data its own stream exactly if nothing is added or both have come to the same place in the data |
| TcpWriter.Program.FirstByteAgain | simulation/examples/socket/socket-bound-tcp-static-routing.cc:198-231 | with a buffer that is full after one byte, a second flow that starts in between makes the first socket take its first byte twice, with one byte counted |
| TcpWriter.ContinuesIffSamePlace | simulation/examples/socket/socket-bound-tcp-static-routing.cc:218-222 | for any two byte counts, going on at one after the other keeps to the stream for all data exactly at the same place in the data |
| TcpWriter.SameBytesKeepStream | simulation/examples/socket/socket-bound-tcp-static-routing.cc:53 | with the same byte everywhere, as in a buffer that is never filled, the bytes never differ |

## Left out

- Files, processes, XML and HTML output, command lines and configuration files; parsed input is a parameter.
- The contents of the jobs and what `run_job_synchronously` does: running a job gives an arbitrary return code and raises nothing.
- The mutable `Job` objects of `test.py`: jobs are values in the state, which loses nothing because each is in one place at a time.
- The `queue` and `threading` libraries: queues are FIFO and unbounded, and each `get`, `put`, flag check and job is one step.
- The heap layout of `heapq`: the head is found by a scan for the least entry.
- Rounding of floating-point numbers, and the probability distributions of `poisson` and `random`: draws are arbitrary.
- Generators that are read lazily, and callers that change the lists they are given, in `topsort_levels_core` and `find_cycles`.
- TrafficGen.GenerateFlows: draws of times and destinations are lists, so it stops when they are used up, where the script goes on drawing.
- TypeRecords.DifferentIffNotDoubled: where names cannot be read off a path, equal edges are not the only cause of equal records; `TypeRecords.DifferentIffNoCollision` is what then holds.
- Permutations.Permutations: lists are values, so it does not say that a list of at most one item is returned itself and not as a copy.
- Binary.Bin2Int: has no value for strings with spaces, a sign or a "0b" in front, which `int` with base 2 also accepts.
- PatchText.Classify: characters are compared one by one, without encodings.
- PatchRoundTrip.RoundTripIff: only a newline ends a line of the file; a file read in text mode also ends lines at a carriage return, so that names and texts with one do not come back from it.
- TcpWriter.Program.WriteUntilBufferFull: `Bind`, `Connect` and the registration of the callback are left out; the socket's answers are an input, and `Send` takes at most what it is given.
- The `rand` function, the file header written by the traffic generator, and its estimate of the number of flows.
- Reading the list of registered types: the registry is a parameter, and its types must be a finite set that no edge leaves.
- `remove_trailing_whitespace_changes` and the calls of `git`, `uncrustify` and `patch` in `check-style.py`.
- Plots, data frames and path handling of the analysis: only the sets of received and missed packets are kept.
- The drawing code of `grid.py`, `spineleaf.py`, `CartesianProduct`, and the remaining helpers of `rad_util.py` and `topsort.py`: they would add only easy members.
- The network simulator itself and its other example programs.
