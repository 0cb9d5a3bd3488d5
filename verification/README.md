# Verification model of the HPCC driver and the ns-3 tools beside it

This Dafny project models the algorithms of the HPCC simulation driver (`examples/hpcc/hpcc-validation.cc`) and of
several ns-3 tools and examples, and proves what they compute. `dafny verify dfyconfig.toml` checks all of it.

* **Routing** (`Links`, `Search`, `Paths`, `Tables`, `Forwarding`, `Router`, `Addresses`). The link map with its up flags,
  the breadth-first search from every server in which only switches are passed through, the next-hop lists with every
  equal-cost hop, the tables compiled from them, what packets that follow the tables do, and the rebuilding when links fail.
  A node is a number: the rank of its address, which is the order in which a `std::map` keyed by node iterates. Its id is
  its place in the node container. All orders (queue, next hops, table entries) are kept, so equality of routing state is
  equality of lists.
* **Flow starting** (`FlowStarter`). Releasing the rows of the flow file at their start times, in simulator ticks, with a
  16-bit port counter per host pair, and the key under which a completed flow is removed.
* **Queue monitors** (`Monitor`, `QueueMonitor`). Histograms and running extremes over every firing, the final report, and
  the live status. What the switch memory unit shows is an arbitrary input; ratios are real numbers.
* **Attribute paths** (`TypeGraph`, `StaticInformation`, `AttributeWalks`, `Duplicates`). The depth-first listing of paths
  over a labelled graph of types, with its two stacks, what it lists in terms of the registry, and when it lists an entry
  twice.
* **Test runner** (`TestQueue`, `TestHistory`). Dispatcher, workers, queues, Ctrl-C and collector as a state machine over
  all interleavings, and what becomes of each test in a run.
* **Library load order** (`LoadOrder`), **bulk sending** (`BulkSend`), **one-pass statistics** (`Welford`), the **benchmark
  event loop** (`EventLoop`), the **style fixer** (`StyleLines`, `StyleFile`, `StyleMeaning`) and **Jain's index** (`Fairness`).

The engine sources under `src/` are not part of this model. Where the driver calls them, the model takes `AddTableEntry` to
append one interface to the entry of an address, `ClearTable` to empty a node's table, and the simulator to run pending
events in time order and to accept no negative delay.

Some facts about the code that the model makes visible:

* `CalculateRoute` appends to `nextHop` and needs no empty lists; only `TakeDownLink`'s clearing makes the lists those of
  one search. The measures (`pairDelay`, `pairTxDelay`, `pairBw`) are not cleared: a pair that becomes unreachable keeps
  its old values (`PairMeasures`).
* The comment above `Uniquefy` in `utils/print-introspected-doxygen.cc` says that the container is modified in place. It is
  taken by value, so `Gather` removes nothing; `DuplicatesExactly` says which registries have an entry twice. The program
  meets that condition: it records the pair of ns3::Node and ns3::Icmpv4L4Protocol twice (`TypicalDuplicate`).
* `dependency_order` calls itself without end when a round loads nothing; the model returns false there, and
  `SortToDependencies` shows that this happens exactly when the dependency map is not closed or has a cycle.
* The report ranks every queue's maximum by the kmax of its last reading. The driver sets kmax once, before the simulation
  starts (line 997), so there the report bounds every live status. Only a caller other than this driver that raised kmax
  during a run could have the live status show more than the report (`RaisedKmaxHidesPeak`).
* The index of `PrintFairness` can be wrong once `n * sumSquares` passes 2^64: one counter at 2^31 and nineteen at zero print
  infinity (`WrapPrintsInfinity`).
* A completed flow is looked up by the low 16 bits of its receiver's id, but ids up to 99999 are accepted: receivers 65536
  apart can be confused (`FarReceiversCollide`).

## Model

| member | source | states |
|---|---|---|
| Links.AddLinkKeeps | examples/hpcc/hpcc-validation.cc:962-969 | Reading a topology row makes exactly its two directions work; up flags stay symmetric and working links keep a positive rate |
| Links.MapOfInstalled | examples/hpcc/hpcc-validation.cc:962-969 | After reading all rows each end of the last row for two nodes, with its index, delay and rate, is stored, up, at its own node, and nothing else is stored |
| Routers.Router.ReadTopology | examples/hpcc/hpcc-validation.cc:962-969 | Reading the topology file row by row stores exactly that |
| Links.SurvivingRows | examples/hpcc/hpcc-validation.cc:729-731 | Reading only the topology rows that name no failed pair gives exactly the working links, with their attributes, that the failures leave |
| Links.TakeDownAllWorks | examples/hpcc/hpcc-validation.cc:729-731 | After any sequence of failures a link works iff it worked before and neither direction of it failed; attributes of working links never change |
| Search.Visit | examples/hpcc/hpcc-validation.cc:685-696 | Looking at one neighbour keeps the search invariant in all cases: link down, newly discovered, further next hop, not one hop nearer |
| Search.CloserMember | examples/hpcc/hpcc-validation.cc:696 | A next-hop list holds exactly the expanded nodes one hop nearer over a working link |
| Search.CloserDistinct | examples/hpcc/hpcc-validation.cc:696 | No next hop is listed twice |
| Routers.Router.CalculateRoute | examples/hpcc/hpcc-validation.cc:672-700 | The queue loop terminates, ends in the one search result of the working links, appends exactly its lists under the host, and overwrites exactly the measures of the reached nodes |
| Routers.Router.ScanNode | examples/hpcc/hpcc-validation.cc:684-697 | The inner loop over all neighbours in key order completes one queue place |
| Routers.Router.ScanLink | examples/hpcc/hpcc-validation.cc:685-696 | One pass of the inner loop keeps the search invariant and appends at most one next hop |
| Paths.LeastHops | examples/hpcc/hpcc-validation.cc:672-697 | Distances are defined on exactly the nodes with a path through switches only, and are least hop counts |
| Paths.HopsMeaning | examples/hpcc/hpcc-validation.cc:696 | Each reached node but the host has a non-empty list without duplicates: exactly its up-link neighbours among host and switches that are one hop nearer |
| Paths.ListsInOrder | examples/hpcc/hpcc-validation.cc:676-696 | The queue lists nodes by the place of the first queued node with a working link to them, then by address, and every next-hop list is in queue order |
| Paths.ForwardingIsShortest | examples/hpcc/hpcc-validation.cc:672-700 | The complete walks along any choice of one search's next hops are exactly the minimum-hop paths over working links through switches |
| Paths.TraceArrives | examples/hpcc/hpcc-validation.cc:672-700 | A walk along one search's next hops repeats no node, passes through switches only, always has a next hop until it is at the host, and is there after exactly its distance in steps |
| Paths.MeasuresOfFirstPath | examples/hpcc/hpcc-validation.cc:688-699 | Delay, transmit time and rate of a reached node all describe one shortest path, the one that always takes the first next hop, sums being modulo 2^64 |
| Paths.SearchUnique | examples/hpcc/hpcc-validation.cc:672-700 | Two searches over the same working links agree completely: distances, queue order, next-hop order, measures |
| Routers.Router.PairMeasures | examples/hpcc/hpcc-validation.cc:697-699 | For reached pairs the stored delay is the sum of the link delays of one shortest path, the transmit time the sum of the whole nanoseconds in which each of its links carries 8 * payload bits (whose product with 10^9 is taken in 64 bits), both modulo 2^64, and the rate the least of its links; for all others the values are left over from before |
| Routers.Router.CalculateRoutes | examples/hpcc/hpcc-validation.cc:702-707 | One search per server in container order; all lists appended, all reached measures overwritten |
| Routers.Router.SetRoutingEntries | examples/hpcc/hpcc-validation.cc:709-727 | Appends to each table, under each server's address, the interfaces of the next hops in list order, and changes no other entry |
| Routers.Router.AddressesDiffer | examples/hpcc/hpcc-validation.cc:715 | With at most 100000 nodes no two nodes have the same address, so table entries never mix destinations |
| Addresses.AddressOf | examples/hpcc/hpcc-validation.cc:300-302 | The address of an id is 11.0.0.1 with the low 24 bits of the id added above the last octet, modulo 2^32 |
| Routers.Router.AddressOfNode | examples/hpcc/hpcc-validation.cc:300-302 | So is the address under which the tables hold the entries for the node with that id |
| Routers.Router.SetUpRoutes | examples/hpcc/hpcc-validation.cc:1071-1072 | From empty lists and tables, the first computation routes everything |
| Routers.Router.TakeDownLink | examples/hpcc/hpcc-validation.cc:729-747 | Lowers both directions, rebuilds lists and tables exactly for the remaining links; a report about a link that is not up changes nothing but an unused down entry |
| Routers.TablesForwardShortest | examples/hpcc/hpcc-validation.cc:672-747 | At any time, also after failures, the complete walks that the compiled tables allow, whatever interface is taken, are exactly the minimum-hop paths over working links through switches |
| Routers.TablesDeliver | examples/hpcc/hpcc-validation.cc:672-747 | A packet moved by the tables never loops, passes through switches only, is never stuck, meets only working interfaces, and arrives after as many steps as a shortest path has |
| Tables.EntriesWork | examples/hpcc/hpcc-validation.cc:696-727 | Every listed next hop is behind a working link and begins a shortest path to the destination; no list has duplicates |
| Tables.NoDistanceShrinks | examples/hpcc/hpcc-validation.cc:729-733 | Failures make no node reachable and no distance shorter |
| Tables.UntouchedKeepsHops | examples/hpcc/hpcc-validation.cc:729-733 | Over any sequence of failures, a pair none of whose shortest paths used a failed link keeps its reachability, its distance and its next-hop set |
| Routers.RoutersAgree | examples/hpcc/hpcc-validation.cc:672-727 | Lists and tables, order included, are determined by the working links |
| Routers.RebuildEqualsScratch | examples/hpcc/hpcc-validation.cc:729-747 | After any sequence of failures lists and tables equal those of a router built from the topology rows that name no failed pair |
| Routers.RebuildAndScratch | examples/hpcc/hpcc-validation.cc:729-747 | Two whole runs, one meeting the failures and one reading only the surviving rows, end with the same lists and tables |
| Routers.RebuildIgnoresOrder | examples/hpcc/hpcc-validation.cc:729-747 | The order of the failures, and the end from which each is reported, make no difference |
| Addresses.RoundTrip | examples/hpcc/hpcc-validation.cc:300-306 | Reading an id back from its address gives its low 16 bits, for every 32-bit id |
| Addresses.SameAddress | examples/hpcc/hpcc-validation.cc:300-302 | Two ids share an address iff their low 24 bits agree |
| FlowStarter.Starter.ReadFlowInput | examples/hpcc/hpcc-validation.cc:243-264 | A row is accepted iff it exists and names two server nodes; otherwise the program ends at that row |
| FlowStarter.Starter.ScheduleFlowInputs | examples/hpcc/hpcc-validation.cc:266-298 | A firing starts at least one flow, all of them at the present time, and the next firing lies strictly later |
| FlowStarter.Starter.Run | examples/hpcc/hpcc-validation.cc:266-298 | Flows are started once each, in file order, at their start times, with port 10000 plus the number of earlier flows of the pair; all rows are released iff every row is acceptable and none starts before its predecessor; otherwise the run ends at the first bad row, or with a negative delay iff the first offending row is acceptable but early |
| FlowStarter.PortCounts | examples/hpcc/hpcc-validation.cc:1156-1164 | The first flow of a host pair has port 10000 and every further one the next, modulo 2^16 |
| FlowStarter.Starter.CollectFlowStatus | examples/hpcc/hpcc-validation.cc:499-504 | In every reachable state pending, active and completed add up to the flow count |
| FlowStarter.Starter.QpFinish | examples/hpcc/hpcc-validation.cc:308-309 | The first completion of a started flow adds one to the completed count and keeps all invariants |
| FlowStarter.KeysCollide | examples/hpcc/hpcc-validation.cc:308-323 | For all 32-bit ids, two flows share the completion key iff their senders agree in the low 24 bits, their receivers in the low 16, their priority groups are equal, and their places in their host pairs agree modulo 2^16 |
| FlowStarter.KeysUnique | examples/hpcc/hpcc-validation.cc:266-323 | With at most 2^16 flows per host pair, and receivers of one sender that differ in the low 16 bits, no two flows ever share a completion key, even across port wrap-around |
| FlowStarter.FarReceiversCollide | examples/hpcc/hpcc-validation.cc:304-323 | Without that, the first flows from one sender to two receivers 65536 apart share a key |
| Monitor.UpdateSummarises | examples/hpcc/hpcc-validation.cc:361-379 | After one more firing a queue's sample holds the true extremes over the whole trace, and its flags hold iff some reading met their condition |
| Monitor.AddCounts | examples/hpcc/hpcc-validation.cc:337-344 | A firing adds one to exactly one bucket, so bucket b counts the firings with b thousand bytes queued |
| QueueMonitor.QueueMonitor.SampleMeans | examples/hpcc/hpcc-validation.cc:361-379 | After any firings there is a sample for exactly the queues of the switches' ports, with the greatest readings, the least threshold, the last kmin and kmax, and the two flags, each spelled out over the readings |
| QueueMonitor.QueueMonitor.BucketMeans | examples/hpcc/hpcc-validation.cc:337-393 | Bucket b of a port counts the firings with 1000 b to 1000 b + 999 bytes in all its priority groups |
| QueueMonitor.RankMeans | examples/hpcc/hpcc-validation.cc:433-447 | Queues compete by egress / kmax, then by egress, a queue without kmax counting as one with kmax 1 |
| QueueMonitor.QueueMonitor.MonitorBuffer | examples/hpcc/hpcc-validation.cc:381-396 | One firing updates every queue and every histogram of every switch port once, and nothing else |
| QueueMonitor.QueueMonitor.WriteSummary | examples/hpcc/hpcc-validation.cc:421-457 | The report is the best-ranked queue outside group 0, the first listed among equals |
| QueueMonitor.QueueMonitor.CollectStatus | examples/hpcc/hpcc-validation.cc:528-562 | The live status shows the best-ranked live queue outside group 0 with its settings, the numbers of paused and marking queues, and the bytes in all of them |
| QueueMonitor.QueueMonitor.ReportIsOverallMaximum | examples/hpcc/hpcc-validation.cc:413-470 | The report is the lexicographic maximum of (egress / kmax, egress) over every reading of the whole trace, with the kmax of the last firing, attained, first listed queue winning ties |
| QueueMonitor.QueueMonitor.ReportWithFixedKmax | examples/hpcc/hpcc-validation.cc:413-470 | When no watched port's kmax changes, the same holds with each reading's own kmax |
| QueueMonitor.QueueMonitor.ShownWithinReport | examples/hpcc/hpcc-validation.cc:413-562 | The report bounds the live ratio at a sampled instant if the shown queue's kmax was then no less than at the last firing |
| QueueMonitor.QueueMonitor.ReportBoundsLiveStatus | examples/hpcc/hpcc-validation.cc:413-562 | For every schedule of kmax values in which no live queue's kmax is raised, the report bounds every live status at every firing |
| QueueMonitor.QueueMonitor.RaisedKmaxHidesPeak | examples/hpcc/hpcc-validation.cc:413-562 | For every configuration and every schedule in which some live queue's kmax is raised after firing i, there is a run with these kmax values whose live status at firing i shows more than the report |
| TypeGraph.ListedIffSimple | utils/print-introspected-doxygen.cc:439-522 | The recursion lists exactly the trails that repeat no type, on cyclic graphs too |
| TypeGraph.ListedInPreorder | utils/print-introspected-doxygen.cc:439-522 | The listing is strictly increasing in preorder, so no trail is listed twice |
| AttributeWalks.EdgesComeFrom | utils/print-introspected-doxygen.cc:446-521 | The edges out of a type are, in this order and each once: pointer attributes to types other than Object, and vector attributes with "/[i]", by place; registered children, by place; the partners in recorded pairs, from either side, by place |
| AttributeWalks.GatherListsWalks | utils/print-introspected-doxygen.cc:431-522 | A type is recorded with a path text iff a walk over these four relations that repeats no type leads to it and reads so |
| StaticInformation.StaticInformation.DoGather | utils/print-introspected-doxygen.cc:439-522 | Terminates, restores both stacks, and appends one entry per listed trail, in order |
| StaticInformation.StaticInformation.HasAlreadyBeenProcessed | utils/print-introspected-doxygen.cc:370-382 | True iff the type is on the stack |
| StaticInformation.GatherListsSimpleTrails | utils/print-introspected-doxygen.cc:431-522 | One entry, with end type and path text, for each walk from the root that repeats no type, in preorder, and no other entry |
| StaticInformation.GetReportsTrails | utils/print-introspected-doxygen.cc:384-397 | A path is reported for a type iff some simple trail from the root to that type reads so |
| StaticInformation.PathsOfJoin | utils/print-introspected-doxygen.cc:384-397 | Paths are reported in listing order, each as often as it is listed for the type |
| Duplicates.EqualEdgesDuplicate | utils/print-introspected-doxygen.cc:414-437 | In every registry, a reached type with two equal edges to a type not yet visited gives an entry twice |
| Duplicates.DuplicatesExactly | utils/print-introspected-doxygen.cc:399-437 | With names that can be read back, the output holds an entry twice iff such a pair of edges is reached |
| Duplicates.RepeatedAggregate | utils/print-introspected-doxygen.cc:501-521 | In every registry, a pair recorded twice as an aggregation gives an entry twice, wherever one partner is reached before the other |
| Duplicates.TypicalDuplicate | utils/print-introspected-doxygen.cc:556-558 | The program's own statements record such a pair |
| StaticInformation.StaticInformation.GatherRoots | utils/print-introspected-doxygen.cc:577-581 | Gathering all root objects appends each root's listing to one output, in order |
| Duplicates.RenderInjective | utils/print-introspected-doxygen.cc:439-522 | A path whose labels are plain names can be read back: equal texts come from equal label lists |
| Duplicates.DuplicatesOverRoots | utils/print-introspected-doxygen.cc:577-581 | After gathering several roots the output holds an entry twice iff equal edges are reached from one of them, or trails with equal labels lead from two of them to one type |
| TestQueue.StepInv | test.py:1086-1164 | Every step of dispatcher, worker, collector or signal keeps the invariant; in particular each job is in exactly one place |
| TestQueue.NoEarlyExit | test.py:1088-1094 | A worker leaves only when no test is left on the queue |
| TestQueue.EachReturnsOnce | test.py:1936-1962 | When collecting ends, every queued test has come back exactly once |
| TestQueue.TokensDiffer | test.py:1936-1939 | No two workers consume the same stop token |
| TestQueue.NoDeadlock | test.py:1959-1961 | Unless everything is finished, some thread can take a step other than a signal |
| TestQueue.RunsEnd | test.py:1086-1164 | Every run, under any scheduling and with the signal at any moment, ends within a fixed number of steps |
| TestQueue.StuckMeansDone | test.py:1622-2125 | A run that can go no further has returned every test once, stopped every worker with one token of its own, and joined every thread |
| TestQueue.StatusIsRight | test.py:1951-2237 | The six counts always add up to the results collected; at the end the exit status is 0 iff nothing failed, crashed, had valgrind errors or was interrupted |
| TestHistory.EveryTestRuns | test.py:1086-1164 | In a finished run every test is looked at once; it comes back interrupted iff the signal had come by then, and otherwise is run to its end exactly once, unless it is to be skipped |
| TestHistory.RunHistory | test.py:1086-1164 | In every state of a run each result carries the one return code that the run of its test reported, or none if it was skipped or interrupted |
| TestHistory.SummaryIsRight | test.py:1951-2237 | The six counts are the numbers of tests that reported 0, 1, 2, another code, were skipped and were interrupted; the exit status is 0 iff every test was, uninterrupted, skipped or reported 0 |
| TestQueue.CollectResults | test.py:1951-1995 | The collecting loop counts the results of each kind; passed plus skipped reaches the total iff every result is fine |
| LoadOrder.ModulesThatCanBeLoaded | bindings/python/ns__init__.py:443-454 | Selects exactly the pending libraries whose dependencies are all loaded, in pending order |
| LoadOrder.Loader.Round | bindings/python/ns__init__.py:456-468 | A round keeps pending and loaded libraries a partition of all, layers them, and either makes progress or leaves every pending library blocked |
| LoadOrder.StepIsLongestChain | bindings/python/ns__init__.py:456-471 | A library's step number is the length of its longest dependency chain |
| LoadOrder.BlockedMeansCycle | bindings/python/ns__init__.py:460-471 | A round without progress means a missing dependency or a cycle among the pending libraries |
| LoadOrder.SortToDependencies | bindings/python/ns__init__.py:473-478 | Succeeds iff the map is closed and acyclic, and then lists every library once, after all its dependencies, by the length of the longest dependency chain and then by key order |
| BulkSend.Sender.constructor | examples/tcp/tcp-large-transfer.cc:94-99 | Fills the buffer with the repeating alphabet |
| BulkSend.Sender.WriteUntilBufferFull | examples/tcp/tcp-large-transfer.cc:210-232 | Whatever the socket answers, the accepted bytes stay a prefix of the repeated alphabet, no slice leaves the buffer, each pass offers as much as buffer, transfer and socket allow, and Close comes only after the last byte |
| BulkSend.Sender.StartFlow | examples/tcp/tcp-large-transfer.cc:198-208 | Over any sequence of callbacks the accepted bytes are a prefix of the stream, and the socket is closed iff all were accepted |
| Welford.Accumulated | utils/bench-scheduler.cc:345-349 | One pass of the macro turns mean and squared deviations of n samples into those of n + 1, whatever the starting average |
| Welford.Log | utils/bench-scheduler.cc:317-359 | For two or more runs all six columns end with their arithmetic mean and their sum of squared deviations from it |
| EventLoop.Bench.Cb | utils/bench-scheduler.cc:151-164 | A callback either stops the run or replaces itself, so the pending count stays the population |
| EventLoop.Bench.Run | utils/bench-scheduler.cc:121-149 | For a positive population exactly total + 1 callbacks happen, in time order, and total of them count; the times of all events are the drawn delays of the population and, for each callback, a drawn delay after it, and each has been called back or is pending |
| StyleLines.FixedComplies | utils/check-style-clang-format.py:926-991 | A fixed line passes its own check |
| StyleLines.FixedKeepsGuard | utils/check-style-clang-format.py:926-991 | Fixing a guard line leaves it the same guard |
| StyleFile.ReadJoin | utils/check-style-clang-format.py:645-676 | Writing lines and reading them back gives the same lines |
| StyleFile.File.CheckManuallyFile | utils/check-style-clang-format.py:619-678 | Reports compliance of every line outside disabled regions, and in fix mode writes exactly the fixed lines, in both verbose modes |
| StyleMeaning.CheckOrFix | utils/check-style-clang-format.py:619-678 | Reports whether every line is clean or lies behind a guard that switches off; a fixing run rewrites exactly the other lines, each clean afterwards and keeping what WhitespaceKeeps and TabsKeep say |
| StyleMeaning.SkippedMeans | utils/check-style-clang-format.py:645-659 | A line is passed over iff it is no guard and the last guard before it switches off |
| StyleMeaning.WhitespaceKeeps | utils/check-style-clang-format.py:926-957 | The whitespace fix replaces the white space at the end of the line by a line end and keeps everything before it |
| StyleMeaning.TabsKeep | utils/check-style-clang-format.py:959-991 | The tab fix keeps every other character, in order, and shows each, and the end of the line, at the column where tab stops every four columns put it |
| StyleMeaning.JoinRead | utils/check-style-clang-format.py:643-644 | Reading a file as lines loses nothing |
| StyleFile.FixThenCheck | utils/check-style-clang-format.py:619-678 | What a fixing run writes, a checking run accepts; lines in a format-off region are unchanged and passed over again |
| StyleFile.FixAndRecheck | utils/check-style-clang-format.py:619-678 | A check after a fix always passes |
| StyleFile.SameLinesSkipped | utils/check-style-clang-format.py:619-678 | The check after a fix passes over the same lines iff guards are ignored or no line of an enabled region becomes a disabling guard with no guard right after it |
| StyleFile.ExpansionDisables | utils/check-style-clang-format.py:648-659 | A file in which tab expansion makes such a guard: the second pass skips a line that the first did not |
| Fairness.SumSquaredBound | examples/tcp/dctcp-example.cc:174-215 | sum^2 <= n * sumSquares, with equality iff all counters are equal |
| Fairness.SquaresBound | examples/tcp/dctcp-example.cc:174-215 | sumSquares <= sum^2 |
| Fairness.FitsExactly | examples/tcp/dctcp-example.cc:174-215 | No product or sum leaves 64 bits iff n * sumSquares does not |
| Fairness.SafeFits | examples/tcp/dctcp-example.cc:191-199 | Twenty counters up to 214748364 fit |
| Fairness.SafeIsLargest | examples/tcp/dctcp-example.cc:191-199 | Twenty counters at 214748365 do not fit |
| Fairness.JainBounds | examples/tcp/dctcp-example.cc:174-215 | The index lies between 1/n and 1, is 1 iff all counters are equal, and is 0/0 iff all are zero |
| Fairness.Counters.PrintFairness | examples/tcp/dctcp-example.cc:174-215 | For every group of counters the quotient of the wrapped products, which is Jain's index whenever they fit |
| Fairness.WrapPrintsInfinity | examples/tcp/dctcp-example.cc:191-199 | One counter at 2^31 and nineteen at zero do not fit, and infinity is printed instead of 1/20 |

## Left out

- Parallel links between two nodes: the link map keeps the last one read, as the driver's does; the devices of the earlier ones are not modelled.
- The round-trip times and bandwidth-delay products derived from the pair measures, the fair-rate law of the switches, RDMA hardware, flow control and queue pairs (`RedistributeQp`, completion times).
- `QbbNetDevice::TakeDown` and everything else a failing device does beyond the link map, the lists and the tables.
- `ValidateFlowFile` and the conversion from seconds to ticks: rows are modelled after parsing, with start times in ticks.
- FlowStarter.Starter.QpFinish: takes from the RDMA hardware, which is not part of this model, that a started flow reports completion at most once.
- Duplicates.DuplicatesExactly: assumes that names hold no slash, that attribute names do not start with a dollar sign, and that names are unique, as TypeId demands; the other direction needs no such names.
- Duplicates.DuplicatesOverRoots: assumes besides that no attribute is named as the vector mark `[i]` is written.
- Routers.TablesForwardShortest: takes from the device layer, which is not part of this model, that the working interfaces of a node have different indices.
- The status printer thread, progress output and file writing.
- Rounding: means, ratios and Jain's index are real numbers, and 64-bit time does not wrap.
- Subprocess runs and exceptions in workers, the list of failed jobs, and report files of the test runner. The shared job object is a value in each place it can be in.
- Library discovery, and the default argument `steps={}` shared between calls of `dependency_order`: one call is modelled.
- LoadOrder.Loader.DependencyOrder: does not model the interpreter's recursion limit, which also ends very long dependency chains.
- The socket: each pass of the sending loop gets an arbitrary answer, but a socket takes no more than it is offered.
- Welford.Log: stops before the square roots and the table output, and rounds nothing.
- EventLoop.Bench.Run: takes the random delays from an arbitrary function and models no wall-clock timing.
- clang-format, the regular-expression checks and the encoding check of the style tool; newline translation on reading and the messages it prints.
- `examples/hpcc/hpcc-haoyu.cc` and `examples/hpcc/third-refactored.cc`: older copies of the same code.
