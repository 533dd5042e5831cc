# Verified model of the Matter protocol controller's device life cycle

The Unify Matter protocol controller finds Matter devices by mDNS, interviews them, watches their
volatile attributes, marks them OFFLINE when they stop answering and recovers them when they answer
again. This project models that life cycle in Dafny and proves what holds over every run of it, what
the text forms of its identities preserve, and, where the code does not meet what it or its
documentation promises, the exact condition under which it does.

Check everything with `dafny verify dfyconfig.toml`.

## How it is organised

| file | what it models |
|---|---|
| `Wrappers.dfy`, `Text.dfy` | optional values and searching; `to_string`, `stoul`, `boost::split`, `find`, comma-joined lists |
| `Identity.dfy` | network lists `fabric:node[,fabric:node...]`: writing, searching, extracting |
| `FailingNode.dfy`, `FailingNodeDatastore.dfy` | saving and restoring the network status; the failing-node table |
| `InterviewQueue.dfy` | the pending-interview vector, its shared timer and the posted events |
| `Lifecycle.dfy`, `LifecycleRuns.dfy` | the state machine over all callbacks, its invariant, and theorems over whole runs |
| `DeviceHealth.dfy` | the status of one device on those runs: announcement, interview, failures, recoveries |
| `FabricList.dfy` | the controller's own network list and the removal of a fabric |
| `Controller.dfy` | the network monitor as an object updated in place; it refines the state machine |
| `AutoRecovery.dfy` | recovery at boot, two devices per timer event |
| `NodeMonitor.dfy`, `AttributePaths.dfy` | subscriptions, resubscription, and the paths of attributes |
| `ClusterLists.dfy`, `CommandSupport.dfy` | cluster and attribute lists as text, the completion verdict, the support tests |
| `SendableCommand.dfy` | a command with its retry, callback and self-freeing context |

Each callback and each event handler is one atomic step, and the steps come in any order. Objects that
the program updates in place are classes whose methods are proved against functions on a snapshot of
their state; the theorems are about those functions. What the network, the SDK and the resolver do is
an input: the records, errors, replies, times and verdicts are arbitrary.

Modelling choices:
- `clock_time_t` and `unsigned long` are 64 bits wide, as the `%lu` formats suggest; the clock itself is
  taken not to wrap, and the seconds of the failing-node table are the milliseconds divided by 1000.
- A timer that is set fires at any moment from its deadline on; firing disarms it and posts its event.
- Node handles are fresh and never reused.
- The event queue of the monitoring process never overflows: `process_post` can refuse an event when its
  queue is full, and its result is not tested at any of the places that post.
- An escaping or caught C++ exception is a `None`, a `Threw` or a `thrown` result, wherever the code can
  throw on a missing value, an unreported value or an unreadable number.
- The search of a node's list is bounded: `mpc_nw_monitor.cpp:207` reads the element before it tests the
  index, one element past the end when there is no match.
- The list parser requires a non-empty list, as `mpc_attribute_cluster_parser.cpp:69` does.

## Where the code falls short of its promise

Each item is a theorem about all states of the described kind, with a lemma at a concrete input where the
kind needs one.
- The remaining time at `mpc_nw_monitor.cpp:586` is subtracted the wrong way round. It only ever
  delays (`WrappedOnlyDelays`), but it starves the queue: whenever a second device is announced less than 10 s after
  the first, but not at the same time, it and all behind it wait 2^64 ms or until it says goodbye
  (`WrappedIsRightIffDue`, `SecondDeviceStarves`, `SecondDeviceWaitsForEver`, `WrappedDelayStarves`,
  `StallLasts`).
- The timer handler does not test whether the first entry is due. An interview is early exactly when an
  expiry is handled while it is not (`NoneEarlyIff`). Exactly three kinds of step lead there
  (`StepOnTimeIff`, `OnTimeMeans`); runs without them (`NoEarlyStart`), in particular those of a loop that
  drains its events before the timer fires and before the next record (`NoEarlyStartWhenDrained`), are
  safe. Such steps do occur (`EarlyWhenFiredOntoEvents`, reached by the run of `EarlyOnARun`;
  `EarlyAfterGoodbye`).
- `needs_update` is given the list attribute (`mpc_nw_monitor.cpp:241`) and so never asks for an update:
  a node that is not waiting never waits again (`NeverRequeued`).
- The comment at `mpc_nw_monitor.cpp:232` says a node is removed without a state check when its status
  cannot be read; the handler throws at line 121 and only the network-list attribute is deleted
  (`GoodbyeDeletesUnlessOffline`, `GoodbyeDeletesIff`).
- Two failures in a row lose the saved status for ever (`RestoresIffNoDoubleFailure`,
  `StrandedForever`, `StrandedOnEveryRun`), and put into the table the interviewing and non-functional
  nodes that the documentation excludes (`RowIff`). A subscribe request whose send fails at once reports its error
  twice and so does this by itself, or subscribes twice more (`SendFailureStrands`).
- So a call to start monitoring leads to more than two subscriptions exactly when its first subscription
  is told of several timeouts that can be answered (`AtMostTwoSubscriptions`).
- Removing a fabric finds the controller's node by substring: controller 1 is found in the entry of
  device 12 (`TakenForControllerIff`, `TwelveIsTakenForOne`), and if such a device comes later in the
  registry it survives and the controller's node is deleted (`KeepsControllerIff`, `DecommissionIff`).
  The queue and the failing-node table are not cleared (`WipeDanglesIff`).
- After an even, non-empty list of failing nodes the recovery process is never told to end
  (`DrainsExactly`).
- The failing-node table is read without an order, so the documented first-fail, first-recover order
  holds exactly when the rows happen to come in it (`RecoveredInOrderIff`, `LaterFailureFirst`).
- The test whether a list is the controller's own runs for ever on more than 255 tokens without an early
  match (`ReaderEndsIff`); no list that is built under a limit of 256 is so long (`BuiltListIsReadable`).
- A cluster id from 2^31 on is listed but never supported (`EndpointSupportIff`), nor is a listed command
  above 2^31 (`ListedIsAccepted`); a listed command 64 makes command 6 supported (`AcceptsUnlisted`).
- A send error after the retry leaves a command's context neither freed nor called back (`CommandEnds`).
- Parts lists add endpoints without looking them up, so a list that is read twice sends its reports to
  the first of two equal endpoints (`PartsStayDistinct`, `ReportsComeHome`).

## Model

| member | source | states |
|---|---|---|
| `Text.StoulOfDecimal` | linux/src/components/mpc_attribute_store/src/mpc_attribute_store.cpp:143-146 | reading a printed 64-bit number gives it back, whatever non-digit follows it in the text |
| `Text.StoulOfSignedDecimal` | linux/zap-generated/handlers/mpc_attribute_cluster_parser.cpp:66 | a 32-bit id printed as `int` and read as `unsigned long` comes back sign-extended: its low 32 and 16 bits always survive, the whole value exactly below 2^31 |
| `Text.StoulOverflows` | linux/src/components/mpc_attribute_store/src/mpc_attribute_store.cpp:146 | a printed number of 2^64 or more is not read |
| `Text.PopBackOfTerminated` | linux/zap-generated/handlers/mpc_attribute_cluster_parser.cpp:66-69 | dropping the last comma of the appended text leaves the items joined by commas |
| `Text.SplitOfJoined` | linux/src/components/mpc_attribute_resolver/src/mpc_attribute_resolver_callbacks.cpp:110-112 | splitting a joined list at the commas gives exactly its items, in order |
| `Text.ContainsInJoined` | linux/zap-generated/handlers/dotdot_mqtt_to_matter.cpp:57 | a substring search in a joined list succeeds exactly when it succeeds in one of its items |
| `Identity.EntryInjective` | linux/src/components/mpc_nw_monitor/src/mpc_nw_monitor.cpp:186-188 | different 64-bit fabric and node ids never have the same network-list entry |
| `Identity.NodeIdOfFirst` | linux/src/components/mpc_attribute_store/src/mpc_attribute_store.cpp:144-146 | the extracted node id is that of the first entry, whatever entries follow |
| `Identity.ColonlessIsRead` | linux/src/components/mpc_attribute_store/src/mpc_attribute_store.cpp:145-146 | a text without a colon is read from its start |
| `Identity.ListTextHolds` | linux/src/components/mpc_nw_monitor/src/mpc_nw_monitor.cpp:203-213 | a stored list holds an entry exactly if it was built from it, and yields its first node id |
| `Identity.Find` | linux/src/components/mpc_nw_monitor/src/mpc_nw_monitor.cpp:194-215 | the search stops at the first node that holds the entry or whose list cannot be read, and passes over no such node |
| `Identity.UnidFromPeer` | linux/src/components/mpc_attribute_store/src/mpc_attribute_store.cpp:161-206 | for an index of the fabric table the nested loops return exactly the node that this search finds for that fabric and node id, and fail on an unreadable list or no match |
| `Identity.LookupFindsOwner` | linux/src/components/mpc_attribute_store/src/mpc_attribute_store.cpp:173-200 | if no identity is shared, looking a peer up finds node `i` exactly when node `i` carries that identity |
| `Identity.LookupExtractInverse` | linux/src/components/mpc_attribute_store/src/mpc_attribute_store.cpp:127-206 | looking a peer up and extracting the found node's Matter id undo each other exactly when the peer has the node id of the first entry, hence always with one entry per node |
| `Identity.EntryOccursIn` | linux/src/components/mpc_nw_monitor/src/mpc_nw_monitor.cpp:391 | one entry occurs inside another exactly when the fabric ids agree at their end and the node ids at their start |
| `FailingNode.ConnectionErrors` | linux/src/components/mpc_nw_monitor/src/mpc_failing_node.cpp:128-129 | the errors that mark a device are exactly timeout, closed connection, missing session and aborted connection |
| `FailingNode.MarkStores` | linux/src/components/mpc_nw_monitor/src/mpc_failing_node.cpp:41-61 | a first failure saves the status, sets OFFLINE, and gives exactly a FUNCTIONAL device a row with the second of the failure |
| `FailingNode.RunShape` | linux/src/components/mpc_nw_monitor/src/mpc_failing_node.cpp:41-112 | after any failures and recoveries a device is as it was online, or one failure away from that, or, from the first double failure on, stranded |
| `FailingNode.RestoresIffNoDoubleFailure` | linux/src/components/mpc_nw_monitor/src/mpc_failing_node.cpp:80-112 | recovery brings back the last online status exactly when no two failures came in a row, and then restores status, saved status and table row completely |
| `FailingNode.StrandedForever` | linux/src/components/mpc_nw_monitor/src/mpc_failing_node.cpp:41-67 | a device whose saved status was overwritten with OFFLINE stays OFFLINE through every later sequence of failures and recoveries |
| `FailingNode.RowIff` | doc/readme_overview.md:84-85 | a device is in the failing-node table exactly if its last event was a failure and, besides, either it was FUNCTIONAL before or two failures came in a row; without two in a row the row has the time of that failure |
| `FailingNode.FirstFailureTimeStays` | linux/src/components/mpc_datastore/src/failing_nodes_datastore.cpp:31-54 | without a recovery the table keeps the time of the first failure |
| `FailingNodeDatastore.Datastore.InsertFailingNode` | linux/src/components/mpc_datastore/src/failing_nodes_datastore.cpp:31-54 | the node gets a row with this time, unless it already has one; every other row stays |
| `FailingNodeDatastore.Datastore.ReadFailingNodes` | linux/src/components/mpc_datastore/src/failing_nodes_datastore.cpp:56-77 | the caller's list keeps its start and grows by every row of the table exactly once, in some order |
| `FailingNodeDatastore.Datastore.DeleteData` | linux/src/components/mpc_datastore/src/failing_nodes_datastore.cpp:79-101 | exactly the node's row goes |
| `InterviewQueue.EnqueueOnTime` | linux/src/components/mpc_nw_monitor/src/mpc_nw_monitor.cpp:103-117 | if every waiting expiry finds a due entry and no other wake-up comes before the first entry is due, queueing a node keeps it so exactly when each waiting expiry has an older entry to start |
| `InterviewQueue.RemoveOnTime` | linux/src/components/mpc_nw_monitor/src/mpc_nw_monitor.cpp:123-140 | removing any entry keeps it so exactly unless a waiting expiry loses its entry to one that is not yet due |
| `InterviewQueue.ExpireOnTime` | linux/src/components/mpc_nw_monitor/src/mpc_nw_monitor.cpp:603-611 | so does the firing of the timer, exactly when it finds a due entry behind those of the waiting expiries, or none |
| `InterviewQueue.RemovalWakesExactly` | linux/src/components/mpc_nw_monitor/src/mpc_nw_monitor.cpp:130-138 | the timer setting posted for the new first entry ends exactly when that is due, or at once if it is; unless an expiry is waiting it is the next wake-up |
| `InterviewQueue.WrappedOnlyDelays` | linux/src/components/mpc_nw_monitor/src/mpc_nw_monitor.cpp:582-588 | the wrapped remaining time is 2^64 less the right one, so it never ends before the entry is due |
| `InterviewQueue.WrappedIsRightIffDue` | linux/src/components/mpc_nw_monitor/src/mpc_nw_monitor.cpp:584-587 | the interview code's remaining time is right exactly when nothing remains |
| `InterviewQueue.DueNextIsWokenAtOnce` | linux/src/components/mpc_nw_monitor/src/mpc_nw_monitor.cpp:580-588 | after an interview starts, the next entry is woken at once if it is due |
| `InterviewQueue.HandleOnTime` | linux/src/components/mpc_nw_monitor/src/mpc_nw_monitor.cpp:561-611 | handling any posted event always keeps it so |
| `Lifecycle.AnnounceKeeps` | linux/src/components/mpc_nw_monitor/src/mpc_nw_monitor.cpp:170-284 | a record or a goodbye keeps the registry well formed, the queue sorted, free of duplicates and made of live waiting nodes, every failing row on a live OFFLINE node, and entries unique |
| `Lifecycle.RemoveNodeKeeps` | linux/src/components/mpc_nw_monitor/src/mpc_nw_monitor.cpp:119-168 | so does the removal of a node that is not OFFLINE, along each of its exits and exceptions, a status that cannot be read included |
| `Lifecycle.StepKeeps` | linux/src/components/mpc_nw_monitor/src/mpc_failing_node.cpp:41-112 | every step of the life cycle keeps that invariant, in whatever order failures, recoveries, completions, records, ticks and events come |
| `Lifecycle.RunKeepsInvariant` | linux/src/components/mpc_nw_monitor/src/mpc_nw_monitor.cpp:103-284 | so it holds after every run: the failing table names only live OFFLINE nodes, no two nodes share an entry, every pending node is live and INTERVIEWING or OFFLINE, and no node is interviewed twice |
| `Lifecycle.RunReadable` | linux/src/components/mpc_nw_monitor/src/mpc_nw_monitor.cpp:193-273 | on every run statuses that can all be read stay so, and so do network lists |
| `LifecycleRuns.NoLostWakeUp` | linux/src/components/mpc_nw_monitor/src/mpc_nw_monitor.cpp:112-140 | on every run a waiting node has an armed timer or a queued event |
| `LifecycleRuns.StepOnTimeIff` | linux/src/components/mpc_nw_monitor/src/mpc_nw_monitor.cpp:103-140 | of all steps of the life cycle exactly three kinds break that: a new device that a waiting expiry would start, and a goodbye or a firing timer that brings an entry not yet due before an expiry |
| `LifecycleRuns.NoEarlyStart` | linux/src/components/mpc_nw_monitor/src/mpc_nw_monitor.cpp:103-140 | on every run without such a step, each interview starts at least 10 000 ms after its node was queued |
| `LifecycleRuns.NoEarlyStartWhenDrained` | linux/src/components/mpc_nw_monitor/src/mpc_nw_monitor.cpp:595-616 | a loop whose timer fires onto a drained event queue and whose expiry is handled before the next record takes no such step, so no interview is early |
| `LifecycleRuns.NoneEarlyIff` | linux/src/components/mpc_nw_monitor/src/mpc_nw_monitor.cpp:561-578 | on any run at all no interview is early exactly when each handled expiry finds a due first entry |
| `LifecycleRuns.OnTimeMeans` | linux/src/components/mpc_nw_monitor/src/mpc_nw_monitor.cpp:595-616 | with an expiry waiting, the condition holds exactly when handling what is queued, with nothing in between, starts nothing early |
| `LifecycleRuns.StartIsEarlyIff` | linux/src/components/mpc_nw_monitor/src/mpc_nw_monitor.cpp:561-578 | the timer handler starts an early interview exactly when the first entry is not due, which it does not test |
| `LifecycleRuns.EarlyWhenFiredOntoEvents` | linux/src/components/mpc_nw_monitor/src/mpc_nw_monitor.cpp:595-613 | if an old timer fires behind the posted setting of a new one, the new device is interviewed at once |
| `LifecycleRuns.EarlyOnARun` | linux/src/components/mpc_nw_monitor/src/mpc_nw_monitor.cpp:112-116 | an idle controller gets there when a device says goodbye and comes back after 10 000 ms: the timer set for it was never stopped |
| `LifecycleRuns.EarlyAfterGoodbye` | linux/src/components/mpc_nw_monitor/src/mpc_nw_monitor.cpp:128-140 | if the first entry is removed between expiry and handling, the next interview is early exactly when it is not due |
| `LifecycleRuns.NeverRequeued` | linux/src/components/mpc_nw_monitor/src/mpc_nw_monitor.cpp:239-247 | a node that is not waiting never waits again on any run: the update test is asked about the wrong node |
| `LifecycleRuns.StrandedOnEveryRun` | linux/src/components/mpc_nw_monitor/src/mpc_nw_monitor.cpp:225-229 | a device whose saved status was overwritten with OFFLINE stays in the registry and OFFLINE on every run, through recoveries, completed interviews, announcements and goodbyes |
| `LifecycleRuns.LookupOnEveryRun` | linux/src/components/mpc_nw_monitor/src/mpc_nw_monitor.cpp:194-215 | after every run that starts with readable lists an entry is found at the node that carries it and nowhere else |
| `LifecycleRuns.StallLasts` | linux/src/components/mpc_nw_monitor/src/mpc_nw_monitor.cpp:112-116 | while the first waiting node stays registered and the armed deadline is ahead, no run starts any interview |
| `LifecycleRuns.WrapStalls` | linux/src/components/mpc_nw_monitor/src/mpc_nw_monitor.cpp:580-611 | starting an interview while the next node is not due arms the timer for 2^64 ms less the right time |
| `LifecycleRuns.WrappedDelayStarves` | linux/src/components/mpc_nw_monitor/src/mpc_nw_monitor.cpp:580-589 | after that no run shorter than 2^64 - 10 000 ms in which the node stays starts another interview |
| `LifecycleRuns.SecondDeviceStarves` | linux/src/components/mpc_nw_monitor/src/mpc_nw_monitor.cpp:268-270 | two devices announced `gap` ms apart to an idle controller lead to that state exactly when the gap is not 0 |
| `LifecycleRuns.SecondDeviceWaitsForEver` | linux/src/components/mpc_nw_monitor/src/mpc_nw_monitor.cpp:268-270 | from there, after the first interview, no run in which the second device stays starts another before 2^64 ms after the first announcement, whatever is announced |
| `LifecycleRuns.RepeatedAnnouncement` | linux/src/components/mpc_nw_monitor/src/mpc_nw_monitor.cpp:193-247 | after every run that starts with readable lists, as a commissioned controller does, repeating an announcement changes nothing at all, in registry or queue |
| `LifecycleRuns.GoodbyeUndoesAnnouncement` | linux/src/components/mpc_nw_monitor/src/mpc_nw_monitor.cpp:216-273 | a goodbye right after the announcement of a new device restores the registry, its order, the waiting nodes and the shutdowns |
| `LifecycleRuns.GoodbyeDeletesUnlessOffline` | linux/src/components/mpc_nw_monitor/src/mpc_nw_monitor.cpp:216-237 | a goodbye deletes the named device and its queue entry, and shuts its subscriptions down if its interview is over; for an OFFLINE device it does nothing, and if the status cannot be read only the network-list attribute goes |
| `LifecycleRuns.GoodbyeDeletesIff` | linux/src/components/mpc_nw_monitor/src/mpc_nw_monitor.cpp:223-235 | a goodbye deletes its device exactly when the status can be read and is not OFFLINE; the comment promises it without a state check |
| `DeviceHealth.NewDeviceWaits` | linux/src/components/mpc_nw_monitor/src/mpc_nw_monitor.cpp:248-273 | a new device is registered last under its entry, INTERVIEWING, and queued for 10 000 ms later, with a timer setting posted exactly if nobody waits or the timer is not armed |
| `DeviceHealth.OwnNodeIsFunctional` | linux/src/components/mpc_nw_monitor/src/mpc_nw_monitor.cpp:256-266 | the controller's own record makes a FUNCTIONAL node that is not queued |
| `DeviceHealth.OtherRecordsChangeNothing` | linux/src/components/mpc_nw_monitor/src/mpc_nw_monitor.cpp:183-247 | a record of an unknown fabric, a goodbye of an unknown device and an announcement of a known one change nothing |
| `DeviceHealth.UnreadableListIsDropped` | linux/src/components/mpc_nw_monitor/src/mpc_nw_monitor.cpp:203-281 | an unreadable list met by the search costs its node that list |
| `DeviceHealth.UnreadableIdIsStripped` | linux/src/components/mpc_nw_monitor/src/mpc_nw_monitor.cpp:149-154 | so does a first node id that cannot be read, for a goodbye of a device that is not OFFLINE |
| `DeviceHealth.InterviewBegins` | linux/src/components/mpc_nw_monitor/src/mpc_nw_monitor.cpp:569-578 | handling an expiry takes exactly the first waiting node off the queue and starts its interview |
| `DeviceHealth.ExpiryForNobody` | linux/src/components/mpc_nw_monitor/src/mpc_nw_monitor.cpp:563-567 | an expiry that finds nobody waiting is dropped |
| `DeviceHealth.InterviewEnds` | linux/src/components/mpc_attribute_resolver/src/mpc_attribute_resolver_callbacks.cpp:147-181 | the end of an interview leaves a device that is not OFFLINE FUNCTIONAL exactly when an endpoint that is read is complete, and NON_FUNCTIONAL otherwise |
| `DeviceHealth.NoInterviewEnds` | linux/src/components/mpc_attribute_resolver/src/mpc_attribute_resolver_callbacks.cpp:153-159 | an OFFLINE device keeps its status |
| `DeviceHealth.FailureSetsOffline` | linux/src/components/mpc_nw_monitor/src/mpc_failing_node.cpp:41-61 | in the life cycle a failing online device goes OFFLINE with its status saved, and exactly a FUNCTIONAL one gets a row, with the time in seconds |
| `DeviceHealth.RecoveryUndoesFailure` | linux/src/components/mpc_nw_monitor/src/mpc_failing_node.cpp:90-103 | a recovery right after a failure restores the whole state |
| `DeviceHealth.HealthOnRun` | linux/src/components/mpc_nw_monitor/src/mpc_failing_node.cpp:41-112 | on every run on which it stays registered, no interview of it ends and its row does not expire, the status, saved status and row of a device are those of its own failures and recoveries, whatever happens to others and to time |
| `DeviceHealth.OnlineAgainIff` | linux/src/components/mpc_nw_monitor/src/mpc_failing_node.cpp:80-112 | so a recovery after any such run restores the online status exactly when no two failures of that device came in a row |
| `DeviceHealth.RowOnRunIff` | linux/src/components/mpc_nw_monitor/src/mpc_failing_node.cpp:49-58 | and meanwhile it has a row exactly if its last event was a failure and it was FUNCTIONAL or had failed twice in a row |
| `FabricList.BuiltTextIs` | linux/src/components/mpc_nw_monitor/src/mpc_nw_monitor.cpp:366-386 | the text built fabric by fabric is the kept entries, each ended by a comma |
| `FabricList.ListFits` | linux/src/components/mpc_nw_monitor/src/mpc_nw_monitor.cpp:372-379 | the built list stays below the storage limit and splits back into exactly the appended entries, in order |
| `FabricList.AllKeptIffTheyFit` | linux/src/components/mpc_nw_monitor/src/mpc_nw_monitor.cpp:372-383 | all fabrics but the removed one are listed, in table order, exactly when they fit together |
| `FabricList.OthersAreOthers` | linux/src/components/mpc_nw_monitor/src/mpc_nw_monitor.cpp:372 | those are the identities of exactly the fabrics with another index |
| `FabricList.TokensOfList` | linux/src/components/mpc_nw_monitor/src/mpc_nw_monitor.cpp:305-306 | split at both separators, a list gives fabric and node ids in turn |
| `FabricList.ReaderEndsIff` | linux/src/components/mpc_nw_monitor/src/mpc_nw_monitor.cpp:307-314 | the loop with its 8-bit index ends exactly on lists of at most 255 tokens or with a match among the first 128 odd tokens |
| `FabricList.IsOwnList` | linux/src/components/mpc_nw_monitor/src/mpc_nw_monitor.cpp:305-314 | whenever the loop ends it answers whether some odd token is the controller's node id |
| `FabricList.BuiltListIsReadable` | linux/src/components/mpc_nw_monitor/src/mpc_nw_monitor.cpp:305-314 | every list built under a limit of at most 256 has at most 255 tokens, and is the controller's own exactly when some entry has its node id |
| `FabricList.ControllerFound` | linux/src/components/mpc_nw_monitor/src/mpc_nw_monitor.cpp:387-393 | if every list can be read, with one fabric the search ends at the last node whose list contains the controller's entry |
| `FabricList.OnlyNodeIsController` | linux/src/components/mpc_nw_monitor/src/mpc_nw_monitor.cpp:358-362 | a node that is alone is taken for the controller's, whatever its list |
| `FabricList.FirstMatchingFabric` | linux/src/components/mpc_nw_monitor/src/mpc_nw_monitor.cpp:384-393 | among several nodes the search ends at the last holder of the first fabric whose entry any list contains |
| `FabricList.MatchThrowsIff` | linux/src/components/mpc_nw_monitor/src/mpc_nw_monitor.cpp:391 | the search for an entry throws exactly when some list is unreported |
| `FabricList.NoControllerNoUpdate` | linux/src/components/mpc_nw_monitor/src/mpc_nw_monitor.cpp:353-399 | if no list contains any fabric's entry, nothing is updated |
| `FabricList.UnreadableListThrows` | linux/src/components/mpc_nw_monitor/src/mpc_nw_monitor.cpp:388-391 | with several nodes and one fabric an unreported list makes the update throw |
| `FabricList.UpdateWrites` | linux/src/components/mpc_nw_monitor/src/mpc_nw_monitor.cpp:400-418 | the node found gets the built list and FUNCTIONAL, or if nothing was built its list unset and NON_FUNCTIONAL; no other node changes |
| `FabricList.FirstBoot` | linux/src/components/mpc_nw_monitor/src/mpc_nw_monitor.cpp:430-447 | at first boot the controller's node, which has no list, gets the entry of its fabric and FUNCTIONAL |
| `FabricList.WipeNodeCases` | linux/src/components/mpc_nw_monitor/src/mpc_nw_monitor.cpp:475-494 | a node with a list of identities is deleted with a shutdown at its first node id, one without a list or a colon is passed over, an unreadable node id throws |
| `FabricList.DecommissionWipe` | linux/src/components/mpc_nw_monitor/src/mpc_nw_monitor.cpp:471-495 | removing the only fabric leaves just that node, NON_FUNCTIONAL and with no network list, with one shutdown for each deleted node, in order |
| `FabricList.KeepsControllerIff` | linux/src/components/mpc_nw_monitor/src/mpc_nw_monitor.cpp:388-393 | that node is the controller's own exactly when no later node's list contains the controller's entry |
| `FabricList.DecommissionIff` | linux/src/components/mpc_nw_monitor/src/mpc_nw_monitor.cpp:471-495 | with lists of identities, removing the only fabric leaves the controller's node alone, with one shutdown at each other node's first node id, exactly when no later node carries an identity whose fabric id ends with and whose node id starts with the controller's |
| `FabricList.TakenForControllerIff` | linux/src/components/mpc_nw_monitor/src/mpc_nw_monitor.cpp:391 | within a fabric a device's entry contains the controller's exactly when its node id starts with the controller's digits |
| `FabricList.TwelveIsTakenForOne` | linux/src/components/mpc_nw_monitor/src/mpc_nw_monitor.cpp:391 | device 12 is taken for controller 1 |
| `FabricList.WipeDanglesIff` | linux/src/components/mpc_nw_monitor/src/mpc_nw_monitor.cpp:471-495 | after the removal of the only fabric the queue and the failing table are consistent with the registry exactly when they were empty |
| `Controller.Controller.constructor` | linux/src/components/mpc_nw_monitor/src/mpc_nw_monitor.cpp:430-456 | a commissioned controller's first state satisfies the invariant, with its own node alone and FUNCTIONAL, and everything in it can be read |
| `Controller.Controller.NeedsUpdate` | linux/src/components/mpc_nw_monitor/src/mpc_nw_monitor.cpp:90-101 | an update is asked for exactly for a readable INTERVIEWING or OFFLINE status |
| `Controller.Controller.QueueNodeForInterview` | linux/src/components/mpc_nw_monitor/src/mpc_nw_monitor.cpp:103-117 | refines the queueing step in place and changes nothing else |
| `Controller.Controller.FindPending` | linux/src/components/mpc_nw_monitor/src/mpc_nw_monitor.cpp:124-126 | finds the node's first entry in the queue, or its end |
| `Controller.Controller.EraseFromQueue` | linux/src/components/mpc_nw_monitor/src/mpc_nw_monitor.cpp:123-140 | refines the removal step of the queue and tells whether the node was waiting |
| `Controller.Controller.NodeRemovalHandle` | linux/src/components/mpc_nw_monitor/src/mpc_nw_monitor.cpp:119-168 | refines the removal of a node; where it throws, deleting the list attribute completes the step |
| `Controller.Controller.FindNode` | linux/src/components/mpc_nw_monitor/src/mpc_nw_monitor.cpp:194-215 | the nested loops are the search of the registry, unreadable lists included |
| `Controller.Controller.OnNodeDiscovered` | linux/src/components/mpc_nw_monitor/src/mpc_nw_monitor.cpp:170-284 | refines the announcement and goodbye step on every path, its `catch` included, and ignores other records |
| `Controller.Controller.StartNextPendingInterview` | linux/src/components/mpc_nw_monitor/src/mpc_nw_monitor.cpp:561-590 | starts the interview of the first entry only, removes it, and posts the wrapped remaining time of the next |
| `Controller.Controller.ProcessThread` | linux/src/components/mpc_nw_monitor/src/mpc_nw_monitor.cpp:595-616 | one turn of the process refines the handling of the oldest event |
| `Controller.Controller.MarkDeviceAsFailing` | linux/src/components/mpc_nw_monitor/src/mpc_failing_node.cpp:41-67 | refines the failing step: saves the status, sets OFFLINE, inserts a row with the second for a FUNCTIONAL or OFFLINE device, and fails exactly when there is no status to read |
| `Controller.Controller.FailingNodeRecovery` | linux/src/components/mpc_nw_monitor/src/mpc_failing_node.cpp:80-112 | refines the recovery step: an OFFLINE device gets its saved status back and loses its row; fails exactly when there is no status, or it is OFFLINE with nothing saved |
| `Controller.Controller.CheckAndMarkFailingNode` | linux/src/components/mpc_nw_monitor/src/mpc_failing_node.cpp:126-134 | marks the device on exactly the four connection errors |
| `Controller.Controller.ResolutionCompletion` | linux/src/components/mpc_attribute_resolver/src/mpc_attribute_resolver_callbacks.cpp:147-183 | stores the verdict and passes the node to monitoring, unless the device is OFFLINE, when nothing happens |
| `Controller.Controller.SearchNodes` | linux/src/components/mpc_nw_monitor/src/mpc_nw_monitor.cpp:387-393 | finds the last node whose list contains the text, or the exception of an unreported list |
| `Controller.Controller.BuildNetworkList` | linux/src/components/mpc_nw_monitor/src/mpc_nw_monitor.cpp:364-394 | the loop computes the bounded list and, as the controller's node, the only node there is or else the last match of the first fabric that has one |
| `Controller.Controller.FindMpcAndUpdateNetworkList` | linux/src/components/mpc_nw_monitor/src/mpc_nw_monitor.cpp:348-419 | stores the list and status at the node found, does nothing without one, and changes nothing when it throws |
| `Controller.Controller.FabricWillBeRemoved` | linux/src/components/mpc_nw_monitor/src/mpc_nw_monitor.cpp:471-495 | refines the removal of a fabric: list update, then the wiping loop; an exception leaves the registry unchanged, or wiped exactly up to the node whose list cannot be used |
| `Controller.Controller.Perform` | linux/src/components/mpc_nw_monitor/src/mpc_nw_monitor.cpp:595-616 | whatever step comes next, the object does exactly that step of the state machine and its invariant holds again |
| `AutoRecovery.RecoveryProcess.Start` | linux/src/components/mpc_nw_monitor/src/mpc_failing_node.cpp:114-124 | at boot the list holds every row of the table once, and the timer is armed |
| `AutoRecovery.RecoveryProcess.RecoverNextFailingNode` | linux/src/components/mpc_nw_monitor/src/mpc_failing_node.cpp:136-171 | the counting loop refines one tick: up to two nodes handled in order, the timer re-armed or the exit posted |
| `AutoRecovery.DrainPrefix` | linux/src/components/mpc_nw_monitor/src/mpc_failing_node.cpp:136-171 | while entries remain every tick has handled the next two, in list order, each once |
| `AutoRecovery.DrainsExactly` | linux/src/components/mpc_nw_monitor/src/mpc_failing_node.cpp:139-192 | a list of n is drained in ceil(n/2) ticks (one if n is 0): nodes in their window are monitored, the others lose their row, the timer rests, and exit is posted exactly if n is 0 or odd |
| `AutoRecovery.RecoveredIff` | linux/src/components/mpc_nw_monitor/src/mpc_failing_node.cpp:149-156 | a failing device is subscribed to again exactly if at its own tick less than the configured time has passed since its failure |
| `AutoRecovery.RowDeletedIff` | linux/src/components/mpc_nw_monitor/src/mpc_failing_node.cpp:157-161 | a row is deleted exactly if it is on the list and its window is over at its tick |
| `AutoRecovery.ArmedUntilDrained` | linux/src/components/mpc_nw_monitor/src/mpc_failing_node.cpp:165-170 | before the last tick the timer is always armed again |
| `AutoRecovery.RowsLeftAreMonitored` | linux/src/components/mpc_nw_monitor/src/mpc_failing_node.cpp:148-162 | started from the table, and with no other change of it, recovery leaves a row exactly to the nodes it passed to monitoring |
| `AutoRecovery.DrainedAmidChanges` | linux/src/components/mpc_nw_monitor/src/mpc_failing_node.cpp:136-171 | whatever else changes the table between ticks, the list is drained in the same way |
| `AutoRecovery.TickDeletesExpired` | linux/src/components/mpc_nw_monitor/src/mpc_failing_node.cpp:148-161 | and each tick deletes exactly the rows of those of its two nodes whose window is over |
| `AutoRecovery.KeptIffMonitored` | linux/src/components/mpc_nw_monitor/src/mpc_failing_node.cpp:148-162 | so at a device's own tick its row, if it is still there, stays exactly if the device is passed to monitoring |
| `AutoRecovery.RecoveredInOrderIff` | doc/readme_overview.md:88-89 | devices are recovered in order of their failure, as documented, exactly when the rows in their window were read from the table in that order |
| `AutoRecovery.LaterFailureFirst` | linux/src/components/mpc_datastore/src/failing_nodes_datastore.cpp:58 | one table that can be read in two orders, one of which recovers the later failure first |
| `NodeMonitor.PathsPackBack` | linux/src/components/mpc_nw_monitor/src/mpc_node_monitor.cpp:79-86 | each path of a subscription has its attribute's endpoint and packs back to its type |
| `NodeMonitor.NodeMonitor.constructor` | linux/src/components/mpc_nw_monitor/src/mpc_node_monitor.cpp:31-32 | the state with both maps empty satisfies the bounds' invariant |
| `NodeMonitor.NodeMonitor.OnVolatileAttributeDiscovery` | linux/src/components/mpc_nw_monitor/src/mpc_node_monitor.cpp:34-59 | a created attribute is appended to its node's list; an update changes nothing |
| `NodeMonitor.NodeMonitor.InitiateMonitoring` | linux/src/components/mpc_nw_monitor/src/mpc_node_monitor.cpp:61-102 | subscribes to the node's volatile attributes with their paths, keeps an entry that is tracked, and fails exactly when there are attributes but no readable list or store place |
| `NodeMonitor.NodeMonitor.CancelMonitoring` | linux/src/components/mpc_nw_monitor/src/mpc_node_monitor.cpp:104-116 | the node is no longer tracked, and nothing else changes |
| `NodeMonitor.NodeMonitor.OnError` | linux/src/components/mpc_nw_monitor/src/MPCNodeReportables.cpp:66-81 | refines the error step: mark a resubscription, resubscribe once after a timeout, otherwise mark and stop tracking |
| `NodeMonitor.NodeMonitor.OnAlive` | linux/src/components/mpc_nw_monitor/src/MPCNodeReportables.cpp:83-87 | a sign of life recovers the subscription's device |
| `NodeMonitor.StartSubscribesIff` | linux/src/components/mpc_nw_monitor/src/mpc_node_monitor.cpp:61-96 | a call for a named device subscribes exactly when it has volatile attributes that are all in the store: to its first node id, with a path for each, tracked unless one is already |
| `NodeMonitor.UnnamedIsNotSubscribed` | linux/src/components/mpc_nw_monitor/src/mpc_node_monitor.cpp:75-101 | a device without a reported list is not subscribed to |
| `NodeMonitor.AliveRecovers` | linux/src/components/mpc_nw_monitor/src/MPCNodeReportables.cpp:38 | a sign of life after one failure brings the device back as it was |
| `NodeMonitor.RunKeeps` | linux/src/components/mpc_nw_monitor/src/MPCNodeReportables.cpp:66-87 | the bounds' invariant holds over every run of outside calls, errors, signs of life and arbitrary changes of the store |
| `NodeMonitor.SubscriptionsPerCall` | linux/src/components/mpc_nw_monitor/src/MPCNodeReportables.cpp:66-81 | each outside call leads to one subscription and at most one more for each timeout its first subscription is told of |
| `NodeMonitor.RenewedExactly` | linux/src/components/mpc_nw_monitor/src/MPCNodeReportables.cpp:66-81 | on every run the subscriptions of a call grow by exactly the timeouts its first one is told of while the device can still be subscribed to |
| `NodeMonitor.AtMostTwoSubscriptions` | linux/src/components/mpc_nw_monitor/src/MPCNodeReportables.cpp:66-81 | a call that subscribes leads to at most two subscriptions exactly when that happens at most once |
| `NodeMonitor.ToldOnceIsEnough` | linux/src/components/mpc_nw_monitor/src/MPCNodeReportables.cpp:66-81 | so to at most two, whatever the others are told, if its first subscription is told of at most one error |
| `NodeMonitor.TimeoutKeeps` | linux/src/components/mpc_nw_monitor/src/MPCNodeReportables.cpp:74-78 | a first timeout makes exactly one more subscription of the same call if the device can still be subscribed to |
| `NodeMonitor.ErrorOutcome` | linux/src/components/mpc_nw_monitor/src/MPCNodeReportables.cpp:66-81 | a first error that is not a timeout leaves the device OFFLINE and untracked; an error on a resubscription starts no other and leaves it OFFLINE exactly for the four connection errors or if it was |
| `NodeMonitor.SendFailureStrands` | linux/src/mpc_command_sender.cpp:67-72 | an error reported twice makes two more subscriptions of one call after a timeout, and otherwise strands a first subscription's device, or a resubscription's exactly on a connection error, for ever, where one report would have been undone by one recovery |
| `AttributePaths.PackUnpack` | linux/src/components/mpc_nw_monitor/src/MPCNodeReportables.cpp:47 | packing keeps the low 16 bits of both ids and undoes unpacking for all 32-bit types |
| `AttributePaths.GetRule` | linux/src/components/mpc_attribute_resolver/src/mpc_attribute_resolver_rules.cpp:40-75 | the read frame packs back to the attribute's type and names its endpoint and its node's first identity, and fails exactly when the list cannot be read |
| `AttributePaths.ReportsComeHome` | linux/src/components/mpc_nw_monitor/src/MPCNodeReportables.cpp:46-48 | a report for an attribute's path reaches that very attribute exactly when no earlier endpoint has its id and no earlier sibling its type |
| `AttributePaths.PartsStayDistinct` | linux/zap-generated/handlers/mpc_attribute_cluster_parser.cpp:110-125 | endpoint ids stay distinct exactly when a parts list names new ids, each once |
| `ClusterLists.WithTypesKeeps` | linux/zap-generated/handlers/mpc_attribute_cluster_parser.cpp:88-101 | emplaced children keep their value if they are there and have none if they are new |
| `ClusterLists.EndpointNode.ServerListProcess` | linux/zap-generated/handlers/mpc_attribute_cluster_parser.cpp:78-108 | cluster 6 gets its five global attributes, any other is refused and creates nothing |
| `ClusterLists.EndpointNode.AttributeListProcess` | linux/zap-generated/handlers/mpc_attribute_cluster_parser.cpp:127-141 | the listed attribute is created in the cluster of the list, unless it is there |
| `ClusterLists.EndpointNode.ParseList` | linux/zap-generated/handlers/mpc_attribute_cluster_parser.cpp:53-71 | every entry's children are created, other children keep their values, the joined signed decimals are stored, and a server list with cluster 6 leaves the attribute list that the check reads |
| `ClusterLists.ServerListAsks` | linux/zap-generated/handlers/mpc_attribute_cluster_parser.cpp:78-108 | a server list creates the five attributes of the supported cluster if it lists it, and nothing else |
| `ClusterLists.ServerListAsksFor` | linux/zap-generated/handlers/mpc_attribute_cluster_parser.cpp:84-101 | in numbers: a server list creates 0x0006FFFB, FFFC, FFFD, FFF8 and FFF9 if it lists cluster 6, and nothing else |
| `ClusterLists.AttributeListAsksFor` | linux/zap-generated/handlers/mpc_attribute_cluster_parser.cpp:132-134 | in numbers: an attribute list creates the listed ids, 16 bits of each, in its own cluster, and nothing else |
| `ClusterLists.CheckAttributes` | linux/src/components/mpc_attribute_resolver/src/mpc_attribute_resolver_callbacks.cpp:127-141 | the inner loop tells whether every listed attribute is reported, or throws on an unreadable id before the first missing one |
| `ClusterLists.CheckAppClusterResolution` | linux/src/components/mpc_attribute_resolver/src/mpc_attribute_resolver_callbacks.cpp:104-145 | the nested loops decide as the first supported cluster that is complete or throws |
| `ClusterLists.CompletionVerdict` | linux/src/components/mpc_attribute_resolver/src/mpc_attribute_resolver_callbacks.cpp:161-179 | the endpoint loop decides FUNCTIONAL as the first endpoint that is resolved, and an exception before it decides against |
| `ClusterLists.ReadBack` | linux/src/components/mpc_attribute_resolver/src/mpc_attribute_resolver_callbacks.cpp:112-119 | a stored list reads back as its values, sign-extended, in order |
| `ClusterLists.CreatedIsDemanded` | linux/src/components/mpc_attribute_resolver/src/mpc_attribute_resolver_callbacks.cpp:119-130 | the types that parsing an attribute list creates are exactly those that the completion check demands from its text |
| `ClusterLists.ResolvedIff` | linux/src/components/mpc_attribute_resolver/src/mpc_attribute_resolver_callbacks.cpp:104-145 | an endpoint is resolved exactly when it lists the supported cluster and everything parsing its attribute list created is reported |
| `ClusterLists.UnreadListThrows` | linux/src/components/mpc_attribute_resolver/src/mpc_attribute_resolver_callbacks.cpp:119-124 | after a server list with cluster 6 and before its attribute list is reported, the check of the endpoint throws |
| `ClusterLists.ThrowingEndpointDecides` | linux/src/components/mpc_attribute_resolver/src/mpc_attribute_resolver_callbacks.cpp:161-179 | an exception behind incomplete endpoints ends the interview NON_FUNCTIONAL, even if a later endpoint is complete |
| `ClusterLists.VerdictIff` | linux/src/components/mpc_attribute_resolver/src/mpc_attribute_resolver_callbacks.cpp:147-183 | an interview ends FUNCTIONAL exactly when some endpoint up to the deciding one has no server list or lists the supported cluster with all its listed attributes reported |
| `CommandSupport.CheckClusterSupport` | linux/zap-generated/handlers/dotdot_mqtt_to_matter.cpp:44-60 | on a stored list of ids a command is accepted exactly when its digits occur in a listed id's printed form, which over the OnOff commands is membership; an absent list refuses and an unreported one throws |
| `CommandSupport.ListTypes` | linux/zap-generated/handlers/dotdot_mqtt_to_matter.cpp:51-69 | in numbers: commands of cluster 6 are looked up in 0x0006FFF9 and clusters in 0x001D0001; without the latter every cluster is supported |
| `CommandSupport.SubstringTest` | linux/zap-generated/handlers/dotdot_mqtt_to_matter.cpp:57 | the test accepts a command exactly when its digits occur in the printed form of some listed id |
| `CommandSupport.ListedIsAccepted` | linux/zap-generated/handlers/dotdot_mqtt_to_matter.cpp:57 | a listed command is accepted exactly up to 2^31: a larger one was stored as a negative number |
| `CommandSupport.OnOffTestIsExact` | linux/zap-generated/handlers/dotdot_mqtt_to_matter.cpp:57 | for lists over the OnOff commands, of any length and order, the substring test is membership |
| `CommandSupport.AcceptsUnlisted` | linux/zap-generated/handlers/dotdot_mqtt_to_matter.cpp:57 | a list of command 64 alone accepts command 6 |
| `CommandSupport.CheckEndpointSupport` | linux/zap-generated/handlers/dotdot_mqtt_to_matter.cpp:62-82 | the loop decides as the first matching or unreadable entry |
| `CommandSupport.EndpointSupportIff` | linux/zap-generated/handlers/dotdot_mqtt_to_matter.cpp:76-80 | a stored server list supports exactly the listed clusters below 2^31 |
| `SendableCommand.Context.Send` | linux/src/mpc_sendable_command.hpp:72-81 | a spawned context has asked for one session and done nothing else |
| `SendableCommand.Context.OnConnected` | linux/src/mpc_sendable_command.hpp:91-139 | refines the connection step: invoke, or retry once on a send error, or mark and leave the context |
| `SendableCommand.Context.OnConnectFailure` | linux/src/mpc_sendable_command.hpp:141-163 | refines the connection failure: retry once, or call back, mark and free, in that order |
| `SendableCommand.Context.OnSuccess` | linux/src/mpc_sendable_command.hpp:94-109 | call back, recover, free, in that order |
| `SendableCommand.Context.OnFailure` | linux/src/mpc_sendable_command.hpp:110-125 | call back, mark, free, in that order |
| `SendableCommand.RunKeeps` | linux/src/mpc_sendable_command.hpp:72-163 | every run keeps the shape of the trace and ends within the budget of callbacks |
| `SendableCommand.CommandSafety` | linux/src/mpc_sendable_command.hpp:72-163 | on every run one `Send` makes at most two session requests, calls back and frees at most once, does nothing after freeing, and has called any callback exactly if it was freed |
| `SendableCommand.CommandEnds` | linux/src/mpc_sendable_command.hpp:126-163 | a run frees the context exactly if it ends in a reply or in a connection failure after the retry, and leaves it neither freed nor called back exactly if it ends in a send error after the retry |

## Left out

- The Matter SDK (sessions, exchanges, TLV, read and write clients), MQTT and the resolver's own
  scheduling: their outcomes are inputs. A synchronous send error of a command is taken to produce no
  later callback, as the command's lambdas assume.
- SQLite: the failing-node table is a map, and statements succeed apart from the primary-key conflict.
- Reboots: a run starts from a commissioned controller; what a restart keeps and re-reads is modelled
  only for the failing-node table (`RecoveryProcess.Start`).
- `OnFabricUpdated` and several fabrics at once: the life-cycle runs have a constant fabric table, and
  removing a fabric is not one of their steps; it is the separate transition of `FabricList.dfy`.
- Write requests, read requests and the command-line client: their error paths call the same marking and
  recovery steps.
- The attribute store's limit on the length of a reported text, except in the building of the
  controller's own list, where it is a parameter.
- UNIDs, the publication of attributes and commands, logging, configuration and process start-up.
- The parsers of single-valued attributes, the device-type list and the generated data models: table
  look-ups and assignments.
- AutoRecovery.RowsLeftAreMonitored: takes the table to change by the recovery alone; `KeptIffMonitored`
  is the statement amid other changes.
- Lifecycle.RunKeepsInvariant: the removal of a fabric is not a step of the runs, because the invariant
  survives it only if the queue and the failing-node table are empty (`WipeDanglesIff`).
- Identity.UnidFromPeer: requires the fabric index to be in the table, because the code follows the
  pointer it gets for it without a test.
- Destruction of subscription objects (`OnDone`): the SDK calls it last.
