# KernelDock: a verified model of its state machines

KernelDock runs Python code for many callers in pooled containers, behind a gateway and a router.
This project models the parts of it that have to be right under concurrency, crashes and arbitrary
chunking, and proves what they promise. The Dafny files follow the components:

- **Container pool and stateless leases.** `PoolSpec` gives every locked section of the pool as a
  function, `PoolSections` says what each does to the fields, `ContainerPool` is the pool as an
  object proved against it, `DataFiles` says what lands in a container when files are copied into
  it, `StatelessLease` is the protocol between the pool, the stateless requests (code and shell
  commands), the health sweep and elastic resizing, and `LeaseGuarantees` and `ContainerLife` state
  what holds for every interleaving.
- **Execution queue.** `QueueSpec`, `ExecutionQueue` (tickets updated in place), `QueueRuns`,
  `QueueLimits` and `QueueHistory` (what the steps of a run say about average and estimates).
- **Router.** `ResourceIds` (prefixes and JSON rewriting), `RouterSpec`, `Router`, `RouterRuns`
  (event logs), `RouterLoads` (what a log says about each record) and `Scheduler`.
- **Session store.** `SessionSpec`, `SessionStore`, `SessionRuns` (lost writes and crashes) and
  `SessionLife` (limits, and records replayed from operations).
- **Rate limiter.** `TokenSpec` and `TokenBucket`.
- **Job manager.** `JobSpec`, `JobManager`, `JobRuns` and `JobHistory` (records replayed from the
  steps of a run).
- **Wire formats.** `Framing` (length headers), `JsonText` and `EventStream` (one event a line).
- **Metrics and text.** `Histogram` and `SymbolText`. `Basics` and `Sorting` are shared.

How to read the model:

- A section that runs without giving up its lock or the event loop is one step. What Docker, the
  network, the clock, the database and the operating system answer are parameters of the step.
- Objects the source updates in place are classes; each method is proved to produce the state that
  a function of the old state gives. The theorems about whole runs are about those functions.
- Times and the queue's estimates are `real`.
- Every theorem about a reachable state quantifies over all runs from the initial state.
- What the functions compute is stated apart from them: over the fields (names ending in `Exactly`)
  or over the whole log of steps (`…Replay…`, `…InEveryState`).

Where the code does less, or more, than it seems to intend, the model follows the code and the
difference is stated as a theorem:

- A request that times out in the queue runs the `finally` block too and releases a permit it never
  took; from every reachable state the limit is kept if and only if there is no such drift, and
  otherwise it is exceeded by exactly that much (`QueueLimits.LimitKeptExactly`).
- A shrinking resize may fail to take permits (`asyncio.Semaphore` has no `acquire_nowait`); the
  model lets it take any number (`QueueRuns.PermitsExactly`, term `missed`).
- A container destroyed as not reusable leaves its lease behind for good, and the scale-up counts
  it as load (`LeaseGuarantees.LeasesInUseExactly`, `LeaseGuarantees.LoadMeasured`).
- The proactive scale-up tests the maximum before it takes the lock and may exceed it by one
  (`LeaseGuarantees.OvershootExactly`, `LeaseGuarantees.OvershootHappens`).
  On an idle pool it fires on those leftover leases alone, although its documentation says that it
  never fires there (`LeaseGuarantees.IdleGrowthExactly`).
- When the archive is refused, files go in through unquoted shell commands. A name with a blank in
  it lands under its first word, and the command then fails unless the rest is a comment; a file
  without content does not land at all. For data files a failed command is only logged, so the
  tables of a request may be skipped although it brings no parquet file, and the other way round;
  for names without shell operators the exact condition is `DataFiles.Agrees`
  (`LeaseGuarantees.SkipsAsIntendedExactly`). For tables a failed command raises, but an empty
  table or a comment in a reference goes wrong in silence (`DataFiles.EmptyTableMisses`,
  `DataFiles.CommentMisses`); `LeaseGuarantees.TablesInPlaceExactly` has the exact condition.
- With sharing on, a parquet entry left by a shared request makes the gateway skip the tables of a
  later exclusive request (`LeaseGuarantees.PreloadSkippedExactly`, for every setting;
  `LeaseGuarantees.SharingSkipsTables`, a run).
- The reset before a container goes back names no kernel context and so clears the default one
  only: the others stay as a run in the kernel's own process left them
  (`LeaseGuarantees.PooledContainersAreClean`).
- Text that itself looks like a rendered group is misread
  (`SymbolText.ReadsBackExactly`).
- An id that already carries the node's prefix is not prefixed again and loses the prefix on its way
  back (`ResourceIds.MintedSplitsBack`, `RouterRuns.MintedIdsStick`).
- Candidates whose name hashes collide modulo their number starve one another
  (`Scheduler.EveryMinimalNodePickedExactly`).
- A runner that swallows its cancellation turns a cancelled job into a finished one
  (`JobRuns.TerminalFinalExactly`, `JobRuns.SwallowedCancelRevives`).
- The kernel hangs up on an empty request without an answer (`Framing.ServedExactly`).
- A start time or finishing time of zero counts as missing (`QueueHistory.Durations`,
  `JobSpec.DatedAt`), and a node name may end in a newline, which `$` in the pattern lets through
  (`ResourceIds.IsNodeName`).

## Model

| member | source | states |
|---|---|---|
| LeaseGuarantees.MutualExclusion | app/services/sandbox_execution.py:506-562 | In every reachable state, a container that one request holds exclusively has no other request in it, shared or exclusive. |
| LeaseGuarantees.SharedCountExact | app/infrastructure/container_pool.py:398-434 | In every reachable state the shared count of a container is the number of requests in their shared phase on it, and never above the limit per container. |
| LeaseGuarantees.NobodyElseDestroys | app/infrastructure/container_pool.py:519-564 | No step but the request's own (sweep, shrink, resizing, hand-outs, other requests) destroys the container a request is in or moves that request. |
| LeaseGuarantees.TableAndBounds | app/infrastructure/container_pool.py:122-142 | In every reachable state the list has no id twice, the dictionary indexes it, pooled and leased ids are disjoint, shared ids are pooled with positive counts, and target and list stay within the maximum plus one. |
| LeaseGuarantees.AtomicGrowthBounds | app/infrastructure/container_pool.py:576-606 | On every run where each proactive increment directly follows its test, target and pooled containers never exceed the maximum. |
| LeaseGuarantees.OvershootExactly | app/infrastructure/container_pool.py:585-597 | An increment passes the maximum if and only if the target stands at the maximum and the pool is above its high-water mark when the lock is taken. |
| LeaseGuarantees.OvershootHappens | app/infrastructure/container_pool.py:439-446 | There is a run that ends with the target at the maximum plus one: the bound is tight. |
| LeaseGuarantees.NoContainerIsLost | app/infrastructure/container_pool.py:855-875 | Every lease belongs to exactly one of a running request, a destroyed container or a container handed out for good, and the containers alive are exactly the pooled and the properly leased. |
| LeaseGuarantees.LeasesInUseExactly | app/services/sandbox_execution.py:646-658 | The leases number those in use plus one for each container destroyed as not reusable, and are exactly those in use if and only if none was. |
| LeaseGuarantees.LoadMeasured | app/infrastructure/container_pool.py:589-598 | What the scale-up measures is the requests in their shared phase, the exclusive holders (code and shell commands), the containers handed out, and the containers destroyed as not reusable. |
| LeaseGuarantees.IdleGrowthExactly | app/infrastructure/container_pool.py:576-604 | On a pool nobody uses the scale-up fires if and only if the pool is not empty and the containers destroyed as not reusable reach three quarters of its capacity. |
| LeaseGuarantees.PooledContainersAreClean | app/services/sandbox_execution.py:634-644 | Of a pooled container's kernel contexts the default one is always clean, and another one is dirty if and only if some run entered it in the kernel's own process; its directory holds only what shared requests left since the last cleanup, and nothing with sharing off. |
| LeaseGuarantees.OwnDataOnly | app/services/sandbox_execution.py:520-543 | With sharing off, an exclusive request starts in an empty container, holds exactly what copying its own data files brought, and sees only entries of its own until its code runs. |
| LeaseGuarantees.PreloadSkippedExactly | app/services/sandbox_execution.py:397-413 | For every setting and reachable state: the tables are skipped if and only if the check works and finds a parquet entry that landed from the request's own files or one left by a shared request since the last cleanup (none with sharing off; no regular file if the request has data files). What landed is decided by names and sizes: by archive exactly what the files bring; by shell, for names without operators and when all that can be created is, exactly so when archive and shell agree. |
| LeaseGuarantees.SkipsAsIntendedExactly | app/services/sandbox_execution.py:681-766 | With sharing off, from every reachable state before the injection of files without shell operators in their names: on every way of copying on which all that can be created is, the check finds a parquet file exactly when the files bring one, if and only if archive and shell agree on the files. |
| LeaseGuarantees.TablesInPlace | app/services/sandbox_execution.py:322-371 | Loading that does not raise puts all tables in place through the archive, and also through the shell when they have content and plain references. |
| LeaseGuarantees.TablesInPlaceExactly | app/services/sandbox_execution.py:277-371 | With sharing off, no data files, and references without shell operators and option words: every way of loading the tables that does not raise puts all of them in place, if and only if some command always fails, so that the shell way always raises, or all tables have content and plain references. |
| DataFiles.ParquetExactly | app/services/sandbox_execution.py:687-766 | For files without shell operators in their names: every copy into an empty directory on which all that can be created is lands a parquet file exactly when the files bring one, if and only if archive and shell agree on them. |
| DataFiles.PlainFilesAgree | app/services/sandbox_execution.py:729-753 | Files with content and with names that need no quoting land under the same names either way. |
| DataFiles.BlankMisleads | app/services/sandbox_execution.py:745-760 | Every file whose name is a parquet name, a blank and more without operators lands as a parquet file through the shell and not through the archive. |
| DataFiles.EmptyMisleads | app/services/sandbox_execution.py:745-753 | Every parquet file without content lands through the archive and not through the shell. |
| DataFiles.TablesExactly | app/services/sandbox_execution.py:322-371 | For references without shell operators and option words: every copy of valid tables in which no command fails puts all of them in place, if and only if some command always fails or all tables have content and plain references. |
| DataFiles.CommentMisses | app/services/sandbox_execution.py:352-370 | For every reference of a word, a blank, a number sign and more, no command fails, the word itself lands and the table does not. |
| DataFiles.EmptyTableMisses | app/services/sandbox_execution.py:352-370 | For every table without content no command runs and the table does not land. |
| DataFiles.PlainTablesLand | app/services/sandbox_execution.py:352-370 | Whatever was there before, tables with content and plain references are all in place after every copy in which no command fails. |
| FileNames.ParquetNames | app/services/sandbox_execution.py:373-395 | The check matches exactly the names with something before the ending that do not start with a dot. |
| FileNames.WordsExactly | app/services/sandbox_execution.py:745-753 | The shell cuts the rest of a command into words at blanks, up to a comment. |
| FileNames.OperatorsExactly | app/services/sandbox_execution.py:745-753 | The names in question for the shell are those with a character that has to be quoted in a word. |
| FileNames.UndecodableNeverLands | app/services/sandbox_execution.py:699-703 | A file whose content does not decode lands neither through the archive nor through the shell. |
| FileNames.SecondWordRaises | app/services/sandbox_execution.py:352-370 | A table whose reference is two words, the second no option, cannot be loaded through the shell without raising. |
| LeaseGuarantees.SharingSkipsTables | app/services/sandbox_execution.py:481-504 | With sharing on there is a run in which a file left by a shared request makes the check skip the tables of a request that brings no parquet file. |
| ContainerLife.GivenBackExactly | app/infrastructure/container_pool.py:448-481 | In every reachable state a container given back stays alive, and is pooled again as the last one and as old as it was, if and only if its probe is good and fewer containers than the target are pooled; its lease ends in any case. |
| ContainerLife.FailedProbeIsFinal | app/infrastructure/container_pool.py:464-481 | After a probe that failed when a container was given back, that container is never alive, pooled or in any request's hands again, whatever follows. |
| ContainerLife.DestroyedForGood | app/infrastructure/container_pool.py:830-875 | From every reachable state: a container once destroyed is never alive again and no request ever gets it. |
| ContainerLife.ExecuteExactly | app/services/sandbox_execution.py:529-540 | A run enters exactly the kernel context it names, the default one for none, unless it was isolated in a child; whatever it leaves in the directory stays for the cleanup. |
| ContainerLife.RaisingEndsTheRun | app/services/sandbox_execution.py:519-562 | Injecting files or loading tables that raises ends the run and leads to the cleanup; otherwise it goes on to the next stage. |
| ContainerLife.StagesKept | app/services/sandbox_agent_ops.py:200-229 | In every reachable state a shell command has no files or tables brought in, is in no shared phase, and ends as a command; nothing else does. |
| ContainerLife.CleanupExactly | app/services/sandbox_execution.py:541-562 | After a run the container counts as reusable if and only if the kernel was not reported unhealthy, the directories could be emptied, and the kernel was reset unless the run was isolated. |
| ContainerLife.ReturnsOnlyIfFit | app/services/sandbox_execution.py:541-562 | Over every run: a container is alive after the request in it has finished only if that request's cleanup went well and after it the container's probe. |
| ContainerLife.SharesExactly | app/services/sandbox_execution.py:477-508 | A request may try to share if and only if sharing is on and it brings no data files, tables or command; it may lease a container for itself if and only if it has tried in vain or must not try. |
| ContainerLife.OnlyPureCodeShares | app/services/sandbox_execution.py:481-504 | In every reachable state no request with data files, tables or a command is in a shared phase, and none at all with sharing off. |
| ContainerLife.AgesCountFromCreation | app/infrastructure/container_pool.py:468-475 | In every reachable state every pooled or leased container carries the creation time it was delivered with, through leases, returns and sweeps, and no pooled one is known to be unhealthy. |
| ContainerLife.LendsExactly | app/infrastructure/container_pool.py:364-396 | A request gets a container to itself if and only if some pooled one was created no longer ago than the maximal age and is shared by nobody, and then such a one; otherwise the target grows by one up to the maximum. |
| ContainerLife.SharesYoung | app/infrastructure/container_pool.py:398-425 | A request that gets to share shares a pooled container of at most the maximal age that fewer requests than the limit are sharing. |
| ContainerLife.GrowsExactly | app/infrastructure/container_pool.py:585-604 | In every reachable state the proactive scale-up raises the target, by one, if and only if the pool is not empty and requests in it, hand-outs and containers destroyed as not reusable reach three quarters of its capacity. |
| ContainerLife.LowersExactly | app/infrastructure/container_pool.py:616-624 | In every reachable state the background task lowers the target, by one, if and only if that is above the minimum and the idle time has passed since the last acquisition or change of the target in the run. |
| StatelessLease.InvStep | app/services/sandbox_execution.py:415-562 | One step of any request, shell command, sweep, resizing or hand-out keeps the table, count, lease and cleanliness invariants. |
| StatelessLease.RunKeepsInv | app/services/sandbox_execution.py:415-562 | Every run keeps those invariants. |
| PoolSpec.SweepKeepsTable | app/infrastructure/container_pool.py:527-557 | A sweep keeps the tables in agreement, removes exactly the idle containers that are too old or failed their probe, and never a shared one. |
| PoolSpec.ShrinkKeepsTable | app/infrastructure/container_pool.py:629-638 | Removing the surplus keeps the tables in agreement, adds nothing and keeps every shared container. |
| PoolSpec.Shrunk | app/infrastructure/container_pool.py:630-638 | The removal keeps every busy container, stops at the target, and stays above it only when nothing idle is left. |
| PoolSpec.LeastLoaded | app/infrastructure/container_pool.py:409-425 | The chosen container is usable, below the limit and least loaded, the first of equals; none is chosen exactly when all usable ones are full. |
| PoolSpec.ReleaseKeepsTable | app/infrastructure/container_pool.py:458-481 | A release, readmitted or destroyed, keeps the tables in agreement. |
| PoolSpec.MakeConfig | app/infrastructure/container_pool.py:121-127 | Whatever bounds are asked for, the pool size lies between the minimum and the maximum, and bounds around it are taken as they are. |
| PoolSections.AcquireExactly | app/infrastructure/container_pool.py:364-396 | An exclusive request gets the first container that is not too old, not known to be unhealthy and shared by nobody, which leaves list and dictionary for the leases; if there is none the target grows by one up to the maximum; nothing else changes. |
| PoolSections.AcquireSharedExactly | app/infrastructure/container_pool.py:398-425 | A sharing request is counted on the first of the fit containers that fewest requests share, if those are below the limit; otherwise the target grows; nothing else changes. |
| PoolSections.ReleaseExactly | app/infrastructure/container_pool.py:456-481 | A failed probe or a full pool leaves list and dictionary as they were without the container; a good probe and room append it with its old creation time; the lease ends, and without a lease nothing happens. |
| PoolSections.ReleaseSharedExactly | app/infrastructure/container_pool.py:427-434 | One request less is counted on the container, its entry goes with the last one, and no other count changes. |
| PoolSections.SuccessesExactly | app/infrastructure/container_pool.py:497-509 | Of a row of creation attempts the successful ones deliver their containers in order. |
| PoolSections.ReplenishFills | app/infrastructure/container_pool.py:491-517 | When every attempt succeeds the pool ends at its target, and never above it through replenishing. |
| PoolSections.SweepExactly | app/infrastructure/container_pool.py:525-557 | A container is thrown out if and only if nobody shares it and it is too old or fails its probe; the rest stay in order, shared ones untouched and the others marked healthy as of now. |
| PoolSections.ShrinkExactly | app/infrastructure/container_pool.py:629-638 | An idle container goes if and only if fewer idle ones stand behind it than the pool is above its target; what stays is unchanged and in order. |
| ContainerPool.ContainerPool.GetAvailableContainer | app/infrastructure/container_pool.py:877-902 | The first container that is young, healthy and in no shared use, or none if there is none. |
| ContainerPool.ContainerPool.AcquireForExecution | app/infrastructure/container_pool.py:364-396 | Moves the first free container from list and dictionary to the leases, or raises the target on a miss; the new state is the specified one. |
| ContainerPool.ContainerPool.AcquireShared | app/infrastructure/container_pool.py:398-425 | Counts one more request on a least loaded container and leaves it pooled, or raises the target on a miss. |
| ContainerPool.ContainerPool.ReleaseShared | app/infrastructure/container_pool.py:427-434 | Counts one request less and drops the entry at zero. |
| ContainerPool.ContainerPool.Release | app/infrastructure/container_pool.py:448-481 | Ends the lease and readmits the container exactly when it was leased, is healthy and the pool is below its target. |
| ContainerPool.ContainerPool.Replenish | app/infrastructure/container_pool.py:483-517 | Adds exactly the containers whose creation succeeded, in order. |
| ContainerPool.ContainerPool.Sweep | app/infrastructure/container_pool.py:519-557 | Marks the probed containers and removes exactly the idle ones that are too old or unhealthy. |
| ContainerPool.ContainerPool.GrowIfBusy | app/infrastructure/container_pool.py:589-604 | Raises the target exactly when requests in flight reach three quarters of the capacity of a non-empty pool. |
| ContainerPool.ContainerPool.LowerTarget | app/infrastructure/container_pool.py:616-624 | Lowers the target by one, not below the minimum, exactly after the idle time. |
| ContainerPool.ContainerPool.RemoveSurplus | app/infrastructure/container_pool.py:629-638 | Removes idle containers from the end until the target is met or none is idle. |
| QueueRuns.PermitsExactly | app/services/execution_queue.py:81-165 | In every reachable state permits, holders and not yet released timeouts add up to the limit plus timeouts plus the permits shrinking missed, and nobody executes without holding. |
| QueueLimits.LimitKeptExactly | app/services/execution_queue.py:108-165 | From every reachable state some continuation without further timeouts or resizing has exactly as many requests executing as the limit plus the permits given away, missed or still to be given away, and none has more; so all of them keep the limit if and only if there are no such permits. |
| QueueLimits.NeverAboveCeiling | app/services/execution_queue.py:108-165 | No continuation without further timeouts or resizing goes above that number. |
| QueueLimits.WaitingInArrivalOrder | app/services/execution_queue.py:96-135 | In every reachable state the wait list is the order of arrival restricted to the tickets that wait. |
| QueueLimits.GrantedInArrivalOrder | app/services/execution_queue.py:108-114 | On every run the permits are given out in the order of arrival, restricted to the tickets that get one. |
| QueueRuns.LimitHoldsExactly | app/services/execution_queue.py:110-159 | Permits and holders add up to the limit if and only if no timeout has released and no shrink has missed a permit; at most the limit plus the timeouts and missed permits execute. |
| QueueRuns.QuietRunsKeepTheLimit | app/services/execution_queue.py:302-331 | On every run without queue timeouts and missed permits the intended law holds. |
| QueueRuns.TimeoutAdmitsTwo | app/services/execution_queue.py:115-159 | There is a run with a limit of one in which two requests execute at once. |
| QueueRuns.RequestsConserved | app/services/execution_queue.py:144-157 | Every enqueued request is waiting, executing, counted as executed, or between the two sections of a timeout. |
| QueueRuns.PositionsNeverIncrease | app/services/execution_queue.py:271-280 | Over every run a waiting ticket's position never increases. |
| QueueRuns.GoneForGood | app/services/execution_queue.py:129-135 | A ticket that has left the queue never waits again. |
| QueueRuns.EstimatesOrdered | app/services/execution_queue.py:335-339 | In every reachable state estimates never decrease along the queue. |
| QueueHistory.AverageInEveryState | app/services/execution_queue.py:144-154 | In every reachable state the average is the initial value times 0.7 to the power of n, plus the n execution times of the run, each from its start to its end and weighted 0.3 times 0.7 for every later one; it lies between their extremes. Starts at time 0 do not count. |
| QueueHistory.EstimateInEveryState | app/services/execution_queue.py:335-339 | In every reachable state a position is told as many of these averages as it takes rounds of the limit last set to reach it. |
| QueueSpec.AverageClosedForm | app/services/execution_queue.py:341-346 | Updating time after time gives the sum of all observations weighted by their age. |
| QueueSpec.EstimateByRounds | app/services/execution_queue.py:335-339 | The first `max` positions are told one average execution, the next `max` two, and so on. |
| ExecutionQueue.ExecutionQueue.RefreshPositions | app/services/execution_queue.py:271-280 | Afterwards the waiting tickets are numbered from 1 in order, each with the estimate of its position. |
| ExecutionQueue.ExecutionQueue.Enqueue | app/services/execution_queue.py:96-100 | The ticket joins the end of the queue; all positions and estimates are current. |
| ExecutionQueue.ExecutionQueue.DropTimedOut | app/services/execution_queue.py:115-120 | The timed-out ticket leaves the queue, the order of the others is kept and renumbered. |
| ExecutionQueue.ExecutionQueue.Start | app/services/execution_queue.py:129-135 | The ticket moves from the queue to the executing set with its start time; the rest is renumbered. |
| ExecutionQueue.ExecutionQueue.Finish | app/services/execution_queue.py:144-157 | The ticket leaves the executing set, the average is updated when it had a start time, and it counts as executed even after a timeout. |
| ExecutionQueue.ExecutionQueue.ReleasePermit | app/services/execution_queue.py:159 | One permit more, whoever releases it. |
| ExecutionQueue.ExecutionQueue.Resize | app/services/execution_queue.py:302-331 | The limit is at least one; growing releases the difference, shrinking takes the given number of permits; estimates are current. |
| ResourceIds.SplitsExactly | router/kerneldock_router.py:80-86 | Splitting yields a node and a rest exactly when the value is that known node, the separator and that non-empty rest. |
| ResourceIds.MintedSplitsBack | router/kerneldock_router.py:80-101 | A minted id names its own node or none, and leads back to the raw id exactly when that did not carry the prefix itself. |
| ResourceIds.StripUndoesReprefix | router/kerneldock_router.py:89-128 | On arbitrary JSON trees stripping undoes reprefixing for a known node if and only if no id already carried the prefix before something. |
| ResourceIds.PinnedAfterReprefix | router/kerneldock_router.py:104-128 | The pinned node reported is the minting node exactly when some id is more than the bare prefix. |
| ResourceIds.ReprefixIdempotent | router/kerneldock_router.py:89-101 | Reprefixing twice is reprefixing once. |
| ResourceIds.ReprefixMints | router/kerneldock_router.py:89-101 | Reprefixing mints every resource id in place and leaves everything else as it was. |
| ResourceIds.StripTakesRaw | router/kerneldock_router.py:104-128 | Stripping replaces every resource id by its raw part, leaves everything else, and reports the nodes in the order of the walk. |
| ResourceIds.NodeNamesExactly | router/kerneldock_router.py:49-49 | A node name is a non-empty word of small letters, digits, underscores and dashes, perhaps with a newline behind it. |
| ResourceIds.IdsExactly | router/kerneldock_router.py:89-101 | Only non-empty texts under the four id keys are resource ids. |
| RouterRuns.TablesAgree | router/kerneldock_router.py:283-349 | After every log of registrations, removals, expiries and probes both tables have the same names and URLs, each name once. |
| RouterRuns.StaticsUnchanged | router/kerneldock_router.py:300-332 | Static entries stay for ever with their URL. |
| RouterRuns.TableReplaysLog | router/kerneldock_router.py:283-349 | A dynamic name is in the table exactly when the log registered it and since its last heartbeat neither removed it nor found it silent too long, with the URL and time of that heartbeat. |
| RouterRuns.MintedIdsStick | router/kerneldock_router.py:902-906 | After every log an id minted for a name reaches the node of that name or is refused, and arrives raw exactly when it did not carry the prefix itself. |
| RouterRuns.RegistrationsConserved | router/kerneldock_router.py:334-349 | Every new registration is still in the table, has been removed, or is counted as expired. |
| RouterRuns.StaticHealthReplaysLog | router/kerneldock_router.py:378-407 | A static node is healthy exactly when some probe was answered and at most one has failed since. |
| RouterLoads.StaticLoadsReplayLog | router/kerneldock_router.py:378-394 | After every log each load figure of a static node is the one its probes last reported (absent numbers as 0, a probe that breaks off reporting the fields before the break, the queue depth last), or 0. |
| RouterLoads.DynamicLoadsReplayLog | router/kerneldock_router.py:266-281 | After every log each load figure of a dynamic node is the one its heartbeats last reported since it came into the table, or 0; the node is healthy and was last checked at its last heartbeat. |
| RouterLoads.EntersOnce | router/kerneldock_router.py:283-349 | A name in the table came in at exactly one event of the log and has been there ever since. |
| RouterLoads.StaticCheckReplaysLog | router/kerneldock_router.py:378-407 | A static node was last checked at its last probe, failed or not. |
| RouterLoads.AnsweredExactly | router/kerneldock_router.py:380-407 | A probe counts as answered if and only if it reports everything but perhaps the queue depth. |
| RouterLoads.RegistrationAnswers | router/kerneldock_router.py:283-320 | After every log a registration is refused for its name, its cleaned URL or a static namesake, in that order, and otherwise renews if and only if the log has the name in the table. |
| RouterLoads.RemovalAnswers | router/kerneldock_router.py:322-332 | After every log a removal is refused for a static name and succeeds if and only if the log has the dynamic name in the table. |
| RouterSpec.CleansExactly | router/kerneldock_router.py:298-300 | The cleaned URL is the one string left without the spaces around the URL and then without the slashes at its end. |
| Router.Router.RegisterNode | router/kerneldock_router.py:283-320 | Rejects bad names, bad URLs and static names, adds a new node or renews a known one, and reports which. |
| Router.Router.RemoveNode | router/kerneldock_router.py:322-332 | Removes a dynamic node from both tables, and refuses unknown and static ones. |
| Router.Router.ExpireDynamicNodes | router/kerneldock_router.py:334-349 | Removes exactly the dynamic nodes silent for longer than the TTL from both tables and returns their names in order. |
| Router.Router.RouteByPrefix | router/kerneldock_router.py:902-906 | The record the id's prefix names and the id to forward. |
| Router.Router.PickNode | router/kerneldock_router.py:409-436 | Returns none exactly when no node is healthy, and otherwise a healthy node of least queue depth (least sandboxes for a session), of those one with the smallest turn. |
| Router.NodeState.Probed | router/kerneldock_router.py:378-407 | What an answered, partly readable or failed probe leaves in the record. |
| Router.NodeState.Beat | router/kerneldock_router.py:266-281 | A heartbeat proves the node alive and takes over the load up to the first malformed field. |
| Scheduler.PickIsMinimal | router/kerneldock_router.py:412-436 | The pick has minimal load and, among those, the smallest turn. |
| Scheduler.EveryMinimalNodePickedExactly | router/kerneldock_router.py:412-423 | With candidates and loads fixed, any k consecutive picks reach every node of minimal load if and only if their hashes are pairwise distinct modulo k. |
| Scheduler.TiedRoundPicksEachOnce | router/kerneldock_router.py:412-423 | When all are tied and the hashes are distinct modulo k, a round of k picks takes each exactly once. |
| Scheduler.CollisionStarves | router/kerneldock_router.py:412-423 | The later of two minimal candidates with the same hash modulo k is never picked. |
| SessionRuns.RowsFollowMemory | app/services/session_store.py:216-246 | After every run with lost writes and crashes, a session whose last write was neither lost nor is on its way has exactly the row memory says, up to the sandbox a restart cleared. |
| SessionRuns.TableMirrorsMemory | app/services/session_store.py:288-541 | If no write is lost, then between operations the rows have the keys of memory and equal it, except for the sandbox of sessions not rewritten since the last start. |
| SessionRuns.RestartExactly | app/services/session_store.py:184-214 | If no write is lost, a restart between operations brings back exactly the unexpired sessions, without their sandboxes. |
| SessionRuns.CrashLosesAtMostOneOperation | app/services/session_store.py:288-374 | A crash before the commit brings back the sessions from before the operation, a crash after it those from after it. |
| SessionRuns.RestartBringsBack | app/services/session_store.py:184-214 | Whatever else was lost, a settled session comes back exactly when it has not expired, and without its sandbox. |
| SessionRuns.CleanupIsCrashSafe | app/services/session_store.py:584-613 | A crash after any of a cleanup's deletions, lost or not, restores the same sessions as if the cleanup had never begun; a finished cleanup removed exactly the expired ones. |
| SessionRuns.OneCallTwoSteps | app/services/session_store.py:363-374 | An undisturbed operation is its memory step followed by its write. |
| SessionLife.StartsExactly | app/services/session_store.py:184-214 | Whatever the rows, a start brings back exactly the readable sessions within the idle limit since their last activity and the session limit since their creation, without sandboxes, and leaves exactly their rows. |
| SessionLife.NothingOutlivesTheLimit | app/services/session_store.py:45-76 | Whatever is done to a session over a run, lost writes and crashes included, once the session limit since its creation has passed it is expired, is not brought back by a restart, and is among those a cleanup removes. |
| SessionLife.RecordReplaysOperations | app/services/session_store.py:349-519 | As long as it is the same record, a session in memory is what the operations on it, in turn, made of it; operations on others, cleanups and writes leave it alone. |
| SessionLife.FieldsReplayed | app/services/session_store.py:349-519 | After any operations the creation time is unchanged, the activity is that of the last operation other than taking a file away, the sandbox the last one bound, and every metadata key what it was last set to. |
| SessionLife.FilesReplayed | app/services/session_store.py:411-484 | After any operations the list of files has no repetition and lists exactly the files last added and not taken away since. |
| SessionLife.FileOrderReplayed | app/services/session_store.py:411-484 | Files keep the order in which they were added. |
| SessionLife.CreatedFresh | app/services/session_store.py:288-315 | A new session gets the id asked for unless it is taken, with nothing in it but its metadata, and no other session changes. |
| SessionLife.AnswersExactly | app/services/session_store.py:349-541 | Taking away a file or a session answers true if and only if it changes something, every other operation if and only if the session exists. |
| SessionStore.SessionStore.LoadPersistedSessions | app/services/session_store.py:184-214 | Restores every readable, unexpired row without its sandbox and leaves exactly those rows, untouched. |
| SessionStore.SessionStore.CreateSession | app/services/session_store.py:269-315 | Files a fresh session under the id asked for, or under the generated one if that is taken, and writes it through. |
| SessionStore.SessionStore.GetSession | app/services/session_store.py:317-347 | Returns the record unless it is missing or expired, and removes nothing. |
| SessionStore.SessionStore.UpdateActivity | app/services/session_store.py:349-374 | Moves the activity time and writes through; false and no change for a missing session. |
| SessionStore.SessionStore.UpdateSandboxId | app/services/session_store.py:376-409 | Binds the sandbox, moves the activity time and writes through. |
| SessionStore.SessionStore.AddDataFile | app/services/session_store.py:411-448 | Appends the name unless listed, in either case moves the activity time and writes through. |
| SessionStore.SessionStore.RemoveDataFile | app/services/session_store.py:450-484 | Removes the first occurrence and writes through without moving the activity time; false and no change if it is not listed. |
| SessionSpec.DropFirstTakesOne | app/services/session_store.py:476-477 | Removing a file name takes out one occurrence and no other name. |
| SessionStore.SessionStore.UpdateMetadata | app/services/session_store.py:486-519 | Merges the new entries over the old and writes through. |
| SessionStore.SessionStore.DeleteSession | app/services/session_store.py:521-541 | Removes session and row; false and no change for a missing session. |
| SessionStore.SessionStore.CleanupExpired | app/services/session_store.py:584-613 | Removes exactly the expired sessions from memory, their rows as far as the deletes succeed, and returns their number. |
| SessionStore.SessionInfo.IsExpired | app/services/session_store.py:45-76 | True exactly when idle for longer than the idle limit or older than the session limit. |
| TokenSpec.WindowBound | app/middleware.py:74-86 | From any reachable state, a client whose bucket is not thrown away is let in at most capacity plus rate times length often in any window. |
| TokenSpec.AdmittedAtMost | app/middleware.py:74-94 | In general: at most what is available at the beginning, plus what is earned, plus a full bucket for each time the bucket is thrown away. |
| TokenSpec.TokensInRange | app/middleware.py:80-86 | In every reachable state all tokens lie between zero and the capacity. |
| TokenSpec.AllowedExactly | app/middleware.py:74-86 | A request is let in exactly when a whole token is available, a missing bucket counting as full. |
| TokenSpec.DecisionsAreItsOwn | app/middleware.py:74-94 | The answers a client gets are those it would get if only its own requests and prunings had happened. |
| TokenSpec.PruningNeverHurts | app/middleware.py:88-94 | At every moment a client has been let in at least as often as without any pruning. |
| TokenSpec.PerMinuteBound | app/middleware.py:68-86 | In the settings' own terms: a client whose bucket is not thrown away gets at most its burst, plus the requests per minute for every 60 seconds, in any window. |
| TokenSpec.RateIsSustained | app/middleware.py:68-94 | From every reachable state and whatever others do, a client that asks no more often than once in 60 / per-minute seconds is always let in. |
| TokenSpec.BurstExactly | app/middleware.py:68-86 | Of requests made at once by a client without a bucket exactly as many as the burst are let in, the requests per minute when no burst is set. |
| TokenBucket.TokenBucketLimiter.Allow | app/middleware.py:74-86 | Updates the client's bucket in place as specified and answers whether a token was available. |
| TokenBucket.TokenBucketLimiter.Prune | app/middleware.py:88-94 | Leaves a small table alone and removes the idle half of a large one. |
| TokenBucket.PruneTakesTheOldestHalf | app/middleware.py:88-94 | Exactly half of the keys go, and nobody kept has been idle for longer than anybody removed. |
| JobRuns.TerminalFinalExactly | app/services/job_manager.py:118-168 | Over every run a terminal status is final if and only if the job's runner never swallows a cancellation; the finishing time is final in any case. |
| JobRuns.StatusMoves | app/services/job_manager.py:118-168 | Every step moves every status forward, except that a swallowed cancellation turns cancelled into succeeded or failed. |
| JobRuns.TerminalChangesExactly | app/services/job_manager.py:125-136 | In a step a terminal status changes if and only if the job's runner then ends after having been told to stop. |
| JobRuns.SwallowedCancelRevives | app/services/job_manager.py:125-131 | There is a run in which a cancelled job becomes succeeded. |
| JobRuns.RunningBounded | app/services/job_manager.py:118-125 | In every reachable state at most as many records are running as tasks hold permits, and those with the free permits make up the limit. |
| JobRuns.FinishedExactly | app/services/job_manager.py:142-144 | In every reachable state a record has its finishing time exactly when its status is terminal, and an unfinished one is in the table. |
| JobRuns.CancelledBeforeRunningNeverStarts | app/services/job_manager.py:118-124 | A job told to stop before it held a permit never starts, whatever follows. |
| JobRuns.SubmitKeepsSize | app/services/job_manager.py:94-116 | After a submission the table holds at most one more than the maximum of the limit and the jobs alive before. |
| JobHistory.RecordReplaysHistory | app/services/job_manager.py:94-168 | In every reachable state every record is determined by its submission, the first time its task entered the runner, the first cancellation asked for and the runner's return: timeout, times, status and error text. |
| JobHistory.OutcomeExactly | app/services/job_manager.py:125-141 | A record says succeeded if and only if its runner came back with an answer that says so, and failed if and only if it came back otherwise; the error is the text that brought, "execution failed" for an empty one. |
| JobSpec.PruneRetention | app/services/job_manager.py:170-190 | Pruning keeps every unfinished job, leaves none finished longer ago than the retention, drops one finished more recently only if the table stays full, and leaves a table within its size or without finished jobs. |
| JobSpec.PruneEvictsOldest | app/services/job_manager.py:183-190 | What is evicted before its time is never newer than a finished record kept, of equal age it stands before it in the table, and then exactly the limit remains. |
| JobManager.JobManager.Submit | app/services/job_manager.py:94-116 | Prunes, then adds a queued record with its timeout clamped to 1 and the maximum. |
| JobManager.JobManager.Begin | app/services/job_manager.py:118-125 | Takes a permit and marks the record running, or returns the permit if the job was cancelled. |
| JobManager.JobManager.End | app/services/job_manager.py:125-144 | Records how the runner ended, returns the permit and stamps the time once. |
| JobManager.JobManager.Interrupt | app/services/job_manager.py:134-144 | Records the cancellation, returns a permit if one was held and stamps the time once. |
| JobManager.JobManager.Cancel | app/services/job_manager.py:155-168 | Leaves finished records alone, marks others cancelled and tells a live task to stop. |
| JobManager.JobManager.Prune | app/services/job_manager.py:170-190 | Leaves exactly the records the retention rules keep, in order. |
| Framing.FrameRoundTrip | sandbox_runtime/kernel_relay.py:57-62 | Whatever follows it, a framed message is read back exactly by the clients and by the parent. |
| Framing.ServedExactly | sandbox_runtime/kernel_server.py:817-830 | The kernel serves a framed request if and only if it is neither empty nor over 100 MB, and complains exactly about the latter. |
| Framing.CutShort | sandbox_runtime/kernel_server.py:507-515 | A message cut off anywhere is served or returned by no socket reader, the kernel complains only about one announced as too large, and the parent gets exactly the part that arrived. |
| Framing.HeaderRoundTrip | sandbox_runtime/kernel_server.py:899-902 | Four big-endian bytes give back every length below 2^32. |
| Framing.RecvExact | sandbox_runtime/kernel_server.py:888-896 | Reads exactly the next n bytes however the transport cuts them, or nothing when the connection ends before. |
| Framing.ReceiveRequest | sandbox_runtime/kernel_server.py:817-830 | What the kernel makes of a connection is a function of the bytes alone. |
| Framing.Exchange | app/executor.py:169-190 | Sends the framed request and returns the framed response, or nothing. |
| Framing.SendFrame | sandbox_runtime/kernel_server.py:899-902 | Sends header and payload, or nothing when the length does not fit. |
| Framing.WriteResult | sandbox_runtime/kernel_server.py:437-441 | Whatever part of each slice the pipe takes, exactly the frame ends up in it. |
| Framing.ReadPipe | sandbox_runtime/kernel_server.py:459-515 | However the pipe cuts it, the parent gets the body of everything written. |
| EventStream.ChunksDoNotMatter | app/executor.py:486-515 | However the lines of the events are cut into chunks, the reader yields exactly the events sent, in order. |
| EventStream.BrokenOff | app/executor.py:511-515 | A stream that ends inside a line yields everything before it and at most one more item. |
| EventStream.ReadStream | app/executor.py:486-515 | The items depend only on the text of all chunks together. |
| EventStream.LinesAndRest | sandbox_runtime/kernel_server.py:672-680 | Cutting a text into lines loses nothing, and every line ends in its only newline. |
| EventStream.NothingLost | sandbox_runtime/kernel_server.py:672-686 | For every sequence of writes and flushes the emitted texts and the buffer make up all that was written. |
| EventStream.EmitsPieces | sandbox_runtime/kernel_server.py:672-686 | Whatever is written and flushed, no emitted text is empty or goes beyond the end of a line. |
| EventStream.BoundariesDoNotMatter | sandbox_runtime/kernel_server.py:672-680 | Without a flush in between, lines and buffer depend only on the text, not on how it was cut into writes. |
| EventStream.StreamingEventWriter.Write | sandbox_runtime/kernel_server.py:672-680 | Emits exactly the complete lines and keeps the rest. |
| EventStream.StreamingEventWriter.Flush | sandbox_runtime/kernel_server.py:682-686 | Emits a non-empty rest. |
| EventStream.EndToEnd | sandbox_runtime/kernel_server.py:905-908 | From the program's writes over any chunking to the gateway: the reader yields the text events, objects with a type and a text, one by one, and their texts make up all that was written. |
| JsonText.QuoteRoundTrip | sandbox_runtime/kernel_server.py:905-908 | The JSON form of any string is one line and reads back exactly whatever follows it. |
| JsonText.ObjectRoundTrip | sandbox_runtime/kernel_server.py:905-908 | The JSON form of any object of strings is one line and reads back exactly. |
| Histogram.ExecutionHistogram.Export | app/services/health_monitor.py:669-683 | Each cumulative count is the number of recorded durations not above its bound; the counts never decrease or exceed the total, which is successes plus failures. |
| Histogram.ExecutionHistogram.RecordExecution | app/services/health_monitor.py:292-301 | One more execution is on record, with counts, sum and status in step. |
| Histogram.BucketsAddUp | app/services/health_monitor.py:671-674 | The buckets up to a bound hold exactly the executions not above it. |
| Histogram.CountsArePositions | app/services/health_monitor.py:292-301 | The counts are numbers of recorded executions: those that succeeded, and those whose duration is not above the bound. |
| Histogram.TotalTimeAdds | app/services/health_monitor.py:292-296 | The total time adds up over executions, a negative duration counting as none. |
| SymbolText.NormalizeSymbolText | sandbox_runtime/charts.py:46-87 | The one-pass loop gives what grouping maximal runs of symbols gives. |
| SymbolText.NormalizeIdempotent | sandbox_runtime/charts.py:46-87 | The output holds no mapped symbol and no minus sign, so normalising again changes nothing. |
| SymbolText.ReadsBackExactly | sandbox_runtime/charts.py:46-87 | Reading the groups back gives the text with its minus signs as hyphens, if and only if nowhere in it an opening, digits and signs, a closing brace and a dollar sign or symbol follow each other. |
| SymbolText.NormalizeReadsBack | sandbox_runtime/charts.py:46-87 | In particular it does for every text without dollar signs. |
| SymbolText.DollarsAreAmbiguous | sandbox_runtime/charts.py:57-69 | Two different texts may come out the same; one of them looks like a group and is misread. |
| SymbolText.EscapeNothing | sandbox_runtime/charts.py:42-43 | The content of a group never needs escaping. |

## Left out

- EventStream.EndToEnd: does not model turning chart and table marker lines into events of their own, which the writer does by pattern matching; every emitted line is a text event.
- DataFiles.ParquetExactly: is not stated for names with a shell operator; what the shell then does is open in the model (any change under /data by the request itself), and so it is in SkipsAsIntendedExactly.
- DataFiles.TablesExactly: is not stated for references with a shell operator or with a word that starts with a dash, which the decoder may take for an option; nor for the case that the decoder is given the name of a file that the working directory happens to hold; the same goes for TablesInPlaceExactly.
- LeaseGuarantees.SkipsAsIntendedExactly: covers the files DataFiles.ParquetExactly covers.
- LeaseGuarantees.TablesInPlaceExactly: covers the references and copies DataFiles.TablesExactly covers.
- LeaseGuarantees.PooledContainersAreClean: takes forked runs and shell commands not to connect to the kernel themselves; one that did could enter a context without being counted.
- Pooled containers are values in the model, replaced where the source sets `is_healthy` and `last_health_check` in place; nobody else holds a reference to them while they are pooled.
- The stateless request itself is a sequence of protocol steps on values, not an object: the source keeps it in local variables of a coroutine.
- `ContainerPool.acquire` has no caller in the application; the model lets anybody take a container with it and keep it for good.
- The pool's own counters (`total_acquired` and the like), pool shutdown, initial filling and the removal of containers left by an earlier process.
- Cancellation of a coroutine inside the pool, the queue or the session store (whose write may then still be on its way when the lock is free again), and `JobManager.shutdown`.
- Sections that read the clock twice read it once here; ages are taken against one `now` per section.
- Docker's contract: a new container has an id never used before and starts empty; commands that delete files and return have deleted them; a reset command that ends well has reset; probes depend on the container alone within one sweep; an archive that is accepted brings all its files.
- File names an archive accepts and a directory does not (length, encoding), and entries whose name is taken by something that is no regular file.
- A run reported as not isolated counts as having entered the kernel's namespace, also when it was executed outside of the kernel and left nothing there.
- Temporary containers: a request on one is a phase of its own and touches no pooled container.
- The code validation and protocol checks before a lease is taken, and directories other than /data.
- The semaphore's contract: it is fair, so that permits go to the waiters in the order in which they came.
- Callbacks on queue positions, and removing entries of the queue by anything but the modelled sections.
- Parsing of the static node list, admin routes, proxying, drain and list aggregation of the router; a JSON object's keys are taken in order and not merged.
- Failing to open the session database (the store then works in memory only) and a failing deletion during the load.
- Rows whose JSON names another session than their key: the store never writes one.
- Listing sessions and jobs with paging, and conversion to dictionaries.
- Ids from `uuid4` are fresh where the model says so; a session id that collides is covered.
- Authentication and the extraction of the client key.
- Timeouts while the parent reads the pipe (it then discards everything) and while a socket waits.
- Decoding of chunks that split a UTF-8 character; chunks here end at character boundaries.
- JSON numbers, nesting and other spellings in events: the stream theorems hold for every codec with one non-blank line per event that reads back, and objects of strings are shown to have one.
- Standard error in the stream.
- Running user code, forking, killing, matplotlib, logging and the text of the other metrics.
- Resource clamping, the context index, validators and security policy: they would add only easy members.
