# Verified model of the Moca storage provider's accounting core

A Dafny model of the stateful core of the Moca storage provider, with proofs of what it is for:

- **Resource manager** (`Resources`, `Scopes`, `Forest`, `ForestFacts`, `ForestExamples`, `Manager`). Every
  reservation is charged to a scope and to all scopes above it, and rolled back when one of them refuses. The
  scopes are linked objects (`Scopes.Scope`). `Forest` is the same forest as plain values with one `Step` per
  client call, and `Manager` proves that every call on the objects is exactly that step. The run theorems are
  proved on `Forest` against a ledger of what each scope was granted and has not given back.
- **Task queues** (`RoundRobin`, `TaskQueue`). A keyed, bounded queue whose retire strategy may change its
  answer at every call, with a create-time cursor. The selection is proved against a declarative pick, and
  fairness is proved over whole histories of selections.
- **Virtual group manager** (`WeightedPick`, `GroupPick`, `GroupCleanup`, `Providers`, `Refresh`). The weighted
  random pick, the delayed deletion of empty groups, the health checker and the freeze pool with their quorum
  rules, and the refresh that shifts a slice while ranging over it.
- **Pieces and lists** (`Text`, `PieceKeys`, `PieceSizes`, `ListCodecs`). Piece keys, the cutting of a payload
  into segments and erasure-coded pieces, and the text form of number and hash lists.

`FixedWidth`, `Options`, `Maps` and `Sorting` hold what these share.

## How the model reads the source

- A call holds the lock of each scope it enters until it returns, and locks are taken from the bottom up, so each
  public call is one atomic step. The two queues, the health checker, the freeze pool and the refresh are
  likewise one step per locked call.
- Clock readings, random draws, probe results, chain and metadata answers and transaction outcomes are
  parameters. A map is ranged over in an arbitrary order (`Maps.AnyOrder`).
- 64-bit and 32-bit arithmetic is written out where it can wrap. Ratios and weights are reals.
- `ReserveMemory`, `AddTask`, `AddConn` and `ReserveResources` are the method `Scope.Reserve` on four kinds of
  `Request`; their releases are `Scope.Release`. Amounts are any int64, negative ones included, as in the code,
  and the scopes may be in any state. `Request.Countable` marks the amounts a caller normally means: counts in
  0..2^62 with any memory. For those the checks are shown to mean what they say in unbounded arithmetic.
- Limits are those of `GfSpLimit`: an int64 for memory and int32 for the rest. ReservationPriorityAlways is 255
  (`core/rcmgr/rcmgr.go`).
- `GfSpTQueue` and `GfSpTQueueWithLimit` differ only in the limit given to a selection, so one class takes an
  optional limit.

## What the proofs found

`Forest.BooksKeptExactly` proves that a call keeps the accounting right if and only if it is
`Forest.Disciplined`, a condition on the state before the call. Calls outside it:

- An `AddTask` of unknown priority counts as low, but taking it back does nothing (resource.go:127-135,
  176-184). When a scope above refuses, the scopes below keep counting it.
- With a memory limit of MaxInt64 nothing is checked, and a later grant can leave the counter negative.
- A count so large that the sum wraps can pass every check (resource.go:138-169) and leaves the counter negative.
- A negative release raises the counters of every scope it reaches without any check (scope.go:161-169).
- A bulk request with negative counts that is refused can leave more counted than before: taking the high tasks
  back resets a negative medium or low counter, so the stages undone after it start from the wrong value
  (scope.go:384-390, 506-510, resource.go:191-202).
- Releasing more than was reserved through a scope, or all of a scope whose open children hold something, takes
  from the children's share.

Elsewhere:

- `mulInt64WithOverflow` is wrong for a = MaxInt64 or MinInt64 with b = -1 only; checkMemory never passes those.
- A service without a limit of its own is opened without raising the system's reference count, but closing it
  lowers the count (rcmgr.go:40, scope.go:90).
- The comment at virtual_group_manager.go:583 says a group leaves the deletion schedule when it is no longer
  empty. The code only drops entries that ran out, so being used in between does not matter.
  `GroupCleanup.RunDeletesExactly` gives the exact condition for a deletion in any run.
- Shifting the provider list in place while ranging over it gives the list without oneself exactly when one
  entry matches. Without a match the result is empty, and with several it is some other list.
- When providers leave the list, the health checker can be left with too few healthy members, and checks do not
  change that as long as a marked member stays down and too few members are up. `Providers.QuorumAfterChange`
  and `Providers.QuorumAfterCheck` give the exact conditions.
- A group id listed twice in a family is counted twice in the family's totals.
- Segment sizes are right exactly when the count fits 32 bits and the first segment fits an int64.
- `StringToInt32` compares only the upper bound, so numbers below MinInt32 come back as other numbers.

## Model

| member | source | states |
|---|---|---|
| `FixedWidth.AddOverflowExact` | base/gfsprcmgr/resource.go:55-58 | the comparison test detects overflow exactly, for all int64 pairs, and otherwise the sum is the true sum |
| `FixedWidth.MulOverflowExact` | base/gfsprcmgr/resource.go:60-71 | the product test is right if and only if not (b = -1 and a is MaxInt64 or MinInt64); a product that fits is returned as it is |
| `Resources.CheckMemoryExact` | base/gfsprcmgr/resource.go:73-108 | the wrapping computation with its big-integer fallback accepts exactly when memory + rsvp <= (1+prio)*limit/256 in unbounded arithmetic, or the limit is MaxInt64, for every int64 limit, reservation and priority; a negative reservation is refused |
| `Resources.CheckMeansFits` | base/gfsprcmgr/resource.go:73-259 | for counts, a scope within its limits accepts a request if and only if the result is within every limit, all checked at once in unbounded arithmetic |
| `Resources.StagesMeanFit` | base/gfsprcmgr/scope.go:475-492 | for counts, adding high, medium and low tasks one after the other is accepted if and only if all of them fit at once |
| `Resources.GrantCharges` | base/gfsprcmgr/scope.go:456-492 | for all counters and amounts, a scope that grants ends with the amount added to every counter, whichever stages it went through |
| `Resources.CountedAs` | base/gfsprcmgr/resource.go:127-135 | a granted task request raises exactly the counter of its priority, low when that is unknown; a connection exactly the counter of its direction and the descriptors |
| `Resources.ChargeKeepsSound` | base/gfsprcmgr/resource.go:110-174 | a granted count leaves every counter within its limit; only an unlimited memory counter can pass it |
| `Resources.ChargeIsPlus` | base/gfsprcmgr/resource.go:110-174 | for all amounts and counters that are not negative, a charge ends within the limits if and only if the unbounded sum does, since a sum that wraps turns negative |
| `Resources.UndoneExactly` | base/gfsprcmgr/scope.go:503-511 | from counters that are not negative, taking a granted request back restores them, however far a sum wrapped, if and only if it has no tasks of unknown priority and, in bulk, leaves neither the medium nor the low counter negative, apart from the one accident of adding MinInt64 to zero, which is restored too |
| `Resources.RefusalRestores` | base/gfsprcmgr/scope.go:366-391 | from counters that are not negative, a scope that refuses ends with the counters it had if and only if it is not a bulk request whose last stage refuses after the one before it made the medium counter negative (again apart from adding MinInt64 to zero) |
| `Resources.CountsAreUndone` | base/gfsprcmgr/scope.go:468-511 | for counts and counters within the limits both always hold, except for tasks of unknown priority |
| `Resources.ReleaseDischarges` | base/gfsprcmgr/scope.go:402-410 | from counters that are not negative, releasing in stages takes each amount from its counter and no other |
| `Resources.DischargeIsMinus` | base/gfsprcmgr/resource.go:186-203 | a release whose unbounded difference is within the limits neither resets nor wraps a counter |
| `Scopes.Scope.ReserveBulkHere` | base/gfsprcmgr/scope.go:366-391 | the staged reservation adds everything or refuses; from counters that are not negative a refusal leaves no trace if and only if it is recoverable, and for counts from counters within the limits it answers like one simultaneous check and always recovers |
| `Scopes.Scope.Reserve` | base/gfsprcmgr/scope.go:456-514 | for every request in every state, the answer is the first refusal on the way up; every scope at every depth settles by its part: granting scopes are charged, or charged and undone after a refusal above, the refusing one ends as its own attempt left it, all others are unchanged |
| `Scopes.Scope.ReserveOverEdges` | base/gfsprcmgr/scope.go:123-145 | the edges are asked in order, and at the first refusal the charged prefix is undone |
| `Scopes.Scope.ChargeEdges` | base/gfsprcmgr/scope.go:129-137 | the loop charges exactly the edges before the first refusal |
| `Scopes.Scope.UndoEdges` | base/gfsprcmgr/scope.go:138-143 | the undo loop takes the request back from exactly the prefix it is given |
| `Scopes.Scope.ReserveForChild` | base/gfsprcmgr/scope.go:360-392 | a closed scope refuses and stays as it is; an open one is charged, or refuses and then, from counters that are not negative, stays as it is if and only if the refusal is recoverable |
| `Scopes.Scope.ReleaseForChild` | base/gfsprcmgr/scope.go:443-454 | a closed scope ignores the release |
| `Scopes.Scope.Release` | base/gfsprcmgr/scope.go:395-418 | exactly the scopes up to the first closed one give the amount back |
| `Scopes.Scope.ReleaseAll` | base/gfsprcmgr/scope.go:421-440 | gives back what the scope counts, along the same way |
| `Scopes.Scope.NewService` | base/gfsprcmgr/scope.go:39-50 | a fresh scope with nothing reserved, one more reference at each edge |
| `Scopes.Scope.BeginSpan` | base/gfsprcmgr/scope.go:52-70 | fails exactly on a closed scope; otherwise a fresh span with the owner's limit and one more reference |
| `Scopes.Scope.Done` | base/gfsprcmgr/scope.go:73-103 | gives everything back upward, drops one reference at each parent, zeroes all but the task counters; a second call changes nothing |
| `Forest.StepKeepsBooks` | base/gfsprcmgr/scope.go:62-121 | conservation, limit safety and reference counts survive every disciplined call |
| `Forest.BooksKeptExactly` | base/gfsprcmgr/scope.go:106-514 | every call with any amounts keeps conservation, limits and reference counts if and only if it is disciplined, a condition the caller can check beforehand |
| `Forest.DisciplineOfCounts` | base/gfsprcmgr/scope.go:192-207 | for counts a reservation is disciplined if and only if a grant keeps the system memory in 64 bits, and tasks of unknown priority are not refused above the scope they are asked of |
| `Forest.GrantedExactly` | base/gfsprcmgr/scope.go:456-514 | a request is granted if and only if every scope up to the system is open and admits it; a count is admitted if and only if it fits every limit |
| `Forest.AllOrNothing` | base/gfsprcmgr/scope.go:106-145 | a refused reservation leaves every scope of the forest as it was if and only if every scope that took part can be restored |
| `Forest.AllOrNothingOfCounts` | base/gfsprcmgr/scope.go:456-514 | a refused count leaves every scope as it was, except for tasks of unknown priority that the scope they were asked of admitted |
| `Forest.RunsKeepBooks` | base/gfsprcmgr/scope.go:16-121 | conservation, limit safety and reference counts hold after every disciplined run, whatever the order in which owners and spans are closed |
| `Forest.RunsKeptExactly` | base/gfsprcmgr/scope.go:16-121 | the books are consistent in every state a run passes through if and only if every call of the run is disciplined when it is made |
| `Forest.StartIsConsistent` | base/gfsprcmgr/rcmgr.go:22-31 | a new resource manager starts with consistent books |
| `Forest.GrantKeepsBooks` | base/gfsprcmgr/scope.go:106-145 | a granted reservation that is affordable keeps every scope equal to its own holding plus its open children |
| `Forest.GrantBreaksBooks` | base/gfsprcmgr/resource.go:73-174 | a grant that is not affordable leaves a scope on the way up outside its limits, or the scope it was made on counting less than its open children |
| `Forest.RefusalBreaksBooks` | base/gfsprcmgr/scope.go:503-511 | a refusal after which some scope cannot be given back its counters leaves the lowest scope that changed out of balance |
| `Forest.ReleaseKeepsBooks` | base/gfsprcmgr/scope.go:402-418 | a release of at most the own holding that stays within the limits of every scope it reaches keeps the books |
| `Forest.KeptMeansReturnable` | base/gfsprcmgr/scope.go:402-418 | and only such a release does: if the books are right afterwards, the amount was returnable |
| `Forest.OverReleaseShows` | base/gfsprcmgr/scope.go:402-418 | releasing more than the own holding resets a counter or leaves the scope counting less than its open children |
| `Forest.ReleaseAllBreaksBooks` | base/gfsprcmgr/scope.go:421-440 | Release on a scope whose open children hold anything breaks the books |
| `Forest.CloseKeepsBooks` | base/gfsprcmgr/scope.go:87-102 | so does closing a scope at any depth, before or after its spans |
| `Forest.ExtensionKeepsBooks` | base/gfsprcmgr/scope.go:39-59 | so does opening a span or a service, counted or not |
| `Forest.ReachAffords` | base/gfsprcmgr/scope.go:402-418 | the own holding is covered by every scope a release reaches, so giving it back stays within the limits |
| `ForestFacts.ReleaseUndoesReserve` | base/gfsprcmgr/scope.go:161-189 | releasing a granted request where it was made restores the whole forest if and only if every scope on the way can take it back; for counts that do not leak it always does |
| `ForestFacts.NoCounterIsReset` | base/gfsprcmgr/resource.go:118-125 | in consistent books no disciplined release and no closing takes more from a scope than it counts, so the reset that the code reports as a bug does not occur |
| `ForestFacts.ClosedOwnerStopsRelease` | base/gfsprcmgr/scope.go:402-405 | a span that outlives its owner gives nothing back a second time |
| `ForestFacts.SystemCountsLiveHoldings` | base/gfsprcmgr/scope.go:16-24 | the system counters equal the holdings of exactly the scopes whose whole way up is open |
| `ForestFacts.ReferencesExact` | base/gfsprcmgr/scope.go:532-542 | a reference count is the number of open children that raised one if and only if no child that raised none was closed; it is then not negative, and zero once all children are closed |
| `ForestExamples.RefusedUnknownPriorityStaysCounted` | base/gfsprcmgr/scope.go:192-207 | in a run from a new manager, a refused request of five tasks of unknown priority stays counted in the service |
| `ForestExamples.UnlimitedMemoryWraps` | base/gfsprcmgr/resource.go:78-81 | two grants on a new unlimited system leave its memory at -2 |
| `ForestExamples.HugeCountIsGranted` | base/gfsprcmgr/resource.go:137-174 | after one task, a request for MaxInt64 tasks is granted and leaves the counter at MinInt64 |
| `ForestExamples.NegativeReleasePassesTheLimit` | base/gfsprcmgr/scope.go:161-169 | releasing -5 bytes at a limit of 10 leaves 15 counted |
| `ForestExamples.RefusedBulkMiscounts` | base/gfsprcmgr/scope.go:384-390 | a refused bulk request with a negative count leaves three tasks counted where there was one, above the limit of one |
| `ForestExamples.ReleaseAtTheOwnerLosesTheSpan` | base/gfsprcmgr/scope.go:395-418 | in a run from a new manager, releasing at the owner what its span holds leaves the owner counting less than the span |
| `ForestExamples.ClosingAnUncountedServiceOverdraws` | base/gfsprcmgr/rcmgr.go:37-43 | closing a service without a limit of its own leaves the system's count at -1 |
| `Manager.ResourceManager.constructor` | base/gfsprcmgr/rcmgr.go:22-31 | the objects start as the one-scope forest with consistent books |
| `Manager.ResourceManager.OpenService` | base/gfsprcmgr/rcmgr.go:34-46 | a service with a configured limit gets a scope with that limit on an edge to the system, counted there; one without gets an uncounted span with the limit of the system; either is the step of the forest and keeps the books |
| `Manager.ResourceManager.Perform` | base/gfsprcmgr/scope.go:62-121 | any call on any scope object in any state, disciplined or not, is the step of the forest with its answer |
| `Manager.ResourceManager.Call` | base/gfsprcmgr/scope.go:62-121 | a disciplined call on the objects keeps conservation, limits and references of the objects |
| `Manager.ResourceManager.ReserveStep` | base/gfsprcmgr/scope.go:106-145 | a reservation through the linked objects refines the reservation of the forest |
| `Manager.ResourceManager.ReleaseStep` | base/gfsprcmgr/scope.go:161-189 | a release through the linked objects refines the forest's release |
| `Manager.ResourceManager.ReleaseAllStep` | base/gfsprcmgr/scope.go:421-440 | so does Release |
| `Manager.ResourceManager.DoneStep` | base/gfsprcmgr/scope.go:73-103 | so does Done, on open and on closed scopes |
| `Manager.ResourceManager.BeginSpanStep` | base/gfsprcmgr/scope.go:62-70 | so does BeginSpan |
| `Manager.ResourceManager.WalkAgrees` | base/gfsprcmgr/scope.go:494-502 | the answer and the part of every scope, found through owner and edge links, are those of the forest |
| `Manager.ResourceManager.ReachAgrees` | base/gfsprcmgr/scope.go:411-417 | so are the scopes a release reaches |
| `RoundRobin.SelectionExtendsHistory` | base/gfsptqueue/queue.go:232-245 | a selection yields a task exactly when one is eligible, and keeps the cursor equal to the last served create time |
| `RoundRobin.CursorNeverSkips` | base/gfsptqueue/queue_limit.go:184-224 | between two wrap-arounds every create time that stays eligible is served, whatever is pushed, popped or retired meanwhile |
| `RoundRobin.DistinctTasksAreServed` | base/gfsptqueue/queue_limit.go:184-224 | with distinct create times the waiting task itself is served |
| `RoundRobin.RoundsAscend` | base/gfsptqueue/queue.go:238-244 | within a round served create times strictly increase |
| `RoundRobin.WrapsWithin` | base/gfsptqueue/queue.go:238-244 | the cursor wraps within as many selections as there are create times |
| `RoundRobin.WaitIsBounded` | base/gfsptqueue/queue.go:207-246 | a create time that stays eligible is served within twice as many selections as there are create times |
| `TaskQueue.SortKeys` | util/maps/maps.go:10-17 | each key once, in ascending order: a prefix first, otherwise by the first position where two keys differ |
| `Sorting.StringLeqMeans` | util/maps/maps.go:20-24 | the comparison of keys is that order |
| `TaskQueue.Search` | base/gfsptqueue/queue.go:238 | binary search finds the boundary between create times up to the cursor and above it |
| `TaskQueue.Choose` | base/gfsptqueue/queue.go:235-245 | sorting and searching return an element with the least create time above the cursor, or the least overall |
| `TaskQueue.TQueue.constructor` | base/gfsptqueue/queue.go:42-49 | an empty queue without strategies |
| `TaskQueue.TQueue.HasKey` | base/gfsptqueue/queue.go:196-205 | a lookup removes the task if the strategy retires it, and answers whether the key is still there |
| `TaskQueue.TQueue.Has` | base/gfsptqueue/queue.go:63-71 | the same, keeping the queue invariant |
| `TaskQueue.TQueue.Delete` | base/gfsptqueue/queue.go:183-194 | whatever the strategy answers inside, exactly this key is gone |
| `TaskQueue.TQueue.Add` | base/gfsptqueue/queue.go:172-181 | stores the task unless a task that is not retired holds its key |
| `TaskQueue.TQueue.Push` | base/gfsptqueue/queue.go:134-166 | refuses a taken key; below the capacity it stores the task; a full queue gives up exactly the first task in key order that retires, or refuses and keeps the map; size never exceeds the capacity |
| `TaskQueue.TQueue.RetireOne` | base/gfsptqueue/queue.go:149-158 | asks in ascending key order and removes only the first task that retires |
| `TaskQueue.TQueue.Scan` | base/gfsptqueue/queue_limit.go:196-209 | one pass in any order asks every task once and splits them into eligible and retired |
| `TaskQueue.TQueue.ScanMeans` | base/gfsptqueue/queue_limit.go:196-209 | the two lists hold exactly the eligible tasks and exactly the retired keys |
| `TaskQueue.TQueue.Select` | base/gfsptqueue/queue_limit.go:184-224 | the task picked and the new cursor are those of the declarative round-robin selection |
| `TaskQueue.TQueue.Top` | base/gfsptqueue/queue_limit.go:184-224 | none exactly when no task is unretired, within the limit and passed by the filter, else a round-robin pick; the returned task was queued, exceeds the limit in no field and passes the filter; the map loses exactly the retired tasks |
| `TaskQueue.TQueue.KeptTaskIsServed` | base/gfsptqueue/queue_limit.go:184-224 | in any run of the queue, a task that stays queued and that no pass retires, filters out or finds too big has its create time served between two wrap-arounds, and is itself served when create times are distinct |
| `TaskQueue.TQueue.Pop` | base/gfsptqueue/queue_limit.go:76-89 | the same, and the map also loses exactly the returned task |
| `TaskQueue.TQueue.PopByKey` | base/gfsptqueue/queue_limit.go:92-108 | returns the stored task unless the lookup retires it; the key is gone either way |
| `TaskQueue.TQueue.PopTask` | base/gfsptqueue/queue.go:119-131 | pops exactly when the very task is stored under its key |
| `WeightedPick.WeightInRange` | base/gfspvgmgr/virtual_group_manager.go:69-81 | below the 95 per cent bound the unsigned subtraction does not underflow, the weight lies in (0.05, 1], and weight times staked bytes is the free bytes |
| `WeightedPick.RoomMeans` | base/gfspvgmgr/virtual_group_manager.go:70-80 | the bound in whole numbers: 20 times the used bytes are below 19 times the staked bytes |
| `WeightedPick.SumIsOrderFree` | base/gfspvgmgr/virtual_group_manager.go:89-91 | the sum of the weights does not depend on the order of the map |
| `WeightedPick.Total` | base/gfspvgmgr/virtual_group_manager.go:89-91 | the first loop, in any order, computes that sum |
| `WeightedPick.Walk` | base/gfspvgmgr/virtual_group_manager.go:93-99 | the second loop returns the key whose stretch the goal hits, and fails only past the end |
| `WeightedPick.PickIndex` | base/gfspvgmgr/virtual_group_manager.go:83-100 | for independent orders of the two loops a key is picked if and only if there is a candidate, and it is the one the draw hits |
| `WeightedPick.SharesAreProportional` | base/gfspvgmgr/virtual_group_manager.go:83-100 | the draws in [0, 1) are split into adjacent stretches, each of length weight/sum |
| `GroupPick.AnyClean` | core/vgmgr/virtual_group_manager.go:73-84 | counting down from the number of groups answers whether some group has no bad provider |
| `GroupPick.IsClean` | core/vgmgr/virtual_group_manager.go:76-81 | the loop finds whether no secondary provider is bad |
| `GroupPick.PickFamily` | base/gfspvgmgr/virtual_group_manager.go:102-127 | a family is picked if and only if one is available, has a group free of blacklisted and a group free of unhealthy providers, and is below 95 per cent; the picked one is such a family, and the draw decides in proportion to free bytes over staked bytes |
| `GroupPick.PickGroup` | base/gfspvgmgr/virtual_group_manager.go:129-157 | an unknown family is stale metadata; otherwise a group is chosen if and only if one is neither frozen nor excluded, has no unhealthy provider and is below 95 per cent; the chosen one is such a group, and the draw decides in proportion to free bytes over staked bytes |
| `GroupPick.FamilyWeight` | base/gfspvgmgr/virtual_group_manager.go:110-119 | a family passes the filters if and only if it is a candidate, and then weighs its free bytes over its staked bytes |
| `GroupPick.AddFamily` | base/gfspvgmgr/virtual_group_manager.go:109-120 | each visited family gets its weight exactly when it is a candidate |
| `GroupPick.AddGroup` | base/gfspvgmgr/virtual_group_manager.go:139-150 | each visited group gets its weight exactly when it is a candidate |
| `GroupCleanup.GroupMonitor.DropExpired` | base/gfspvgmgr/virtual_group_manager.go:584-590 | exactly the entries more than a minute past their time are dropped |
| `GroupCleanup.GroupMonitor.Monitor` | base/gfspvgmgr/virtual_group_manager.go:573-665 | the schedule and the report after a call are those of the specification, for every chain answer and transaction outcome |
| `GroupCleanup.EntriesAreRecorded` | base/gfspvgmgr/virtual_group_manager.go:605-611 | every entry was recorded by a call that found the group empty, and was neither pruned nor deleted since |
| `GroupCleanup.EntryOutlives` | base/gfspvgmgr/virtual_group_manager.go:582-630 | an entry outlives a call if and only if the call neither prunes it nor deletes the group; seeing the group in use plays no part |
| `GroupCleanup.RecordedEntriesLast` | base/gfspvgmgr/virtual_group_manager.go:605-611 | and every such recording is still on the schedule |
| `GroupCleanup.RunDeletesExactly` | base/gfspvgmgr/virtual_group_manager.go:573-630 | in every run a call deletes a group if and only if it finds it empty, the transaction passes, and an earlier call recorded it a day before, to the minute, in an entry neither pruned nor deleted since |
| `GroupCleanup.DeletionIsDelayed` | base/gfspvgmgr/virtual_group_manager.go:573-630 | in every run a deletion at T follows a recording at T0 with T0+86400 <= T <= T0+86460 and no deletion in between |
| `GroupCleanup.DeletionsAreADayApart` | base/gfspvgmgr/virtual_group_manager.go:573-630 | with a clock that does not run backwards, two deletions of one group are at least a day apart |
| `GroupCleanup.DeletedMeansDeletes` | base/gfspvgmgr/virtual_group_manager.go:592-603 | a reported deletion is of a group that the chain says is empty, or that was seen empty when the chain was the source |
| `GroupCleanup.DeletesExactly` | base/gfspvgmgr/virtual_group_manager.go:582-630 | a call deletes if and only if it finds a scheduled group empty, on chain unless the chain was the source, within its minute, and the transaction passes |
| `GroupCleanup.ChainDecides` | base/gfspvgmgr/virtual_group_manager.go:592-603 | a call that cannot learn what the chain says fails; one that learns that the group holds data neither records nor deletes it |
| `GroupCleanup.ReportsExactly` | base/gfspvgmgr/virtual_group_manager.go:573-665 | a call fails or deposits under exactly the stated conditions on the schedule, the group as seen and the answer of the chain; a deposit needs 95 per cent used on both |
| `GroupCleanup.DeletedThoughUsedMeanwhile` | base/gfspvgmgr/virtual_group_manager.go:583-590 | an instance: a group seen in use between recording and deletion is deleted all the same |
| `Providers.HealthChecker.SetMembers` | base/gfspvgmgr/virtual_group_manager.go:681-688 | the members become exactly the given providers |
| `Providers.HealthChecker.IsHealthy` | base/gfspvgmgr/virtual_group_manager.go:690-705 | a provider is turned down if and only if it is a marked member |
| `Providers.HealthChecker.ProbeAll` | base/gfspvgmgr/virtual_group_manager.go:749-760 | in any order the providers found down are collected and those found up are forgiven |
| `Providers.HealthChecker.CheckAll` | base/gfspvgmgr/virtual_group_manager.go:740-786 | when the members in service that answer make up data + parity, exactly the others are marked; otherwise, or when the numbers are unknown, the marks stay except on members in service that answer |
| `Providers.CheckMeans` | base/gfspvgmgr/virtual_group_manager.go:740-786 | the same of the specification of a check |
| `Providers.CheckKeepsQuorum` | base/gfspvgmgr/virtual_group_manager.go:740-786 | a check keeps the quorum, with or without parameters |
| `Providers.CheckLeavesEnough` | base/gfspvgmgr/virtual_group_manager.go:774-784 | after a check nobody is treated as unhealthy or data + parity members are left |
| `Providers.QuorumAfterCheck` | base/gfspvgmgr/virtual_group_manager.go:740-786 | whatever was marked before, a check ends with a quorum if and only if enough members are up, or no marked member is still down, or those that are leave enough |
| `Providers.QuorumAfterChange` | base/gfspvgmgr/virtual_group_manager.go:681-688 | a change of members leaves a quorum if and only if none of the new members is marked or enough of them are not |
| `Providers.RunsKeepQuorum` | base/gfspvgmgr/virtual_group_manager.go:681-786 | in every run of checks and changes of members with fixed chunk numbers, only an unwelcome change of members takes the quorum away |
| `Providers.RoundsKeepQuorum` | base/gfspvgmgr/virtual_group_manager.go:740-786 | with fixed members and chunk numbers every run leaves nobody marked or at least data+parity members unmarked |
| `Providers.RoundsLeaveEnough` | base/gfspvgmgr/virtual_group_manager.go:740-786 | so in every run of checks with fixed members and chunk numbers |
| `Providers.LeavingMembersBreakQuorum` | base/gfspvgmgr/virtual_group_manager.go:681-688 | in a run, a member leaving loses the quorum, and the next check does not bring it back |
| `Providers.FrozenExactly` | base/gfspvgmgr/sp_freeze_pool.go:30-75 | in every run of freezing, ticks and releases a provider is in the pool if and only if some event froze it and none since froze it again, emptied the pool (a release of all, or a tick that leaves too few providers in service) or ticked after its five minutes; its entry is what that event stored |
| `Providers.FreezePool.FrozenGroups` | base/gfspvgmgr/sp_freeze_pool.go:47-58 | exactly the groups of the family that some frozen provider joined |
| `Providers.FreezePool.ReleaseExpired` | base/gfspvgmgr/sp_freeze_pool.go:60-68 | exactly the entries whose time has passed are released |
| `Providers.FreezePool.Tick` | base/gfspvgmgr/virtual_group_manager.go:543-571 | expired entries go; then, when the chunk numbers are known, the pool is emptied if and only if fewer than data + parity providers in service are left beside the frozen ones |
| `Providers.AliveCounts` | base/gfspvgmgr/virtual_group_manager.go:556-561 | the loop counts the providers in service |
| `Refresh.OthersExact` | base/gfspvgmgr/virtual_group_manager.go:332-338 | shifting in place under the running loop yields the list without oneself if and only if exactly one entry matches, or the list is empty |
| `Refresh.FindSelf` | base/gfspvgmgr/virtual_group_manager.go:332-338 | the loop on the list's own memory computes that result and finds oneself exactly when an entry matches |
| `Refresh.SelfMeans` | base/gfspvgmgr/virtual_group_manager.go:333 | an entry is oneself if and only if the addresses differ at most in the case of letters |
| `Refresh.ShiftDown` | base/gfspvgmgr/virtual_group_manager.go:336 | what append over the list's own memory leaves there |
| `Refresh.VisitStopsExactly` | base/gfspvgmgr/virtual_group_manager.go:375-410 | a visit stops the refresh if and only if the lookup, the monitor or the query after a deposit fails |
| `Refresh.ContributionExactly` | base/gfspvgmgr/virtual_group_manager.go:390-421 | a visit contributes nothing of a group that is missing or was just deleted, the second answer after a deposit, and otherwise the group as found |
| `Refresh.BuildFamily` | base/gfspvgmgr/virtual_group_manager.go:369-424 | the loop over the listed groups computes the family of the specification, or none once a query fails |
| `Refresh.FamilySucceeds` | base/gfspvgmgr/virtual_group_manager.go:375-424 | a family is built if and only if no visit to one of its groups stops the refresh |
| `Refresh.FamilyIsBuilt` | base/gfspvgmgr/virtual_group_manager.go:411-423 | for any answers and any listed ids, a built family holds for each id the group that the answers contributed last, and its totals are the sums over its groups if and only if the sizes replaced on the way add up to nothing |
| `Refresh.DistinctFamilyHolds` | base/gfspvgmgr/virtual_group_manager.go:411-423 | with distinct listed ids and answers that carry the id asked for, the family holds exactly what its ids contributed and its totals are the sums, exactly so below 2^64 |
| `Refresh.RepeatedIdCountsTwice` | base/gfspvgmgr/virtual_group_manager.go:375-423 | a family record that lists an id twice is built with the group held once and counted twice |
| `Refresh.BuildFamilies` | base/gfspvgmgr/virtual_group_manager.go:369-425 | the same for the loop over the families |
| `Refresh.FamiliesSucceed` | base/gfspvgmgr/virtual_group_manager.go:369-425 | all families are built if and only if no visit to any listed group stops the refresh |
| `Refresh.FamiliesAreBuilt` | base/gfspvgmgr/virtual_group_manager.go:369-425 | one family for each listed id, stored under it, holding what the last record with that id contributed, with the totals FamilyIsBuilt states |
| `Refresh.GroupManager.Refresh` | base/gfspvgmgr/virtual_group_manager.go:298-434 | a refresh publishes if and only if oneself is listed and every query and visit is answered; it then publishes at once the families of all records, as the answers contribute them, and the other providers, which with one match are all that are listed except oneself by ascending id; otherwise it leaves the published snapshot unchanged |
| `PieceKeys.SegmentKeyIsInjective` | base/gfsppieceop/piece_op.go:16-24 | equal segment keys name the same object, segment and version |
| `PieceKeys.ECKeyIsInjective` | base/gfsppieceop/piece_op.go:26-34 | equal erasure-coded keys agree in all four fields |
| `PieceKeys.KeysNeverCollide` | base/gfsppieceop/piece_op.go:16-34 | a segment key is never an erasure-coded key |
| `PieceKeys.SegmentKeyFormat` | base/gfsppieceop/piece_op.go:16-24 | a segment key is object, segment and, unless zero, version, each behind its letter, joined by underscores |
| `PieceKeys.ECKeyFormat` | base/gfsppieceop/piece_op.go:26-34 | an erasure-coded key has the redundancy index besides |
| `PieceKeys.ChallengeKeyIdentifies` | base/gfsppieceop/piece_op.go:36-41 | two challenge keys are equal if and only if they name the same piece, all negative redundancy indexes being the segment |
| `PieceKeys.SegmentKeyParses` | base/gfsppieceop/piece_op.go:87-99 | a printed segment key parses back to its segment index |
| `PieceKeys.ECKeyParses` | base/gfsppieceop/piece_op.go:101-118 | a printed key parses back exactly when its redundancy index fits an int32, and is refused otherwise |
| `PieceKeys.ChallengeKeyRoundTrip` | base/gfsppieceop/piece_op.go:120-133 | a printed challenge key parses back, every negative redundancy index as -1 |
| `PieceSizes.CutIsComplete` | base/gfsppieceop/piece_op.go:50-59 | cutting step by step keeps every byte, with segments of 1 to max bytes |
| `PieceSizes.CutAt` | base/gfsppieceop/piece_op.go:75-85 | the cut in closed form: its length is the segment count, all segments but the last are full |
| `PieceSizes.SizesAreTheCut` | base/gfsppieceop/piece_op.go:43-85 | the wrapping formulas equal the cut if and only if the count fits 32 bits and the largest segment fits an int64 |
| `PieceSizes.SegmentsHoldThePayload` | base/gfsppieceop/piece_op.go:43-59 | the segment sizes sum to the payload, each in 1..MaxSegmentPieceSize, the first equal to it; also without a maximum |
| `PieceSizes.ECPieceIsLeastCover` | base/gfsppieceop/piece_op.go:61-73 | the piece size is the least with which the data pieces cover the segment |
| `PieceSizes.PiecesHoldThePayload` | base/gfsppieceop/piece_op.go:61-73 | the data pieces of all segments hold the payload with less than dataChunks padding bytes a segment, also without a maximum |
| `ListCodecs.Uint32RoundTrip` | util/string.go:45-55 | a printed number reads back exactly when it fits 32 bits |
| `ListCodecs.Uint64ToInt64Exact` | util/string.go:37-43 | numbers up to MaxInt64 are kept, larger ones become 0 |
| `ListCodecs.StringToInt32Exact` | util/string.go:57-67 | a printed int64 reads back if and only if it fits 32 bits; only numbers that are too large are refused |
| `ListCodecs.SplitByComma` | util/string.go:84-94 | the loop yields the trimmed parts that are not blank; no item is empty, starts or ends with white space, or holds a comma |
| `ListCodecs.TrimMeans` | util/string.go:85-90 | trimming takes only white space away, from both ends, until none is left there |
| `ListCodecs.ItemsOfJoin` | util/string.go:79-94 | splitting a joined list of plain parts gives back its non-empty parts |
| `ListCodecs.Uint32SliceToString` | util/string.go:129-135 | the text decodes to the list it was made from |
| `ListCodecs.StringToUint32Slice` | util/string.go:138-148 | every item decoded in order, or an error if one is no uint32 |
| `ListCodecs.NumbersRoundTrip` | util/string.go:129-148 | a list of 32-bit numbers survives the round trip, the empty list included |
| `ListCodecs.HexRoundTrip` | util/string.go:106-126 | decoding undoes encoding, and encoded bytes hold neither commas nor spaces |
| `ListCodecs.HexEncodeAt` | util/string.go:110 | two lower-case hexadecimal digits for each byte, the high one first |
| `ListCodecs.HexDecodes` | util/string.go:121 | exactly the strings of an even number of hexadecimal digits in either case decode |
| `ListCodecs.BytesSliceToString` | util/string.go:107-113 | the text decodes to the list without its empty elements |
| `ListCodecs.StringToBytesSlice` | util/string.go:116-126 | every item decoded in order; or, with an error, the items before the first that is no hex string, what could be read of it, and nothing for the rest |
| `ListCodecs.BytesRoundTrip` | util/string.go:107-126 | the list comes back without its empty elements, hence unchanged if and only if it has none |

## Left out

- RPC, HTTP, chain and database plumbing, configuration, metrics, logging, names and endpoints: no logic beyond call and wrap.
- Goroutines, tickers, sleeping and lock acquisition: each locked call is one step.
- The health checker releases its lock between probes; `CheckAll` treats the round as one step, and the refresh always has a health checker.
- A clock that advances inside one call: ReleaseSP and the deletion monitor read the time once.
- float64 rounding: ratios and weights are reals, so a draw scaled to the sum is always below it.
- RemainingResource, Stat, IsUnused, ViewSystem and the other read-only views of scopes: easy members.
- The `Unlimited` limit type, whose count limits exceed int32; an unlimited memory is modelled.
- SetFilterTaskStrategy, SetRetireTaskStrategy, ScanTask, Len and Cap of the queues: easy members; the filter answers the same for the same task, the retire strategy may change at every call.
- Nil tasks and limits.
- generateVirtualGroupMeta, pickSPByFilter, the bucket-migration pick and the other users of the snapshot: easy searches with caller-supplied predicates.
- TotalStakingStoreSizeOfGVG: the staked size is an input of each group.
- Refresh.FindSelf: strings.EqualFold is modelled on ASCII text, which operator addresses are.
- sort.Slice is modelled by a stable sort; the picks are stated for any order of equal create times. Equal provider ids keep their order.
- Parsing of keys that were not printed by the piece key functions: modelled with its index error, but nothing is claimed of it.
- A data chunk number of zero, for which the erasure-coded piece size divides by zero.
- StringToBool, StringArrayToUint32Slice and the regular expressions of util/string.go.
