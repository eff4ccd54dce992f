# PlayFrame, verified

A Dafny model of the parts of the PlayFrame game-server framework that carry
its state: the indexed timer heap and the asynchronous logics keyed by its ids,
the object pools and what is built on them, the length-prefixed byte stream
between server and client, the random generator and the string hash.
`dafny verify dfyconfig.toml` checks all of it.

Code that changes state in place is a class or a method over arrays here, proved
against functions on values; the theorems about whole runs are about those
functions.

**Timers.** `TimerTable` is the heap seen from outside: live timers by id and
the free slots in order. `TimerPolling` says what a poll is and proves what
every poll does. `FreeChain`, `HeapOrder`, `TimerSlots` and `TimerBook` hold the
invariant that ties heap array, position index, stamps and free chain to that
view. `HeapTimer` is the class itself; every operation's contract gives the new
table as a function of the old one. `TimeValue` and `Random` are below it.

**Logics.** `LogicSteps` has the step tables, `LogicModule` the map of instances
over the timer heap, with the run theorems in `LogicStates`.

**Pools.** `ShmPool` is the generic pool. `ObjMgr` and `ObjMgrModule` put
players, cities and the uid index on two pools; `ConnMgr` puts connections on
a third.

**Stream.** `Frames` proves framing on byte sequences, for any receiver.
`Connection` and `ConnCache` are the server's fixed and the client's growing
buffers, `EventModule` and `MsgMgr` the loops that drive them, and `Links` joins
both ends: replies in `Downlinks`, requests in `Uplinks`.

**Hash.** `Fnv` compares the loop with 64-bit FNV-1a (draft-eastlake-fnv,
section 2).

## Where the code is not what it seems

Each of these is stated exactly rather than excluded:

- `TimeValue::Normalize` guards the microseconds where its message speaks of the
  time: subtraction ends the process exactly if it needs a borrow
  (`TimeValues.Subtract`).
- `RegisterTimer` refuses a zero interval but takes a negative one, which keeps
  its timer due; a poll can end exactly if every such timer that is due has a
  callback that at some firing answers other than 0
  (`TimerPolling.PollEndsIff`). How often each timer fires until then follows
  from the answers (`TimerPolling.PollFiresBudget`).
- `UnregisterTimer` lets a slot equal to the array length through its bound and
  reads past the arrays: the outcome `OutOfBounds`, for that slot and no other.
- A heap created with size 0 has no slot for its first timer
  (`HeapTimers.HeapTimer.constructor`).
- A logic created without a delay has id 0 and is lost if another such logic is
  still there (`LogicStates.CreateIsFresh`).
- A login's last step tests neither its player nor, before using it, a city it
  adds: a player deleted in between, or an answer with more cities than can be
  added, ends the process (`LogicStates.FatalIff`).
- `AddPlayer`, `AddCity` and `CreateConn` initialise before they test for NULL;
  a full pool is the outcome `NullDereference`. The accept guard excludes it for
  connections, nothing does for players and cities (`ObjStates.AddCityFails`).
- `AddCity`'s second error code cannot occur: the list is full at 99 cities.
- Setting the uid of a player that is bound leaves the old binding behind
  (`ObjStates.SetUidBound`).
- A reply refused with EAGAIN while nothing is pending is dropped
  (`Downlinks.OnlyAgainLoses`). The write handler is then registered with NULL,
  which replaces the data of the read handler too: unless a partial send comes
  first, the next writable event or the end of reading dereferences it
  (`Downlinks.FaultsIff`).
- A message longer than the queue's receive buffer is dropped if its payload
  alone is, and read past the end of the buffer otherwise
  (`EventModules.ZmqReadLoop`).
- The last frame is held back if its payload is empty (client) or of less than
  three bytes (server) (`Downlinks.DeliversAllIff`, `Uplinks.ForwardsAllIff`).
- A header that does not cover itself makes the payload length negative. The
  server goes on to copy that many bytes, the fault `NegativeCopy`, for the
  streams of `EventModules.NegativeCopyIff`, which framed requests never are
  (`Uplinks.NothingReady`); the client hands the length to the parser, which is
  taken to refuse it (`Unparsable`).
- A reply the client cannot parse stops it for good, with the frame at the head
  of its buffer (`Downlinks.StuckIff`, `Downlinks.StuckStays`); what has come
  before is delivered (`Downlinks.DeliversInOrder`).
- Whether the server's receive buffer overflows depends on the size of the reads
  (`Uplinks.ReadsFitIff`).

## Assumptions

- What the kernel, the queue, the clock and the parser answer are parameters,
  universally quantified. Between the two ends of a connection the bytes keep
  their order, and what arrives has been sent.
- The heap grows while it has fewer than 2^30 slots, so that slots stay within
  `int32_t`. `time_t` is unbounded.
- What the client is asked to buffer fits `int32_t`.
- A descriptor the kernel accepts is not one that is still open.

## Model

| member | source | states |
|---|---|---|
| TimeValues.Gte | src/common/frame/heap_timer.h:96-99 | the field-wise comparison of two normalised time stamps is the order of the instants they denote |
| TimeValues.ExpireTime | src/common/frame/heap_timer.h:81-84 | expiry is the exact sum of now and the interval, with one carry at most |
| TimeValues.NormalizeFields | src/common/frame/time_value.cpp:184-199 | for every pair of fields, negative and oversized ones included, the result is normal and denotes the same instant |
| TimeValues.Set | src/common/frame/time_value.cpp:26-31 | the process survives exactly if the microsecond field is not negative: the CHECK of line 181 as it is written |
| TimeValues.Add | src/common/frame/time_value.cpp:60-66 | adding two time stamps always passes the CHECK and is exact |
| TimeValues.Subtract | src/common/frame/time_value.cpp:88-94 | subtraction passes the CHECK exactly if no borrow is needed, and is then exact; the difference being non-negative is not enough |
| Randoms.Random.GetRand | src/common/frame/random.cpp:23-31 | one draw is exactly 48271 times the seed modulo 2^31-1, for every 32-bit seed, with every intermediate value in 32 bits |
| Randoms.SplitConstants | src/common/frame/random.cpp:12-13 | the two split constants are the quotient and remainder of M by A |
| Randoms.SplitIsExact | src/common/frame/random.cpp:25-29 | Schrage's split with truncating division equals the modular product, and none of its products or differences overflows |
| Randoms.NextInjective | src/common/frame/random.cpp:25-29 | two seeds step to the same value exactly if they agree modulo M |
| Randoms.NextNonZero | src/common/frame/random.cpp:25-29 | only multiples of M step to 0 |
| Randoms.NextMoves | src/common/frame/random.cpp:25-29 | only multiples of M are fixed, so two draws in a row differ |
| Randoms.StateNeverZero | src/common/frame/random.cpp:16-31 | after any number of draws the state is 0 modulo M exactly if the first seed was |
| TimerTables.IdIsSlotAndStamp | src/common/frame/heap_timer.cpp:85-86 | an id is determined by its slot and its 31-bit stamp, and taking it apart gives them back |
| TimerTables.InitialWellFormed | src/common/frame/heap_timer.cpp:16-38 | a new heap has no timers and every slot free once, and is consistent exactly if it has at least one slot |
| TimerTables.RegisterAddsOne | src/common/frame/heap_timer.cpp:51-81 | registering finds a free slot, yields a positive 64-bit id no live timer has, and keeps slots and timers in one-to-one agreement, growth included |
| TimerTables.UnregisterWellFormed | src/common/frame/heap_timer.cpp:83-108 | unregistering any id keeps that agreement |
| TimerTables.UnregisterMeans | src/common/frame/heap_timer.cpp:83-108 | unregistering takes away the named timer and no other, and its slot is the next to be handed out |
| TimerTables.GrowthLeavesRoom | src/common/frame/heap_timer.cpp:72-73 | the heap grows exactly when a registration takes the last free slot, and then has as many free slots as it had slots |
| TimerTables.ReusedSlotChangesId | src/common/frame/heap_timer.h:48-79 | register, unregister, register: same slot, and a different id exactly if the generator state is not a multiple of M |
| TimerTables.StaleIdIsIgnored | src/common/frame/heap_timer.cpp:83-97 | register, unregister, register: to unregister the first id then has no effect exactly if the generator state is not a multiple of M |
| TimerPolling.PollFiresEachDueOnce | src/common/frame/heap_timer.cpp:110-140 | a poll that has ended fired the timers due at its start and no others, each once exactly if none re-arms itself into the past |
| TimerPolling.PollOrder | src/common/frame/heap_timer.cpp:115 | timers first fire in nondecreasing order of their expiry before the poll, in any part of it |
| TimerPolling.PollFiresBudget | src/common/frame/heap_timer.cpp:115-136 | a poll has ended exactly if it fired every timer as often as its interval and its callback's successive answers say |
| TimerPolling.PollSettles | src/common/frame/heap_timer.cpp:127-136 | after a poll that has ended exactly the timers not due and the ones re-armed into the future are left, the latter at now plus their interval |
| TimerPolling.SettledIsLater | src/common/frame/heap_timer.cpp:127-131 | everything left expires after the time of the poll |
| TimerPolling.PollSpends | src/common/frame/heap_timer.cpp:115 | firings done and firings to come always make up the same multiset: the measure of the loop |
| TimerPolling.FiresLess | src/common/frame/heap_timer.cpp:120-136 | one turn takes one firing from the timer on top and none from the others |
| TimerPolling.PollEndsIff | src/common/frame/heap_timer.cpp:110-140 | a poll can end exactly if no due timer has a negative interval without a callback, or with one that answers 0 at every firing |
| TimerPolling.FireAllKeeps | src/common/frame/heap_timer.cpp:110-140 | slots, ids and free list stay consistent through any part of a poll |
| TimerPolling.RegisterMeans | src/common/frame/heap_timer.cpp:66-70 | a new timer is due exactly from its expiry on, has the given interval and callback, and no other timer is touched; a zero interval registers nothing |
| TimerPolling.PollOutcome | src/common/frame/heap_timer.cpp:115-136 | for every timer, in terms of its fields: whether it is left after a poll, and with what expiry, interval and callback |
| TimerPolling.FiresAgainIff | src/common/frame/heap_timer.cpp:127-131 | a timer armed again fires in the next poll exactly if that is at least its interval later |
| HeapOrder.TopIsMinimum | src/common/frame/heap_timer.cpp:142-147 | in heap order the top has the least expiry time of all positions |
| HeapOrder.UpStep | src/common/frame/heap_timer.cpp:185-191 | moving a greater parent down into the hole keeps the order except above the hole |
| HeapOrder.DownStep | src/common/frame/heap_timer.cpp:212-217 | moving the lesser child up into the hole keeps the order except below the hole |
| HeapOrder.GapKeepsOrder | src/common/frame/heap_timer.cpp:238-253 | with the last node in the place of a removed one, only the direction the parent comparison picks can be out of order |
| FreeChains.ChainGrow | src/common/frame/heap_timer.cpp:164-165 | the end marker of the old chain is the first new slot, so the chain runs through every old and new free slot once |
| FreeChains.ChainPop | src/common/frame/heap_timer.h:50-51 | taking the head leaves a chain of the remaining free slots |
| FreeChains.ChainPush | src/common/frame/heap_timer.h:75-76 | a returned slot becomes the head of the chain |
| TimerBooks.LocateInBook | src/common/frame/heap_timer.cpp:85-97 | the index and stamp arrays find an id exactly if it is live, and then its own node |
| TimerBooks.TopOfBook | src/common/frame/heap_timer.cpp:142-147 | the node on top is a live timer with the least expiry time of all live timers |
| TimerBooks.SoundGrow | src/common/frame/heap_timer.cpp:149-176 | growing keeps the whole invariant even between taking a slot and inserting its node |
| TimerBooks.AfterInsert | src/common/frame/heap_timer.cpp:75-76 | an inserted and sifted node leaves order, inverse index, free chain and stamps right |
| TimerBooks.AfterRemove | src/common/frame/heap_timer.cpp:228-256 | so does a removed node, its slot being the next to be handed out |
| HeapTimers.HeapTimer.constructor | src/common/frame/heap_timer.cpp:16-38 | every slot is free; the invariant holds, and the first slot lies within the arrays, exactly if the size is not 0 |
| HeapTimers.HeapTimer.PopFreeTimerId | src/common/frame/heap_timer.h:48-59 | takes the first free slot, stamps it with the next random number and returns slot and stamp as the id |
| HeapTimers.HeapTimer.PushFreeTimerId | src/common/frame/heap_timer.h:61-79 | returns a slot whose stamp matches, changes nothing otherwise |
| HeapTimers.HeapTimer.GrowHeap | src/common/frame/heap_timer.cpp:149-176 | doubles all three arrays, keeps the invariant with a slot pending, adds just the new slots to the free list |
| HeapTimers.HeapTimer.RotateUp | src/common/frame/heap_timer.cpp:178-199 | from order but for the edge above a hole to heap order, with the position index inverse to the heap again |
| HeapTimers.HeapTimer.RotateDown | src/common/frame/heap_timer.cpp:201-226 | the same downwards |
| HeapTimers.HeapTimer.RemoveNode | src/common/frame/heap_timer.cpp:228-256 | removes exactly the timer at the position, wherever it is, and keeps the invariant; the mismatch branch for its slot is not taken |
| HeapTimers.HeapTimer.RegisterTimer | src/common/frame/heap_timer.cpp:51-81 | adds exactly one timer under the returned id, or none for a zero interval; the capacity test never fails |
| HeapTimers.HeapTimer.UnregisterTimer | src/common/frame/heap_timer.cpp:83-108 | removes exactly the named timer if it is live and changes nothing otherwise; it reads past the arrays exactly if the id's slot equals their length |
| HeapTimers.HeapTimer.FirstTimeout | src/common/frame/heap_timer.cpp:142-147 | the least expiry time over all live timers, or nothing if there are none |
| HeapTimers.HeapTimer.TimerPoll | src/common/frame/heap_timer.cpp:110-140 | whenever the poll can end at all it does, having done what a poll of the table does for the callbacks' answers until nothing is due |
| HeapTimers.HeapTimer.Destroy | src/common/frame/heap_timer.cpp:40-49 | frees each live node exactly once and nothing else |
| HeapTimers.HeapTimer.ValidTable | src/common/frame/heap_timer.cpp:51-108 | the class invariant implies the consistency of slots, ids and free list |
| LogicSteps.YieldMovesOn | src/gamesvr/logic_module/logic/logic_login.h:39-194 | a step that yields has moved on to a later step of its table; the last one never yields |
| LogicSteps.LoginFinishesIff | src/gamesvr/logic_module/logic/logic_login.h:39-194 | on which findings of its two or three messages a login returns FINISH and on which FAILED |
| LogicSteps.NormalRegFinishesIff | src/gamesvr/logic_module/logic/logic_normal_reg.h:38-138 | on which findings of its two messages a normal registration returns FINISH and on which FAILED |
| LogicSteps.QuickRegFinishesIff | src/gamesvr/logic_module/logic/logic_quick_reg.h:38-99 | the same for a quick registration |
| LogicSteps.UpdatePlayerFinishesIff | src/gamesvr/logic_module/logic/logic_update_player.h:35-71 | the same for a player update |
| LogicStates.CreateIsFresh | src/gamesvr/logic_module/logic_module.cpp:111-144 | with a delay the new id meets no entry of the map; without one the insertion is lost exactly if id 0 is still there |
| LogicStates.CreatedTimesOut | src/gamesvr/logic_module/logic_module.cpp:111-144 | an instance created at clock c with a delay of d seconds is still there after an update exactly if that comes before c + d |
| LogicStates.CreatedIff | src/gamesvr/logic_module/logic_module.cpp:111-128 | something is created exactly for the four types of logic, but for a second instance without a delay |
| LogicStates.ProcKeepsJoint | src/gamesvr/logic_module/logic_module.cpp:146-182 | handling a message keeps the ids of instances and live timers the same |
| LogicStates.LoginFirst | src/gamesvr/logic_module/logic/logic_login.h:39-112 | a login survives its first message exactly if the player is found, account and password are good, and an old player bound to the uid is found |
| LogicStates.LoginSecond | src/gamesvr/logic_module/logic/logic_login.h:114-194 | it survives its second exactly if there was such an old player and the server has saved it; without one the second message is already the last |
| LogicStates.LoginThird | src/gamesvr/logic_module/logic/logic_login.h:149-194 | it never survives its third |
| LogicStates.OthersTakeTwo | src/gamesvr/logic_module/logic/logic_normal_reg.h:38-138 | when each of the other logics survives its first message, and that none survives its second |
| LogicStates.ProcTouchesOne | src/gamesvr/logic_module/logic_module.cpp:146-182 | a message changes its own instance and no other |
| LogicStates.ProcStopsOne | src/gamesvr/logic_module/logic_module.cpp:177-181 | a message stops its own timer exactly if its instance goes, and no other |
| LogicStates.UpdateRemovesDue | src/gamesvr/logic_module/logic_module.h:30-44 | an update removes exactly the instances whose timer is due, and their timers |
| LogicStates.JointFromStart | src/gamesvr/logic_module/logic_module.cpp:111-207 | over every run the instances (id 0 apart) are exactly the live timers |
| LogicStates.JointAlways | src/gamesvr/logic_module/logic_module.cpp:111-207 | the same from any consistent state |
| LogicStates.InstanceEnds | src/gamesvr/logic_module/logic_module.cpp:173-181 | in any interleaving, an instance that is sent as many messages as its logic has steps does not live through the run |
| LogicStates.StepsBoundMessages | src/gamesvr/logic_module/logic/logic_base.h:36-54 | while it lives, its step plus the messages still to come to it is less than the number of its steps |
| LogicStates.GoneMeansNoTimer | src/gamesvr/logic_module/logic_module.cpp:177-181 | an instance with a timer is gone exactly if its timer is |
| LogicStates.DeadIdIsIgnored | src/gamesvr/logic_module/logic_module.cpp:149-153 | a message for a dead id changes nothing |
| LogicModules.LogicModule.CreateLogic | src/gamesvr/logic_module/logic_module.cpp:111-144 | registers the timer and enters the instance as specified, and keeps map and heap in agreement |
| LogicModules.LogicModule.Proc | src/gamesvr/logic_module/logic_module.cpp:146-182 | runs the instance's step; anything but a yield removes instance and timer, and the process ends exactly on a null dereference |
| LogicStates.FatalIff | src/gamesvr/logic_module/logic/logic_login.h:149-193 | an event dereferences NULL exactly if it is a message to a login in its last step whose player is gone, or whose answer has a city that cannot be added |
| LogicModules.LogicModule.Update | src/gamesvr/logic_module/logic_module.h:40-44 | polls the heap, always to the end, and drops the entries that fired |
| LogicModules.LogicModule.OnTimers | src/gamesvr/logic_module/logic_module.h:30-38 | the callbacks of one poll delete exactly the entries that fired |
| LogicStates.UpdateIsInTurn | src/gamesvr/logic_module/logic_module.h:30-44 | deleting the entries after the poll leaves heap and map as deleting each within its turn of the poll does |
| LogicModules.LogicModule.DeleteLogicData | src/gamesvr/logic_module/logic_module.cpp:184-198 | deletes the entry if there is one |
| LogicModules.LogicModule.GetLogicData | src/gamesvr/logic_module/logic_module.cpp:200-207 | finds the entry exactly if there is one |
| LogicModules.LogicModule.ChangeStep | src/gamesvr/logic_module/logic/logic_base.h:50-54 | changes the step of one instance and no other |
| ShmPools.FreeLink | src/common/frame/shm_pool.h:107-116 | a unit's pos is its own index exactly if it is allocated, and positive only then |
| ShmPools.PoolPop | src/common/frame/shm_pool.h:82-88 | taking a unit keeps the chain through the other free units |
| ShmPools.PoolPush | src/common/frame/shm_pool.h:90-94 | returning one puts it at the head of the chain |
| ShmPools.GivenRestoresTaken | src/common/frame/shm_pool.h:82-127 | giving back the unit just taken restores head, count and links exactly |
| ShmPools.ShmPool.AllocAndRelease | src/common/frame/shm_pool.h:96-127 | Alloc followed by Release leaves every control field, the free list and what the other units hold as they were |
| ShmPools.FreeCount | src/common/frame/shm_pool.h:118-127 | no more units are free than there are, and when that many are, none is allocated |
| ShmPools.ShmPool.constructor | src/common/frame/shm_pool.h:53-80 | all units free, chained in order |
| ShmPools.ShmPool.Alloc | src/common/frame/shm_pool.h:96-105 | NULL exactly if all units are taken; otherwise the head of the chain |
| ShmPools.ShmPool.Find | src/common/frame/shm_pool.h:107-116 | finds an index exactly if its unit is allocated |
| ShmPools.ShmPool.Release | src/common/frame/shm_pool.h:118-127 | the two CHECKs together pass exactly if the unit is allocated, so none is released twice |
| ShmPools.ShmPool.GetPos | src/common/frame/shm_pool.h:129-135 | the unit's index; the CHECK ends the process exactly on a unit that is not allocated |
| ShmPools.ShmPool.TravelPool | src/common/frame/shm_pool.h:137-157 | visits the allocated units, each once, in order |
| ObjStates.DelCitiesRemoves | src/gamesvr/obj_mgr_module/obj_mgr_module.cpp:174-180 | the deleting loop removes exactly the listed cities, each once |
| ObjStates.AddPlayerAdds | src/gamesvr/obj_mgr_module/obj_mgr_module.cpp:124-138 | the returned index is a new player without uid and cities, nothing else changes, and there is none exactly if every unit is taken |
| ObjStates.AddCityAdds | src/gamesvr/obj_mgr_module/obj_mgr_module.cpp:187-229 | the returned index is a new city of that player, entered in its first empty place and counted, and nothing else changes; in all other cases nothing changes |
| ObjStates.DelPlayerRemoves | src/gamesvr/obj_mgr_module/obj_mgr_module.cpp:165-185 | deleting takes away the player and no other, and its index is the next to be handed out |
| ObjStates.DelPlayerFreesItsCities | src/gamesvr/obj_mgr_module/obj_mgr_module.cpp:165-185 | deleting a player frees its cities and leaves every other city as it was |
| ObjStates.AddCitySound | src/gamesvr/obj_mgr_module/obj_mgr_module.cpp:187-229 | adding a city keeps ownership, counts and both pools right, also when it fails |
| ObjStates.AddCityFails | src/gamesvr/obj_mgr_module/obj_mgr_module.cpp:197-228 | each error code characterised: -2 never, -4 at 99 cities, NULL dereference exactly if no city is free |
| ObjStates.DelPlayerSound | src/gamesvr/obj_mgr_module/obj_mgr_module.cpp:165-185 | deleting a player does too |
| ObjStates.SoundAlways | src/gamesvr/obj_mgr_module/obj_mgr_module.cpp:124-263 | over every run each city is in exactly one live player's list, lists count right, and allocated cities equal the sum of the counts |
| ObjStates.SetUidBound | src/gamesvr/obj_mgr_module/object/player.cpp:13-19 | setting a uid keeps the index right exactly if the player is not bound under another uid |
| ObjStates.SetUidBinds | src/gamesvr/obj_mgr_module/object/player.cpp:13-19 | after setting a uid it is in the index, leads to the player exactly if it led nowhere else before, is the player's, and nothing else has changed |
| ObjStates.NextBound | src/gamesvr/obj_mgr_module/obj_mgr_module.cpp:57-85 | exactly the re-setting of a bound uid breaks the index |
| ObjStates.BindingLasts | src/gamesvr/obj_mgr_module/obj_mgr_module.cpp:57-85 | a binding is erased exactly by deleting its own player, and never redirected |
| ObjStates.BoundAlways | src/gamesvr/obj_mgr_module/obj_mgr_module.cpp:42-85 | over every run without that, each binding leads to a live player with its uid, shared uids included |
| ObjMgrModules.ObjMgrModule.AddPlayer | src/gamesvr/obj_mgr_module/obj_mgr_module.cpp:124-138 | does what is specified on pools and map; a full pool is a null dereference |
| ObjMgrModules.ObjMgrModule.DelPlayer | src/gamesvr/obj_mgr_module/obj_mgr_module.cpp:165-185 | erases the binding if it is this player's, deletes the cities, releases the unit |
| ObjMgrModules.ObjMgrModule.AddCity | src/gamesvr/obj_mgr_module/obj_mgr_module.cpp:187-229 | enters the new city in the first empty place and counts it, or returns the specified code |
| ObjMgrModules.ObjMgrModule.DelCity | src/gamesvr/obj_mgr_module/obj_mgr_module.cpp:256-263 | releases the city if there is one |
| ObjMgrModules.ObjMgrModule.EmptyEntry | src/gamesvr/obj_mgr_module/obj_mgr_module.cpp:205-206 | the loop finds the first empty place |
| ObjMgrModules.ObjMgrModule.SetUid | src/gamesvr/obj_mgr_module/object/player.cpp:13-19 | binds unless the uid is bound already, then sets the field |
| ObjMgrModules.ObjMgrModule.FindPlayerIdxByUid | src/gamesvr/obj_mgr_module/obj_mgr_module.cpp:42-55 | the bound index, or 0 |
| ObjMgrModules.ObjMgrModule.GetPlayer | src/gamesvr/obj_mgr_module/obj_mgr_module.cpp:140-157 | the player exactly if its unit is allocated |
| ObjMgrModules.ObjMgrModule.GetCity | src/gamesvr/obj_mgr_module/obj_mgr_module.cpp:231-248 | the city exactly if its unit is allocated |
| ConnStates.GuardLeavesUnit | src/connsvr/event_module/event_module.cpp:128-131 | the guard passes exactly if a unit is free |
| ConnStates.FdsInjective | src/connsvr/conn_mgr_module/conn_mgr_module.cpp:66-74 | two descriptors never share a unit |
| ConnStates.AdmitSound | src/connsvr/conn_mgr_module/conn_mgr_module.cpp:66-74 | creating a connection keeps descriptors and units in agreement exactly if the descriptor is new |
| ConnStates.AcceptSound | src/connsvr/event_module/event_module.cpp:118-163 | accepting keeps the agreement and enters the descriptor exactly if the guard passes |
| ConnStates.AcceptMeans | src/connsvr/event_module/event_module.cpp:118-163 | an accept adds one connection with its descriptor and player 0 on a free unit and changes nothing else, or nothing at all |
| ConnStates.ReleaseSound | src/connsvr/conn_mgr_module/conn_mgr_module.cpp:88-103 | releasing keeps it and removes just that descriptor |
| ConnStates.ReleaseMeans | src/connsvr/conn_mgr_module/conn_mgr_module.cpp:88-103 | a release takes away the one connection and its unit's content, or nothing |
| ConnStates.ReleasedUnitIsReused | src/connsvr/conn_mgr_module/conn_mgr_module.cpp:95-99 | the unit of a released descriptor goes to the next connection |
| ConnStates.SoundAlways | src/connsvr/event_module/event_module.cpp:118-163 | over every run open descriptors map one-to-one to allocated units, and allocated and free units are exactly 1 to total, each once |
| ConnMgrModules.ConnMgrModule.CreateConn | src/connsvr/conn_mgr_module/conn_mgr_module.cpp:66-74 | allocates and enters the descriptor; a full pool is a null dereference |
| ConnMgrModules.ConnMgrModule.DoTcpAccept | src/connsvr/event_module/event_module.cpp:118-163 | accepts as specified and never creates a connection on NULL |
| ConnMgrModules.ConnMgrModule.GetConn | src/connsvr/conn_mgr_module/conn_mgr_module.cpp:76-86 | the unit of the descriptor, or NULL |
| ConnMgrModules.ConnMgrModule.ReleaseConn | src/connsvr/conn_mgr_module/conn_mgr_module.cpp:88-103 | releases as specified |
| Frames.DrainConserves | src/connsvr/event_module/event_module.cpp:206-260 | the drain loop loses and repeats no byte: frames and remainder make up the input; it stops only at an incomplete, malformed or unparsable frame |
| Frames.DrainAppend | src/connsvr/event_module/event_module.cpp:197-260 | draining after one chunk and again after the next gives the frames and remainder of draining both at once |
| Frames.FeedIsDrain | src/connsvr/event_module/event_module.cpp:197-260 | any sequence of chunks, drained one by one, gives what one drain of the whole stream gives |
| Frames.ChunkingIsIrrelevant | src/connsvr/conn_mgr_module/connection.cpp:10-48 | two ways of cutting a stream yield the same frames and remainder |
| Frames.HeaderOrder | src/common/frame/utils.h:50-58 | the header is in network byte order: it compares as its length does |
| Frames.FrameCountsItself | src/connsvr/event_module/event_module.cpp:307-317 | the length in a frame's header is that of the whole frame, and the message follows |
| Frames.RoundTrip | src/tcpclient/msg_mgr.cpp:260-277 | the first n bytes of an encoding drain to exactly the messages that have fully arrived, up to the first that does not parse, and leave the bytes behind them |
| Frames.ReadyIff | src/tcpclient/msg_mgr.cpp:260-271 | a receiver stops at a complete frame exactly if it is the first message that does not parse, all of it has arrived, and it exceeds the threshold |
| Frames.StopsIffMisframed | src/connsvr/conn_mgr_module/connection.cpp:29-42 | a receiver that parses everything stops at a frame exactly if its stream is frames followed by more bytes than its threshold whose first two make a length below 2 |
| Frames.ArrivedMeans | src/tcpclient/conn_cache.cpp:107-115 | how many messages n bytes deliver: fewer than all only if the next is incomplete or its receiver still waits |
| Frames.AllArriveIff | src/tcpclient/conn_cache.cpp:107-115 | once everything has been sent all has arrived, exactly if the last frame is longer than the receiver's threshold |
| Frames.HeldIsBounded | src/connsvr/conn_mgr_module/connection.cpp:44-48 | unless the receiver is stopped at a frame, what is held between reads is less than the largest frame, or no more than what it has to exceed before it looks |
| Connections.Connection.AddRecvData | src/connsvr/conn_mgr_module/connection.cpp:10-26 | appends, or refuses exactly on overflow |
| Connections.Connection.IsRecvProtoReady | src/connsvr/conn_mgr_module/connection.cpp:29-37 | more than four bytes and a whole frame |
| Connections.Connection.RemoveRecvProto | src/connsvr/conn_mgr_module/connection.cpp:44-48 | drops exactly the first frame's bytes |
| Connections.Connection.AddSendData | src/connsvr/conn_mgr_module/connection.cpp:50-66 | appends, or refuses exactly on overflow |
| Connections.Connection.RemoveSendData | src/connsvr/conn_mgr_module/connection.cpp:68-72 | drops the bytes that were sent and keeps the others in order |
| EventModules.DoTcpRead | src/connsvr/event_module/event_module.cpp:165-261 | every answer of recv; a chunk is drained as one stream with what was held, up to the first frame the queue refuses, and each frame carries the player and START or PROC; a header below its own size ends in a copy of negative length, a release through a NULL handler in a null dereference |
| EventModules.DrainLoop | src/connsvr/event_module/event_module.cpp:206-260 | the loop terminates, forwards the frames of the drain, and names what it stopped at |
| EventModules.NegativeCopyIff | src/connsvr/event_module/event_module.cpp:206-260 | the payload copy of negative length happens exactly if the queue takes every frame, and the bytes held and read are frames followed by more than four bytes that begin with a length below 2 |
| EventStates.ForwardedAppend | src/connsvr/event_module/event_module.cpp:227-248 | forwarding frames in parts is forwarding them together |
| EventStates.ForwardedMeans | src/connsvr/event_module/event_module.cpp:227-248 | every frame is forwarded once, in order, with descriptor and player, as START exactly while there is no player and as PROC otherwise |
| EventStates.OfferMeans | src/connsvr/event_module/event_module.cpp:319-374 | how much of a frame goes on the wire, what is pending then, and exactly when the frame is accepted |
| EventStates.RespondEnds | src/connsvr/event_module/event_module.cpp:319-386 | exactly when a reply releases the connection, overreads the queue's buffer or keeps it, and what the handlers are registered with then |
| EventStates.FlushMeans | src/connsvr/event_module/event_module.cpp:406-423 | a flush sends exactly what send took of the pending bytes, and exactly when it releases the connection or dereferences NULL |
| EventModules.ZmqReadLoop | src/connsvr/event_module/event_module.cpp:277-391 | sends, buffers or drops the framed reply as specified, keeps track of the handler data, and updates or ends the connection; a message longer than the queue's buffer is dropped or read past its end |
| EventModules.SendFrame | src/connsvr/event_module/event_module.cpp:319-374 | the three answers of send and the buffered case; a rest after a partial send always fits into the empty buffer |
| EventModules.DoTcpWrite | src/connsvr/event_module/event_module.cpp:393-424 | moves what send takes from the buffer to the wire; an error ends the connection, and error or completion on a NULL handler the process |
| ConnCaches.ExpandedIsCapacity | src/tcpclient/conn_cache.cpp:35-66 | expansion stays within the 15 capacities that an int32_t can hold |
| ConnCaches.LastIsInt32 | src/tcpclient/conn_cache.cpp:49 | the last of them fits int32_t and its double does not |
| ConnCaches.GrownIsLeast | src/tcpclient/conn_cache.cpp:70-72 | growth stops at the first capacity that fits |
| ConnCaches.ConnCache.Expand | src/tcpclient/conn_cache.cpp:35-66 | enlarges both buffers and keeps what they hold |
| ConnCaches.ConnCache.AddSendData | src/tcpclient/conn_cache.cpp:68-76 | appends, growing both buffers as often as needed |
| ConnCaches.ConnCache.AddRecvData | src/tcpclient/conn_cache.cpp:78-86 | appends, growing both buffers as often as needed |
| ConnCaches.ConnCache.SkipSendData | src/tcpclient/conn_cache.cpp:88-92 | drops a prefix |
| ConnCaches.ConnCache.SkipRecvData | src/tcpclient/conn_cache.cpp:94-98 | drops a prefix |
| ConnCaches.ConnCache.SkipRecvProto | src/tcpclient/conn_cache.cpp:100-105 | drops exactly the first frame's bytes |
| ConnCaches.ConnCache.IsRecvProtoReady | src/tcpclient/conn_cache.cpp:107-115 | more than two bytes and a whole frame |
| MsgMgrs.SendPart | src/tcpclient/msg_mgr.cpp:212-236 | bytes on the wire and bytes kept make up what was to be sent |
| MsgMgrs.DrainReceived | src/tcpclient/msg_mgr.cpp:260-277 | delivers the frames of the drain, stopping at one that does not parse |
| MsgMgrs.Run | src/tcpclient/msg_mgr.cpp:208-278 | one network turn for every pair of answers of send and recv |
| Downlinks.ReplyKeepsSound | src/connsvr/event_module/event_module.cpp:305-374 | a reply keeps the bytes conserved, whatever send answers, and nothing is pending on a NULL handler |
| Downlinks.WritableKeepsSound | src/connsvr/event_module/event_module.cpp:406-423 | so does a flush |
| Downlinks.Tally | src/connsvr/event_module/event_module.cpp:319-423 | over every run the bytes sent are as many as send took, those that came in as many as arrived |
| Downlinks.StepEnds | src/connsvr/event_module/event_module.cpp:319-423 | exactly which events end a connection that is kept |
| Downlinks.DeliversInOrder | src/connsvr/event_module/event_module.cpp:305-423 | over every run of partial sends and every chunking, sent plus pending bytes are the accepted replies in order, and the client has exactly those that have fully arrived, up to the first that does not parse |
| Downlinks.DeliversAllIff | src/tcpclient/msg_mgr.cpp:260-277 | when all is sent and received, all is delivered exactly if every reply parses and the last is not empty |
| Downlinks.StuckIff | src/tcpclient/msg_mgr.cpp:268-271 | the client is stuck at a frame for good exactly if a reply that does not parse has fully arrived, an empty one with a byte behind it |
| Downlinks.StuckStays | src/tcpclient/msg_mgr.cpp:260-271 | a client that is stuck stays so, and nothing more is delivered |
| Downlinks.BufferHasRoom | src/tcpclient/msg_mgr.cpp:239-241 | unless the client is stuck, its receive buffer is never full, so recv is never asked for nothing |
| Downlinks.OnlyAgainLoses | src/connsvr/event_module/event_module.cpp:310-330 | on a connection that is kept, the accepted replies are all replies in order without exactly those refused with EAGAIN while nothing is pending and those larger than the buffers |
| Downlinks.DataIffNotNull | src/connsvr/event_module/event_module.cpp:324-351 | the handlers are registered with NULL exactly if a reply was dropped with EAGAIN and none has been sent in part since |
| Downlinks.FaultsIff | src/connsvr/event_module/event_module.cpp:393-423 | a run ends in the null dereference exactly if, in that state, the descriptor becomes writable or the server's reading ends |
| Uplinks.ForwardsInOrder | src/connsvr/event_module/event_module.cpp:165-261 | over every run the queue has taken a prefix of the requests, exactly those fully arrived while the connection is kept, and their frames never lead the server into a fault |
| Uplinks.ReadMeans | src/connsvr/event_module/event_module.cpp:197-260 | a read that overflows releases the connection; otherwise the queue takes the frames up to the first it refuses, which releases it too |
| Uplinks.Tally | src/tcpclient/msg_mgr.cpp:212-236 | over every run the requests are those made, the bytes sent as many as send took, and those read as many as recv gave |
| Uplinks.NothingReady | src/connsvr/event_module/event_module.cpp:206-245 | while the connection is kept, what the server holds is neither a complete frame nor one whose header does not cover itself |
| Uplinks.ForwardsAllIff | src/connsvr/conn_mgr_module/connection.cpp:31-32 | when all is sent and read, all is forwarded exactly if the last request has more than two bytes |
| Uplinks.SmallReadsFit | src/connsvr/conn_mgr_module/connection.cpp:12-20 | reads that leave room for all but one byte of the largest frame never overflow |
| Uplinks.LargeReadsOverflow | src/connsvr/conn_mgr_module/connection.cpp:12-20 | for any larger read there is a run, with no request beyond the bound, in which the server makes that read, overflows and releases the connection |
| Uplinks.ReadsFitIff | src/connsvr/conn_mgr_module/connection.cpp:12-20 | reads of n bytes overflow in no run with requests of a given size bound exactly if n leaves room for all but one byte of a frame of that size |
| FnvHashes.Fnv64aHash | src/common/frame/utils.cpp:10-23 | the xor and shift-add loop computes 64-bit FNV-1a of every input |
| FnvHashes.ShiftAddsMultiply | src/common/frame/utils.cpp:18-19 | the sum of shifts is the multiplication by the FNV prime modulo 2^64 |
| FnvHashes.StateInjective | src/common/frame/utils.cpp:16-20 | different states stay different through any bytes |
| FnvHashes.OneByteChangesHash | src/common/frame/utils.cpp:10-23 | inputs of one length that agree in all bytes but one collide exactly if they are equal |

## Left out

- HeapTimers.HeapTimer.TimerPoll: callbacks are answers by id and firing, so one that registers or unregisters timers while the poll runs is not covered; `LogicModule::OnTimer` is not such a callback, `CoroutineModule` and `LuaEngine` are.
- HeapTimers.HeapTimer.RegisterTimer: doubling to 2^31 slots or more, where slots leave `int32_t`, is excluded; allocation does not fail, and the callback object is a flag.
- HeapTimers.HeapTimer.GrowHeap: excluded from 2^30 slots on, as above.
- LogicModules.LogicModule.CreateLogic: excluded where its timer heap would have to grow beyond that; the record's allocation does not fail.
- LogicModules.LogicModule.OnTimers: the deletions of a poll are made after it rather than between its turns; the outcome is the same (`LogicStates.UpdateIsInTurn`).
- HeapTimers.HeapTimer.constructor: sizes from 2^31 - 1 on are excluded, where slots leave `int32_t`.
- LogicModules.LogicModule.Proc: a step does not itself create or run another logic, and its type is always found in the type map; the players and cities it finds are parameters.
- ShmPools.ShmPool.constructor: re-attaching to shared memory that already holds a pool is not modelled, nor the restoring of the uid index after it.
- ConnMgrModules.ConnMgrModule.CreateConn: the pool's units hold descriptor and player only; a connection's buffers are the separate class `Connection`.
- EventModules.ZmqReadLoop: the connection looked up is a parameter, and registering an event does not fail.
- ConnCaches.ConnCache.AddSendData: totals beyond the largest capacity that fits `int32_t` are excluded, where doubling overflows.
- ConnCaches.ConnCache.AddRecvData: likewise.
- ConnCaches.ConnCache.Expand: likewise, a buffer that already has the largest such capacity.
- Error and hang-up events, which the epoller hands to the write handler even where none has been registered.
- MsgMgrs.Run: reconnecting is an outcome, what `MsgMgr::Resume` does then is not modelled.
- Player and city fields other than the uid, the list and the owner; the payloads' Protobuf contents; account and password checks.
- The old player's kick-off in the login's first step: only its effect on the step is modelled.
- `DelCity` on its own, which leaves the owner's list as it is; only its use by `DelPlayer` is part of the runs.
- The copy of the object manager in `src/gamesvr_lua_coroutine`, which duplicates the one in `src/gamesvr`.
- `BitSwap64` and the generated uids and passwords: clearing two equal set bits makes them no permutation.
- The MySQL client, Lua, coroutines, configuration, logging, signals and the rest of the application frame.
