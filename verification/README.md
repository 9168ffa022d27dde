# lazybsd: verified models of its stateful cores

lazybsd runs the FreeBSD network stack in user space on top of DPDK. The files here model the parts
of the port that keep state of their own and prove what callers rely on.

| file | part of lazybsd |
|---|---|
| `CalloutSpec.dfy`, `CalloutHistory.dfy`, `CalloutScripts.dfy`, `CalloutWheel.dfy` | the callout facility: a plain list of timers against an unbounded clock, what holds of its whole runs, that its log keeps every call, and the hashed timing wheel with its wrapping 32-bit clock and shared cursor, which refines it |
| `Timers.dfy` | delays converted to ticks, what that means for a callout, interval timers |
| `TxPipeline.dfy` | burst table, network card, delayed-free ring: who owns a transmitted mbuf |
| `Rss.dfy` | Toeplitz hash, symmetric key, indirection table and its predictor |
| `Boot.dfy` | the sort, run and restart machine of system start-up |
| `RouteMessage.dfy`, `RouteReply.dfy` | sizing, writing and parsing routing messages; the reply to a request, written over the request whose addresses it still reads |
| `Uio.dfy`, `ZcMbuf.dfy` | scatter/gather moves, and the zero-copy mbuf chain writer |
| `Printf.dfy` | integer conversions of the kernel printf |
| `Bits.dfy`, `Common.dfy` | machine arithmetic and shared definitions |

How the models are built:

- What the C code changes in place is a class whose methods follow the code's branches. Intrusive
  lists and the handler's effects are sequences. A method's contract equates the new state with a
  function of the old one, and the lemmas are about that function.
- A callout handler is any finite sequence of `callout_reset` and `callout_stop` calls, on any
  callouts, its own included. It is chosen afresh for each invocation by a function of the handler,
  its argument and the number of earlier invocations (`Handlers`), so a theorem for all `Handlers`
  covers every behaviour. Locks do nothing in this port (`bsd/include/sys/mutex.h:57-88`), and both
  execution slots are kept although `softclock` only ever uses the direct one.
- The network card is modelled by its contract: a transmit burst accepts any prefix. `m_getm2`
  returns an empty chain with enough room; `SA_SIZE` and `ALIGN` round up to 8; the sizes of the
  routing headers are parameters. `SI_SUB_DUMMY`, `SI_SUB_DONE`, `UIO_MAXIOV` and the message types
  have the values of FreeBSD's headers, which are not part of this model, and so have the positions in the
  table of addresses;
  routing headers start as they do there: a 16-bit length, least significant byte first, then
  version and type.
- C integers are unbounded integers with the wrap-around written out (`Wrap32`, `% TWO32`,
  `% ULONG_RANGE`, `% TWO64`), and `int` clocks wrap as they do under `-fwrapv`.
- `hide` statements only keep proofs small; nothing is left unproved.

Where the code and what it promises differ:

- `callout_stop` documents -1 as "not scheduled and not executing". In every run, a callout that is
  executing and not pending gets -1 exactly when none of its armings so far had `C_DIRECT_EXEC`,
  and that is the only case in which -1 means anything else (`CalloutHistory.StopReports`;
  `CalloutHistory.RunningReportedIdle` is such a run).
- `tvtohz` clips at `INT_MAX` ticks, so a longer delay can end early: it is exceeded at every phase
  of the current tick exactly up to `INT_MAX` ticks, and at none exactly from one tick later on
  (`Timers.NeverEarly`, `Timers.FiresEarly`).
- `itimerdecr` on a running timer whose overshoot exceeds its interval leaves it below zero, where
  it counts on and never expires again (`Timers.BelowZero`, `Timers.NeverAgain`). No run of
  decrements of at most d does that exactly when the interval is at least d
  (`Timers.StaysPositive`); `itimerfix` keeps non-zero intervals at a tick or more.
- A set registered before start-up replaces the linked-in table once its first item has run.
  `Boot.LinkedStillRun` says exactly when all linked-in items run nevertheless, `Boot.LinkedLost`
  is a case in which one does not.
- A send that fails sets the burst table's length to zero, so packets waiting there are neither
  sent nor freed. A run loses nothing exactly when every failing send found the table empty
  (`TxPipeline.ForgetsNothing`, `TxPipeline.FailedSendForgets`).
- An address with a zero `sa_len` can be written but stops the parser
  (`RouteMessage.RoundTrip` gives the exact condition, `RouteMessage.EmptyAddressIsLost` an input).
- The reply to a routing request is written over the request while addresses are still taken from it.
  It parses back, whatever the route's addresses contain, exactly when each of these starts at or
  behind its place in the reply, or the reply needed larger storage (`RouteReply.InPlaceExactly`,
  `RouteReply.UpdateRtm`). `RouteReply.AuthorOverwritten` is a request for which it does not, and
  for which the writing pass needs 8 bytes more than the sizing pass, whose length alone is held
  against the caller's limit.
- `itimerfix` with a tick of a second or more produces a value that is not normalised
  (`Timers.ItimerFix` gives the exact condition, `Timers.TickOfASecond` an input).

## Model
| member | source | states |
|---|---|---|
| CalloutWheel.Wheel.Run | bsd/lib/lazybsd_kern_timeout.c:303-609 | over every run of ticks, resets and stops, with every handler behaviour, the wheel does exactly what the plain timer list does, and the handlers it has called, with their callouts and arguments, are those of the timer list's log, in the same order |
| CalloutWheel.Wheel.HardClock | bsd/lib/lazybsd_kern_timeout.c:1202-1207 | one tick of the wheel is one tick of the timer list, and afterwards `cc_softticks` has caught up with `ticks` |
| CalloutWheel.Wheel.CalloutTick | bsd/lib/lazybsd_kern_timeout.c:303-331 | skipping empty buckets by the signed clock difference loses no due callout |
| CalloutWheel.Wheel.Softclock | bsd/lib/lazybsd_kern_timeout.c:557-609 | walking the buckets serves every deadline below the clock in order, whatever the handlers do, and terminates |
| CalloutWheel.Wheel.WalkLoop | bsd/lib/lazybsd_kern_timeout.c:579-599 | although insertions send the cursor back to the head of the list, one pass fires every due callout of the bucket, newest first, and ends with none due |
| CalloutWheel.Wheel.CallCc | bsd/lib/lazybsd_kern_timeout.c:383-539 | a firing: the handler is called once with the callout's function and argument; after it the cursor is on the walked bucket's list or NULL, and nothing due lies before it |
| CalloutWheel.Wheel.CalloutReset | bsd/lib/lazybsd_kern_timeout.c:692-774 | replaces any pending arming by one for max(1, ticks) from now, keeps the cursor valid, and reports whether an arming was replaced |
| CalloutWheel.Wheel.CalloutStop | bsd/lib/lazybsd_kern_timeout.c:791-1009 | disarms, keeps the cursor valid, and returns what the timer list says it returns; the active flag is cleared exactly for a pending callout and for one seen executing |
| CalloutWheel.Wheel.constructor | bsd/lib/lazybsd_kern_timeout.c:224-295 | the wheel size is the power of two above `ncallout` and at most twice it; the wheel starts empty, possibly behind the clock |
| CalloutWheel.ChainFirstDue | bsd/lib/lazybsd_kern_timeout.c:579-598 | the first due callout of a bucket is the first due timer of the whole list |
| CalloutWheel.CursorUnlink | bsd/lib/lazybsd_kern_timeout.c:752-757 | taking any callout off any list leaves the cursor on its list with nothing due before it |
| CalloutWheel.Wheel.DueTest | bsd/lib/lazybsd_kern_timeout.c:584-586 | the equality test on wrapped clocks picks exactly the callouts whose unbounded deadline is being served |
| Bits.SignedLagTest | bsd/lib/lazybsd_kern_timeout.c:317-318 | the signed-difference test orders wrapped clocks correctly exactly while the lag is at most 2^31 |
| Bits.MaskedWrap | bsd/lib/lazybsd_kern_timeout.c:297-301 | the masked bucket index is that of the unbounded tick, across wrap-around |
| CalloutHistory.OneFateEach | bsd/lib/lazybsd_kern_timeout.c:350-370 | in every reachable state each arming is pending and not overdue, or was ended by exactly one later firing or cancellation of the same callout, never both |
| CalloutHistory.FiresExactlyOnTime | bsd/lib/lazybsd_kern_timeout.c:557-609 | an arming whose deadline has passed uncancelled has fired exactly once, with its function and argument, in the tick that first made the clock exceed its deadline |
| CalloutHistory.NeverEarlyNeverStopped | bsd/lib/lazybsd_kern_timeout.c:584-598 | nothing fires before its delay has passed, and a cancelled arming never fires, even when an earlier handler of the same tick cancelled it |
| CalloutHistory.FiresNewestFirst | bsd/lib/lazybsd_kern_timeout.c:365-369 | callouts with one deadline fire in the reverse of the order they were armed in |
| CalloutHistory.OpTouchesOne | bsd/lib/lazybsd_kern_timeout.c:752-768 | a reset or stop leaves every other callout's timer alone and its own callout with one timer or none |
| CalloutHistory.PendingIsActive | bsd/lib/lazybsd_kern_timeout.c:403-406 | in every reachable state a callout about to run is marked active, as the code asserts |
| CalloutHistory.ActiveExactly | bsd/lib/lazybsd_kern_timeout.c:861-866 | in every reachable state a callout is active exactly when it has an arming after which it was neither cancelled nor stopped while executing with some arming for direct execution; firing does not clear the flag, nor does a stop of an idle callout |
| CalloutHistory.ActiveInHandler | bsd/lib/lazybsd_kern_timeout.c:861-1006 | the same after each call a handler makes |
| CalloutHistory.StopReports | bsd/lib/lazybsd_kern_timeout.c:867-989 | for every stop of every run, inside handlers too, what it reports in terms of the history before it: -1 exactly when no arming was pending and the callout was not both executing and ever armed for direct execution; hence exactly when -1 is wrong |
| CalloutHistory.RunningReportedIdle | bsd/lib/lazybsd_kern_timeout.c:969-989 | a run of two ticks in which a handler stops its own executing callout and is told -1 |
| CalloutSpec.FireShrinks | bsd/lib/lazybsd_kern_timeout.c:765-768 | because a delay is at least one tick, a firing always leaves fewer callouts due in the pass |
| CalloutScripts.EveryCallIsKept | bsd/lib/lazybsd_kern_timeout.c:557-609 | over every run the clock has advanced by the ticks of the run, the log holds exactly the calls of the run, in order, and each handler invocation made exactly its calls, in order, and returned before the next |
| Timers.Tvtohz | bsd/lib/lazybsd_patch.c:526-580 | for microseconds up to a second in magnitude: the delay rounded up to ticks plus one, clipped at INT_MAX, whichever branch computes it and without overflow, and one tick for negative differences; for all others, in every branch, exactly when the unsigned sum wraps and what results |
| Timers.BranchesAgree | bsd/lib/lazybsd_patch.c:569-574 | the two arithmetic branches give the same ticks when hz ticks make a second |
| Timers.FiresAfter | bsd/lib/lazybsd_patch.c:535-552 | in every run a callout armed with `tvtohz` fires exactly its ticks plus one, less the phase of the current tick, later: more than the delay plus one tick and less than the delay plus three ticks when the delay was not clipped |
| Timers.NeverEarly | bsd/lib/lazybsd_patch.c:577-579 | it fires after more than the delay at every phase exactly for delays up to INT_MAX ticks, and at no phase exactly for delays from INT_MAX + 1 ticks on |
| Timers.FiresEarly | bsd/lib/lazybsd_patch.c:577-579 | a delay, tick length and phase at which a clipped callout fires early |
| Timers.Itimerval.Decr | bsd/lib/lazybsd_patch.c:396-424 | expired or not, what is left: the value less the decrement, plus the interval if it expired, zero without one; a timer not below zero is positive afterwards exactly when it did not expire or the overshoot is below the interval; below zero it counts as running |
| Timers.NoDrift | bsd/lib/lazybsd_patch.c:386-395 | over any run of decrements the remaining time is initial minus elapsed plus interval times expirations, and the number of expirations is exact |
| Timers.OneShot | bsd/lib/lazybsd_patch.c:416-423 | without an interval the timer counts down to zero and stays there |
| Timers.OneShotExpires | bsd/lib/lazybsd_patch.c:416-423 | it expires in the decrement that uses it up and in each one after that |
| Timers.Balance | bsd/lib/lazybsd_patch.c:396-424 | with an interval, whatever the decrements, what is left is the initial value less the time passed plus an interval for each expiration |
| Timers.BelowZero | bsd/lib/lazybsd_patch.c:399-411 | a timer below zero counts away from zero and never expires |
| Timers.StaysPositive | bsd/lib/lazybsd_patch.c:386-424 | all runs of decrements of at most d keep every running timer above zero exactly when the interval is at least d |
| Timers.NeverAgain | bsd/lib/lazybsd_patch.c:396-424 | a running timer that one decrement takes below zero: it expires once and never again, whatever follows |
| Timers.RunTimer | bsd/lib/lazybsd_patch.c:396-424 | repeated `itimerdecr` calls, whatever the value and interval, leave what the accounting functions say and report each expiration: without drift when no decrement exceeds the interval, down to zero without an interval |
| Timers.ItimerFix | bsd/lib/lazybsd_patch.c:369-384 | refuses exactly the negative or denormal values; the value otherwise, and exactly when it is normalised |
| Timers.TickOfASecond | bsd/lib/lazybsd_patch.c:369-384 | with a tick of one second, one microsecond is raised to a value that is not normalised |
| Timers.Timeval.Fix | bsd/lib/lazybsd_patch.c:449-460 | keeps the value, and normalises exactly when the microseconds were less than a second out of range |
| Timers.Timeval.Add | bsd/lib/lazybsd_patch.c:433-439 | the sum of two normalised values, normalised |
| Timers.Timeval.Sub | bsd/lib/lazybsd_patch.c:441-447 | the difference of two normalised values, normalised |
| TxPipeline.TxPort.Run | src/lazybsd_dpdk.cc:1693-1729 | over every run of sends, failing sends and drains, tables, ring and frees are those of the plain machine, for any counts the card accepts |
| TxPipeline.TxPort.Send | src/lazybsd_dpdk.cc:2585-2598 | a send adds one packet and flushes a full table |
| TxPipeline.TxPort.FailSend | src/lazybsd_dpdk.cc:2591-2597 | a failing send forgets whatever was in the table |
| TxPipeline.TxPort.DrainQueue | src/lazybsd_dpdk.cc:1787-1801 | a drain offers the whole table and leaves it empty |
| TxPipeline.TxPort.SendBurst | src/lazybsd_dpdk.cc:1709-1728 | the accepted prefix is logged in the ring in order and every refused mbuf is freed once |
| TxPipeline.TxRing.Enqueue | src/lazybsd_memory.cc:158-174 | a packet takes max(segs, 1) positions and its mbuf is recorded in the last of them; the 512-slot ring holds exactly what the unbounded descriptor log records in its last 512 positions, and has freed everything older, in log order |
| TxPipeline.Aging | src/lazybsd_memory.cc:161-171 | using a position frees exactly the mbuf recorded 512 positions before it, if there is one |
| TxPipeline.RingHolds | src/lazybsd_memory.h:80-86 | an mbuf is in a slot exactly when the log records it in the last 512 positions |
| TxPipeline.FreesInOrder | src/lazybsd_memory.cc:158-174 | mbufs are given back in the order the card accepted them, and those not yet given back are held |
| TxPipeline.PositionsExactly | src/lazybsd_memory.cc:158-174 | the log is as long as the sum of max(segs, 1); packet k's mbuf is recorded at the sum over the packets up to k, less one, and every other position is blank |
| TxPipeline.GivenBackExactly | src/lazybsd_memory.cc:158-174 | over every run, the mbuf of an accepted packet has been given back exactly when at least 512 descriptors were accepted after its last one |
| TxPipeline.StepMoves | src/lazybsd_dpdk.cc:2585-2598 | what each step does to the table and how many packets it offers: a send of the 32nd packet and every drain of a non-empty table offer all, and leave it empty; the card takes what it accepts of them |
| TxPipeline.FailedFrees | src/lazybsd_dpdk.cc:2591-2597 | the mbufs freed by failing sends are exactly theirs, in order |
| TxPipeline.RoomyCard | src/lazybsd_dpdk.cc:1709-1728 | a card that always has room refuses nothing |
| TxPipeline.LeaveInOrder | src/lazybsd_dpdk.cc:2591-2597 | packets leave the table in the order they were sent; the table is never full between calls |
| TxPipeline.Conservation | src/lazybsd_dpdk.cc:1709-1728 | every mbuf sent is in exactly one place: table, ring, given back, freed as refused, or forgotten |
| TxPipeline.ForgetsNothing | src/lazybsd_dpdk.cc:2591-2597 | a run forgets no mbuf exactly when every failing send found the table empty |
| TxPipeline.FailedSendForgets | src/lazybsd_dpdk.cc:2591-2597 | one waiting packet and a failing send is a run that loses the packet |
| Rss.ToeplitzHash | src/lazybsd_dpdk.cc:1906-1924 | the hash is the exclusive or, over the set data bits, of the 32-bit key windows at those bits, zero past the key's end, for all key and data lengths |
| Rss.ToeplitzLinear | src/lazybsd_dpdk.cc:1906-1924 | the hash of an exclusive or is the exclusive or of the hashes |
| Rss.ToeplitzOneBit | src/lazybsd_dpdk.cc:1906-1924 | data with a single set bit hashes to the 32 key bits that start at that bit, most significant first and zero past the key's end; with linearity this fixes every hash |
| Rss.SymmetricExactly | src/lazybsd_dpdk.cc:624-627 | a key hashes both directions of every flow alike exactly when 48 pairs of its windows agree |
| Rss.PeriodicKeyIsSymmetric | src/lazybsd_dpdk.cc:80-81 | every key that repeats every two bytes has that property |
| Rss.SymmetricKeyWorks | src/lazybsd_dpdk.cc:80-81 | the symmetric key, with either configured length, hashes both directions of every flow alike |
| Rss.DefaultKeysAreNot | src/lazybsd_dpdk.cc:73-78 | the two default keys do not |
| Rss.SetRssTable | src/lazybsd_dpdk.cc:519-540 | a table of max(1, size / 64) groups of 64, none without entries; every entry of every group holds its index modulo the number of queues, and every mask is full |
| Rss.PredictorAgrees | src/lazybsd_dpdk.cc:2756-2789 | for every number of queues, one included, the predictor accepts a queue exactly when the installed entry selected by the hash's low bits holds it |
| Rss.OneQueueClaimsAll | src/lazybsd_dpdk.cc:2762-2764 | with at most one queue every flow is claimed |
| Rss.LazybsdRssCheck | src/lazybsd_dpdk.cc:2756-2789 | which flows are claimed, in terms of the hash of addresses and ports in their order |
| Rss.OneQueueEach | src/lazybsd_dpdk.cc:2786-2788 | exactly one of the queues there are claims each flow, whatever its hash and the table's size: the hash's low bits modulo the number of queues |
| Rss.RepliesSameQueue | src/lazybsd_dpdk.cc:2756-2789 | with the symmetric key a queue claims a flow exactly when it claims its replies |
| Boot.Startup.MiStartup | bsd/lib/lazybsd_main.c:171-281 | start-up terminates; every item run was a least one among those registered and waiting; nothing waiting is left; with a table registered before, the first linked-in item and then that table's machine run |
| Boot.LinkedStillRun | bsd/lib/lazybsd_main.c:269-278 | with a table registered before start-up all linked-in items run exactly when there are none to run or each but the first is registered again |
| Boot.LinkedLost | bsd/lib/lazybsd_main.c:269-278 | two linked-in items and a table registered before: only the first and the table's item are run |
| Boot.RunsEachOnce | bsd/lib/lazybsd_main.c:228-269 | such a run calls exactly the items linked in or registered by an item that ran that are neither placeholder nor done, each once, over all restarts, duplicates included |
| Boot.RunsInOrder | bsd/lib/lazybsd_main.c:196-269 | an item that runs later and was known when an earlier one ran has no smaller subsystem, and no smaller order within the same |
| Boot.DisplacedRuns | bsd/lib/lazybsd_main.c:171-281 | with a table registered before: the least linked-in item runs, and besides it exactly the runnable items of that table and those registered by items that ran, each once |
| Boot.DisplacedInOrder | bsd/lib/lazybsd_main.c:171-281 | and these run in order of subsystem and order |
| Boot.Sort | bsd/lib/lazybsd_main.c:196-212 | the exchange sort orders the table by subsystem and order and permutes it |
| Boot.Startup.Traverse | bsd/lib/lazybsd_main.c:228-281 | a sweep runs the waiting items in order until another table is installed, by an item or from before, and a restart means less is waiting |
| Boot.Startup.SysinitAdd | bsd/lib/lazybsd_main.c:128-157 | the replacement table is the current or already replaced one followed by the set |
| RouteMessage.RtsockMsgBuffer | bsd/lib/lazybsd_route.c:731-841 | for pointers outside or into the message, which may be the buffer being written: the header is that of the message type, in the list form exactly for addresses and interfaces written to a list; the size and mask are those of the addresses read, each when its turn comes, which outside the buffer being written are those pointed to; writing succeeds exactly when the buffer holds that size, and then leaves length, version and type in its first four bytes, those addresses behind the header, and all other bytes as they were; a failed write leaves the header alone; no copy reads past the message |
| RouteMessage.CopyInside | bsd/lib/lazybsd_route.c:793-808 | an address that was overwritten and claims any length is still copied from inside the message whenever it fits |
| RouteMessage.RtXaddrs | bsd/lib/lazybsd_route.c:92-128 | the slots found in place are those of the parse function |
| RouteMessage.ParseExactly | bsd/lib/lazybsd_route.c:92-128 | slot by slot, what parsing finds: the slots of the mask's bits follow each other from the header on, each rounded up to 8 bytes, up to the limit or the first zero length; it fails exactly when an address exceeds the limit |
| RouteMessage.SlotsInside | bsd/lib/lazybsd_route.c:87-91 | for any message whatever, the addresses found lie inside it and are not empty |
| RouteMessage.WrittenParts | bsd/lib/lazybsd_route.c:783-833 | where length, version, type, old header bytes, addresses and untouched bytes are in a written message |
| RouteMessage.RoundTrip | bsd/lib/lazybsd_route.c:92-128 | parsing what was written never fails and recovers every slot and byte exactly when no address has a zero length |
| RouteMessage.EmptyAddressIsLost | bsd/lib/lazybsd_route.c:110-124 | one address of zero length is written and not recovered |
| RouteMessage.PresentBits | bsd/lib/lazybsd_route.c:786-793 | bit i of the mask is set exactly when address i is present |
| RouteReply.UpdateRtm | bsd/lib/lazybsd_route.c:934-999 | which addresses the table holds; exactly when the reply fails for lack of room or of an interface address; which addresses the writing pass reads, the sized ones if the storage grew or all are clear; the old type and the header behind the first four bytes survive, and the reply parses back exactly when the sized addresses were read and none is empty |
| RouteReply.FilledExactly | bsd/lib/lazybsd_route.c:949-972 | slot by slot, in terms of the route: destination, gateway, netmask, no genmask; interface, its address and the broadcast or point-to-point address exactly when one of the two interface bits asks for them, and when it fails for lack of an interface address |
| RouteReply.CarriesAll | bsd/lib/lazybsd_route.c:934-999 | a reply that parses back leads, slot by slot, to the route's destination, gateway and netmask and to what was asked of the interface, and for the rest to what the request held |
| RouteReply.InPlaceExactly | bsd/lib/lazybsd_route.c:783-808 | a reply written over its request parses back, for all contents of the route's addresses of given lengths, exactly when every address left in the request starts at or behind its place in the reply; the two passes then agree on the size |
| RouteReply.RewrittenExactly | bsd/lib/lazybsd_route.c:783-841 | for given contents it parses back exactly when every address was read as it was sized and none is empty |
| RouteReply.LeftInRequest | bsd/lib/lazybsd_route.c:949-972 | after the table is filled only the author and broadcast addresses are still in the request, where `rt_xaddrs` found them, whole, disjoint and in order |
| RouteReply.AuthorOverwritten | bsd/lib/lazybsd_route.c:974-999 | a request whose author is overwritten by the gateway: the reply is 8 bytes longer than was sized and does not parse back |
| Uio.Uio.Uiomove | bsd/lib/lazybsd_kern_subr.c:162-225 | moves exactly min(n, resid) bytes in address order, keeps `uio_resid` the sum of the remaining lengths, and leaves the vector advanced by n |
| Uio.AdvanceDrops | bsd/lib/lazybsd_kern_subr.c:179-220 | advancing by n uses up exactly the first n addresses, or all |
| Uio.AdvanceExactly | bsd/lib/lazybsd_kern_subr.c:179-220 | the vector left starts with the area that held the last byte moved, shortened by what was used of it, even to nothing |
| Uio.AddrsAt | bsd/lib/lazybsd_kern_subr.c:179-220 | byte i of area j comes after all bytes of the areas before it |
| Uio.MovedMeans | bsd/lib/lazybsd_kern_subr.c:192-212 | byte by byte, what a read does to the memory and a write to the buffer, and that neither does anything else |
| Uio.MoveComposes | bsd/lib/lazybsd_kern_subr.c:162-225 | two `uiomove` calls for a and b bytes leave vector, residual, offset, memory and buffers as one call for a + b bytes does, also when the vector runs out |
| Uio.ScatterGather | bsd/lib/lazybsd_kern_subr.c:192-212 | scattering and gathering back restores all data exactly when the addresses used do not overlap |
| Uio.ReadThenWrite | bsd/lib/lazybsd_kern_subr.c:162-225 | a read through one vector and a write through an equal one bring the data back exactly when scattering and gathering does, in particular when no addresses coincide, and touch nothing else |
| Uio.CopyInUio | bsd/lib/lazybsd_kern_subr.c:227-264 | refuses exactly too many areas or a total above INT_MAX, and otherwise establishes what `uiomove` relies on |
| ZcMbuf.ZcMbufGet | bsd/lib/lazybsd_veth.c:226-244 | sets the cursor at the start of an empty chain with room for the length asked for |
| ZcMbuf.ZcMbufWrite | bsd/lib/lazybsd_veth.c:245-276 | refuses exactly what exceeds the size asked for; otherwise appends all bytes, with mbufs full before the cursor and empty after it, and the cursor never NULL |
| ZcMbuf.CursorExactly | bsd/lib/lazybsd_veth.c:259-276 | the cursor stands at the mbuf that holds the last byte written, all before it are full and all after it empty |
| ZcMbuf.WriteEach | bsd/lib/lazybsd_veth.c:245-276 | a sequence of writes leaves the concatenation in the chain |
| ZcMbuf.WritesCompose | bsd/lib/lazybsd_veth.c:245-276 | the bytes written, in whatever pieces, determine every mbuf's contents and the cursor |
| ZcMbuf.FilledUnique | bsd/lib/lazybsd_veth.c:259-274 | capacities and byte count determine all lengths and the cursor |
| Printf.Ksprintn | bsd/lib/lazybsd_subr_prf.c:106-120 | read backwards the buffer is the usual notation of the number; at most 64 digits, so the buffer is never exceeded |
| Printf.DigitsReadBack | bsd/lib/lazybsd_subr_prf.c:112-116 | the digits denote the number in every base from 2 to 36 |
| Printf.DigitsInCase | bsd/lib/lazybsd_subr_prf.c:112-116 | they are digits of the base, letters in the case asked for, without needless zeros |
| Printf.PrintNumber | bsd/lib/lazybsd_subr_prf.c:468-511 | the loops print the field: blanks, sign, prefix, zeros, digits, blanks |
| Printf.FieldReadsBack | bsd/lib/lazybsd_subr_prf.c:468-511 | a reader gets the argument back, sign included, for every 64-bit value, base, width, precision and flags |
| Printf.FieldExactly | bsd/lib/lazybsd_subr_prf.c:468-511 | what is printed, in order, with each part spelt out: blanks or not, sign, `0` or `0x`, zeros for precision or zero flag, digits, blanks or not, and how many of each |
| Printf.FieldWidth | bsd/lib/lazybsd_subr_prf.c:483-488 | the exact width of the field, and how the zero flag replaces the precision |

## Left out
- CalloutWheel.Wheel.CalloutStop: does not model `CS_DRAIN` and asynchronous drain functions, whose waiting is stubbed out in this port; nor `CALLOUT_PROCESSED`, migration and locally allocated callouts, which nothing here sets.
- CalloutWheel.Wheel.Dequeue: the bucket lists are sequences, so the forward and backward links inside each callout are not modelled; removal finds the bucket from the callout's time, where the code uses the links.
- CalloutWheel.Wheel.CallCc: a handler only resets and stops callouts; calls from other threads cannot occur, since locks are no-ops and the port runs one thread per core.
- Timers.FiresAfter: clock step n is taken to happen exactly n ticks after the start; jitter of the timer behind the clock is not modelled.
- TxPipeline.TxPort.Run: one port; the drain loop repeats the same step per port. The dispatcher's `send_single_packet`, packet counters, pcap output and checksum offload are not modelled.
- Boot.Startup.MiStartup: one start-up, with `sysinit_add` called before it or from running items. Items are those of a finite universe, so finitely many are ever added.
- RouteMessage.RtsockMsgBuffer: does not model IPv6 scope recovery and the 32-bit compatibility headers.
- RouteMessage.RtXaddrs: does not model the embedding of scope ids into IPv6 addresses.
- RouteReply.UpdateRtm: does not model what `cleanup_xaddrs` does to the request before, how the route's addresses are computed, nor the header fields set after the write (flags, metrics, index, address mask); what `rtm_get_jailed` finds is a parameter.
- Rss.SetRssTable: ends before the table is handed to the driver.
- Uio.Uio.Uiomove: memory and buffer are two separate arrays, so a buffer overlapping an area is not modelled.
- ZcMbuf.ZcMbufWrite: the length written is that of the data, so never negative, and the sum with the offset does not overflow an `int`.
- Printf.PrintNumber: parsing of the format string, fetching of arguments, and the `%s`, `%c`, `%b`, `%D` and `%n` conversions.
- The page stack, port bitmap, hash-table helpers, configuration, sockets, ioctl and errno tables, logging and build scripts: easier, or plumbing.
