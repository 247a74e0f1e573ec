# Operating-systems course projects: a verified model

The repository holds course projects on paging, kernel semaphores, kernel messages and frame-buffer graphics. This
Dafny project models the parts of them that carry real algorithms, and proves what those parts promise.

**Page replacement (project5).** `opt`, `clock` and `nru` run a memory trace over a page table and a frame table,
counting faults and disk writes.

- `Trace.dfy` holds the trace lines and the decoder: the instruction letter and the access letter of a line stay in
  force until a later line overwrites them.
- `VirtualMemory.dfy` is the simulator as a machine over values, one function per step, for all three policies.
- `Simulator.dfy` is the simulator as the program runs it: mutable page-table entries, an array of frames, a hand and
  counters, updated in place. Every method states the step of the value machine it takes. `Runs.dfy` runs whole traces.
- `Oracle.dfy` has OPT's lists of future uses and `locateLongestDistancePage`.
- `Placement.dfy`, `Accounting.dfy`: what one line does to the frames, and what the counters and printed outcomes add
  up to over a run.
- `Schedules.dfy`, `Belady.dfy`: `opt` faults no more than any demand-paging schedule.
- `SecondChance.dfy`, `Conservative.dfy`: the clock as a second-chance queue; it is conservative, hence within a factor
  of the number of frames of any schedule.
- `MoreFrames.dfy`: more frames never make `opt` fault more.
- `Unserved.dfy`: lines that no branch serves can mislead `opt`, whose lists of future uses count them; the exact
  condition on the letter columns under which it is optimal all the same.

**Semaphores and traffic (project4).** `Semaphore.dfy` is a counting semaphore as a value, `KernelSemaphore.dfy` the
kernel's linked wait queue that implements it, and `SleepWake.dfy` the window between giving up the lock and giving up
the processor. `Traffic.dfy` interleaves the two producers and the flagperson statement by statement;
`Permits.dfy` and `TrafficInvariant.dfy` hold the invariant, `TrafficTheorems.dfy` what it gives for every run, and
`TrafficProgress.dfy` and `TrafficChoices.dfy` how the cars get through and how the flagperson chooses.

**The rest.** `Circle.dfy` is `draw_circle` (project1); `Mail.dfy` and `MessageList.dfy` are the message system calls
and the client's drain loop (project2); `SystemInfo.dfy` is the rescaling in `do_sysinfo` (project2). `Options.dfy`
declares the option type used throughout.

Reading notes:

- A block that the simulator repeats in its I, S, L and M branches is written once. The branches differ in one bit:
  `clock` leaves the reference bit of an evicted page set in the I and S branches and clears it in the L and M branches
  (project5/Simulate.java:381, 437, 492, 546), which `BitAfterEviction` follows.
- A schedule in the sense of `IsSchedule` starts empty, brings in only the page asked for, may drop pages at will, and
  serves every request. `Listed` asks for the page of every line; `opt` and `clock` are compared with all schedules that
  serve these, on every trace. `Served` asks only for the pages of lines that some branch of the simulator serves; the
  runs of the policies are themselves schedules for these. On traces in Lackey's format the two are the same
  (`LackeyLinesDemand`).
- `Gap` is a condition on the letter columns alone: two served lines `t` < `s`, the first of them with more than `n`
  served lines up to and including it, `n - 1` or more lines between them, and one of those served by no branch.
- A process of the traffic system that waits in a queue already stands behind the `down` that put it there; `Waits`
  keeps it from taking a step. Each C statement is one step; an `if` together with the assignments in its body is one
  step too, all of it being inside a region guarded by `mutex`.
- Integers are unbounded, except in `SystemInfo.dfy`, where words of a given width wrap around.

## Model

| member | source | states |
|---|---|---|
| Trace.LackeyLinesDemand | project5/Simulate.java:78-83 | after a first `I` line every later line of the Lackey format still runs the I branch, because the letter outlives its line; so every line is served and there is no gap |
| Trace.LetterOutlivesItsLine | project5/Simulate.java:16-17 | in each column, a letter stays in force until a later line has one in that column |
| Trace.BlankBeforeAnyLetter | project5/Simulate.java:16-17 | until the first line with a letter in a column, no letter of that column is in force |
| VirtualMemory.FarthestFrame | project5/Simulate.java:257-271 | OPT's victim is the lowest frame whose page is next used latest, a page never used again counting as latest |
| VirtualMemory.Sweep | project5/Simulate.java:344-365 | the sweep only clears bits, and stops one past a frame whose bit is clear |
| VirtualMemory.DemandKeepsWellFormed | project5/Simulate.java:95-125 | a demand leaves its page in a frame, no page in two frames, and the hand in range, whichever policy chose the victim |
| VirtualMemory.Step | project5/Simulate.java:77-242 | one trace line, with both its branches, keeps every page in at most one frame |
| Placement.StepEffect | project5/Simulate.java:94-239 | a line demands its page at most once even when two branches run, so it causes at most one fault and leaves its page resident |
| Placement.EvictionLeavesBit | project5/Simulate.java:329-559 | CLOCK leaves the reference bit of the page it evicts set if the I or S branch ran, and clear otherwise |
| Schedules.StepIsDemandPaging | project5/Simulate.java:329-559 | one line brings in at most the page it asks for, nothing if no branch demands it, and faults exactly when a branch demands an absent page |
| Schedules.RunIsSchedule | project5/Simulate.java:64-242 | on every trace the run of any policy is a demand-paging schedule for the lines some branch serves, with the same number of faults |
| Belady.VictimIsUsedLast | project5/Simulate.java:257-271 | if OPT's victim is listed again within a window, every resident page is |
| Belady.LeadStaysPaidFor | project5/Simulate.java:93-126 | at every line and for every horizon, the lead of any schedule in pages used before the horizon is at most the faults it has had more than OPT |
| Belady.OptIsOptimal | project5/Simulate.java:64-126 | Belady: on every trace `opt` faults no more than any demand-paging schedule in as many frames or fewer |
| Belady.LaterResidentMakesGap | project5/Simulate.java:57-59 | if some resident is not served before OPT's victim is, the letter columns have a gap there |
| Belady.OptIsOptimalWithoutGap | project5/Simulate.java:64-126 | without a gap `opt` faults no more than any schedule, in as many frames or fewer, that serves only the lines some branch serves |
| Belady.OptBeatsEveryPolicy | project5/Simulate.java:64-126 | without a gap `opt` faults no more than any of the three policies given no more frames |
| MoreFrames.MovesKeepNested | project5/Simulate.java:93-122 | one line keeps the residents of few frames that are listed again among those of more frames, and no more that are never listed again than there; a fault in more frames is one in few |
| MoreFrames.MoreFramesNeverHurt | project5/Simulate.java:64-126 | on every trace, also with lines no branch serves, more frames never make `opt` fault more |
| SecondChance.SweepIsSearch | project5/Simulate.java:342-365 | the sweep of the wrapping hand is the search of the second-chance queue that starts at the hand |
| SecondChance.SweepIsBounded | project5/Simulate.java:345-365 | a sweep looks at no more frames than there are referenced residents, and one more |
| SecondChance.ClockStepIsQueueStep | project5/Simulate.java:325-389 | one line of the array clock is one line of the second-chance queue |
| SecondChance.ClockIsQueueRun | project5/Simulate.java:301-561 | over a whole trace the array clock and the queue run in step, fault for fault |
| Conservative.EvictInWindow | project5/Simulate.java:344-384 | the search never settles on a page loaded in a window while a page not used in the window is queued |
| Conservative.ClockIsConservative | project5/Simulate.java:301-561 | in any stretch of the trace that uses at most as many pages as there are frames no page faults twice, so faults are at most the pages used |
| Conservative.ClockIsCompetitive | project5/Simulate.java:301-561 | on every trace `clock` faults at most nFrames times as often as any schedule in nFrames frames |
| Conservative.ClockAgainstOpt | project5/Simulate.java:329-389 | in faults, `opt` <= `clock` where there is no gap, and `clock` <= nFrames times `opt` where every line is served |
| Accounting.RunBalances | project5/Simulate.java:95-122 | faults = filled frames + evictions, and writes = evictions of dirty pages, as printed, throughout every run of each policy |
| Accounting.RunConservesDirt | project5/Simulate.java:105-117 | writes + dirty residents = the times a clean page was made dirty, which is at most the lines that store |
| Accounting.RunCountsAccesses | project5/Simulate.java:235-241 | memory accesses are the lines plus the lines run with the letter `M` in force |
| Accounting.DirtyIsStored | project5/Simulate.java:105-122 | in every run of each policy a resident page is dirty exactly if a line has stored to it since it came in |
| Accounting.RunPrints | project5/Simulate.java:93-239 | every line prints one outcome for each branch it runs: the first a hit, a fault with a frame free, or an eviction named after the dirty bit of the page that is gone; the second a hit |
| Accounting.ReferencedIsRecent | project5/Simulate.java:615-625 | in every run of `nru` a resident page is referenced exactly if it was asked for since the last reset, a reset coming before each line at which the accesses so far are a multiple of the refresh period |
| Accounting.NotRecentVictim | project5/Simulate.java:650-722 | NRU evicts a referenced page only if all residents are referenced, and then frame 0 whether clean or dirty; otherwise the lowest clean frame, else the highest dirty one |
| Unserved.GapMisleadsOpt | project5/Simulate.java:57-59 | wherever the letter columns have a gap, there are pages for them on which `opt` faults nFrames + 2 times and `clock` nFrames + 1 times |
| Unserved.OptimalExactlyWithoutGap | project5/Simulate.java:57-126 | whatever the pages, `opt` is optimal, and never loses to `clock`, if and only if the letter columns have no gap |
| Unserved.OptCanLoseToClock | project5/Simulate.java:57-59 | the shortest such trace: on five lines, in two frames, `opt` faults 4 times and `clock` 3 times |
| Oracle.OccurrencesAreUses | project5/Simulate.java:57-59 | a page's list holds exactly the lines that use it, in increasing order, each once |
| Oracle.FirstOccurrence | project5/Simulate.java:261-266 | the head of a page's list is its next use; the list is empty when there is none |
| Oracle.ForeseeTrace | project5/Simulate.java:44-60 | the first pass over the trace builds exactly these lists |
| Oracle.RemoveFirst | project5/Simulate.java:88 | removing the head of the current page's list removes exactly the current line and leaves the lists of the lines to come |
| Oracle.LocateLongestDistancePage | project5/Simulate.java:257-271 | the scan returns a resident page, and no resident is used later |
| Simulator.PageTableEntry.constructor | project5/PageTableEntry.java:11-17 | a new entry is invalid, clean, unreferenced and in no frame |
| Simulator.PageTableEntry.Copy | project5/PageTableEntry.java:19-25 | a copy agrees with the original in every field |
| Simulator.Simulation.constructor | project5/Simulate.java:26-37 | frame table and page table start empty and mutually inverse |
| Simulator.SwapRepresents | project5/Simulate.java:111-121 | after a swap the valid pages and the filled frames are still mutually inverse, and dirty and reference bits are as the machine over values says |
| Simulator.Simulation.Touch | project5/Simulate.java:89-91 | a line sets its page's reference bit and nothing else of the memory |
| Simulator.Simulation.FillFrame | project5/Simulate.java:98-102 | a fault with a free frame puts the page in the next frame and keeps the tables inverse |
| Simulator.Simulation.ReportEviction | project5/Simulate.java:107-112 | an eviction is printed as dirty or clean, and counted as a write exactly if dirty |
| Simulator.Simulation.Swap | project5/Simulate.java:104-121 | the page takes the victim's frame, the victim is valid, dirty and in a frame no more, and the tables stay inverse |
| Simulator.Simulation.TurnHand | project5/Simulate.java:344-365 | the loop ends with the hand and the bits where the sweep says, after as many inspections, at most nFrames + 1 |
| Simulator.Simulation.EvictByClock | project5/Simulate.java:342-384 | CLOCK's eviction on the mutable tables is that of the machine over values |
| Simulator.Simulation.EvictByOpt | project5/Simulate.java:103-122 | OPT's eviction on the mutable tables is that of the machine over values |
| Simulator.Simulation.ScanFrames | project5/Simulate.java:655-696 | one pass finds NRU's victim: its page if unreferenced and clean, else a copy of its entry |
| Simulator.Simulation.SwapCopy | project5/Simulate.java:702-721 | evicting through a copy of the entry has the effect of evicting the entry itself |
| Simulator.Simulation.EvictByNru | project5/Simulate.java:648-723 | NRU's eviction on the mutable tables is that of the machine over values |
| Simulator.Simulation.ResetReferenced | project5/Simulate.java:615-621 | the periodic reset clears the reference bits of exactly the resident pages |
| Simulator.Simulation.LineByOpt | project5/Simulate.java:77-241 | one line of `opt` on the mutable tables is one step of the machine over values, and leaves the lists right for the next |
| Simulator.Simulation.LineByClock | project5/Simulate.java:314-560 | one line of `clock` on the mutable tables is one step of the machine over values |
| Simulator.Simulation.LineByNru | project5/Simulate.java:615-1007 | one line of `nru` on the mutable tables is one step of the machine over values |
| Runs.RunOpt | project5/Simulate.java:12-247 | the statistics of `opt` are those of the machine over values and add up: an access a line and one more while `M` is in force, an outcome for each branch run, a fault for each outcome but hits, a write for each dirty eviction; no schedule in as many frames or fewer faults less |
| Runs.RunClock | project5/Simulate.java:274-569 | the statistics of `clock` are those of the machine over values and add up in the same way; its faults are at most nFrames times those of any schedule |
| Runs.RunNru | project5/Simulate.java:576-1014 | the statistics of `nru` are those of the machine over values and add up in the same way |
| Semaphore.DownTakesOrWaits | project4/sys.c:177-210 | a down takes a free permit, or queues its caller last when there is none |
| Semaphore.UpHandsOnOrFrees | project4/sys.c:212-232 | an up hands its permit to whoever waited longest, or frees it when nobody waits |
| Semaphore.WakesInOrder | project4/sys.c:177-232 | on every run value = init + ups - downs, and those that blocked are those woken followed by those queued, in order |
| Semaphore.BalancedForever | project4/sys.c:165-232 | queue length = max(0, -value) on all of a run exactly if the initial value is not negative |
| Semaphore.PermitsAreKept | project4/sys.c:177-232 | the downs let through number the smaller of all downs and init + ups |
| KernelSemaphore.SemaphoreStruct.constructor | project4/sys.c:165-175 | initialisation gives the value asked for and an empty queue |
| KernelSemaphore.SemaphoreStruct.DownLocked | project4/sys.c:177-208 | the linked-list down is the abstract down, queues and marks its caller exactly if the value was not positive, and keeps the tail the last node reachable from the head |
| KernelSemaphore.SemaphoreStruct.UpLocked | project4/sys.c:212-232 | the linked-list up is the abstract up, and makes runnable exactly whoever was queued first |
| SleepWake.ApplyKeepsConsistent | project4/sys.c:201-203 | between unlock and sleep the queue still holds exactly those marked interruptible |
| SleepWake.EnteringMayWait | project4/sys.c:177-203 | on every run a task that finds no permit is queued and marked, and one that finds a permit goes on |
| SleepWake.OnItsWay | project4/sys.c:188-203 | on every run a task is between unlock and sleep exactly if it found no permit and has not run `schedule` since |
| SleepWake.QueuedFallAsleep | project4/sys.c:201-203 | on every run a task still queued when it runs `schedule` leaves the processor, and one no longer queued does not |
| SleepWake.AsleepUntilWoken | project4/sys.c:201-226 | on every run a task off the processor takes no step until some `up` wakes it |
| SleepWake.NoWakeUpIsLost | project4/sys.c:201-226 | on every run whoever is off the processor is queued, and is back outside `down` once it is woken |
| SleepWake.WokenReturns | project4/sys.c:201-226 | on every run a task woken between unlock and sleep returns from its next `schedule` without sleeping, whatever the others do in between |
| Permits.ProducerKeepsEmpty | project4/trafficsim.c:41-68 | every producer statement keeps value(empty) = 24 - count - slots being filled - slots owed |
| Permits.ProducerKeepsMutex | project4/trafficsim.c:41-68 | every producer statement keeps value(mutex) = 1 - processes in or before a region, with only those queued |
| Permits.ProducerKeepsCum | project4/trafficsim.c:41-68 | every producer statement keeps value(cum_sem) = both counts - wake-ups owed - the token in use |
| Permits.FlagKeepsFull | project4/trafficsim.c:118-175 | every flagperson statement keeps value(full) = count - cars owed an up - the car being taken |
| Permits.FlagKeepsMutex | project4/trafficsim.c:118-175 | every flagperson statement keeps the mutex equation |
| TrafficInvariant.OnlyOneInside | project4/trafficsim.c:44-65 | the mutex equation and a queue without repetitions leave at most one process inside a region |
| TrafficInvariant.StoreKeepsUnread | project4/trafficsim.c:48-50 | a store lands inside the ring and on no car not yet read |
| TrafficInvariant.FlagKeepsLeft | project4/trafficsim.c:153-158 | the car read is the oldest one unread, and is the next announced |
| TrafficInvariant.NoCarWhileQuiet | project4/trafficsim.c:123-131 | while the next car has to honk, no wake-up is on its way and the flagperson sleeps |
| TrafficInvariant.SomebodyQueued | project4/trafficsim.c:131-148 | at every choice some car is queued and the direction in force is N or S |
| TrafficTheorems.MutualExclusion | project4/trafficsim.c:44-65 | in every reachable state at most one process is inside a region guarded by `mutex` |
| TrafficTheorems.CarsLeaveInOrder | project4/trafficsim.c:48-51 | in every reachable state what has left a direction is a prefix of what arrived, 0 <= count <= 24, and no car is lost in between |
| TrafficTheorems.StoresAreSafe | project4/trafficsim.c:48-50 | no reachable store is outside the ring or over an unread car |
| TrafficTheorems.CarNumbersAreUnique | project4/trafficsim.c:46-48 | car numbers increase along each direction, never occur in both, and lie between 1 and the total |
| TrafficTheorems.HonksAndSleepAlternate | project4/trafficsim.c:53-61 | honks and announcements of falling asleep strictly alternate in every run |
| TrafficChoices.TurnsExactlyWhen | project4/trafficsim.c:134-148 | in every run the flagperson turns exactly if the direction in force has no car queued or the other one has 8 or more, and the choice is logged with these counts |
| TrafficChoices.DirectionHolds | project4/trafficsim.c:53-148 | in every run the direction changes only at a choice or a honk |
| TrafficChoices.BlankBeforeHonk | project4/trafficsim.c:239 | before the first honk no direction is in force |
| TrafficChoices.HonkIsFromArrival | project4/trafficsim.c:46-56 | in every run a car honks exactly if it finds the flagperson asleep; the honk is that of the car just arrived, and its direction is then in force |
| TrafficChoices.HonkIsServed | project4/trafficsim.c:53-148 | the first choice after a honk starts from the honking direction, which has a car queued |
| TrafficChoices.SleepIsAnnounced | project4/trafficsim.c:121-131 | whenever the flagperson sleeps with nobody queued, sleep has been announced and the next car has to honk |
| TrafficChoices.QueueCanFill | project4/trafficsim.c:43-68 | some run has 24 cars of one direction queued and the producer of the next one waiting |
| TrafficTheorems.FlagpersonIsFair | project4/trafficsim.c:134-148 | the direction chosen has a car queued, and a direction with 8 or more queued that is passed over is chosen next |
| TrafficProgress.OneCarPerChoice | project4/trafficsim.c:134-175 | from one choice to the next exactly one car leaves, the oldest of the direction chosen first |
| TrafficProgress.LongQueueWaitsForOneCar | project4/trafficsim.c:134-175 | a direction with 8 or more queued that is passed over waits for exactly one car of the other direction, and then one of its own leaves |
| TrafficTheorems.FullIsOwed | project4/trafficsim.c:150-152 | if the flagperson waits for `full` holding `mutex`, that direction's producer has released `mutex`, waits for nothing and is about to raise `full` |
| TrafficTheorems.SleepsOnlyWhileEmpty | project4/trafficsim.c:121-131 | while the flagperson sleeps on `cum_sem` every queued car's producer is still to raise it |
| TrafficTheorems.NoDeadlock | project4/trafficsim.c:231-237 | in no reachable state do all three processes wait |
| TrafficProgress.StepLowersRank | project4/trafficsim.c:41-175 | every statement of any process either lets a car leave or lowers the bound on the statements left until one does |
| TrafficProgress.TrafficMoves | project4/trafficsim.c:41-175 | among any 541 consecutive statements of any run, whatever the schedule, a car leaves, and some process can always go on |
| Circle.StaysOnCourse | project1/library.c:146-168 | the loop keeps 2 t1 = 2 floor(r/16) + x^2 + x + y^2 + y - r^2 - r with 0 <= t1 < x |
| Circle.SmallRadii | project1/library.c:145-150 | a negative radius plots nothing and radius 0 the centre alone |
| Circle.OffsetsAreNear | project1/library.c:150-168 | every pixel (a, b) off the centre has (r-1)^2 <= a^2 + b^2 < (r+1)^2 |
| Circle.OffsetsAreSymmetric | project1/library.c:151-159 | the figure is closed under the eight symmetries of the square |
| Circle.FigureIsExact | project1/library.c:145-169 | a pixel is plotted exactly if its image (a, b) in the first octant, 0 <= b <= a, satisfies 0 <= 2 floor(r/16) + a^2 + a + b^2 + b - r^2 - r < 2a |
| Circle.FigureIsConnected | project1/library.c:150-169 | between any two pixels of the figure one can walk from neighbour to neighbour inside it |
| Circle.Canvas.DrawCircle | project1/library.c:145-170 | the loop paints exactly the figure around the centre and changes no other pixel |
| Mail.TakePops | project2/sys.c:203-249 | taking a user's first message pops that user's stack and leaves every other user's alone |
| Mail.UsersAreIndependent | project2/sys.c:162-260 | after any calls the one shared list holds for each user the stack that user's calls alone would have built |
| Mail.NothingIsLost | project2/sys.c:162-260 | after any calls every message has been taken or is still pending as often as it was sent |
| Mail.SentIsReceived | project2/sys.c:162-260 | with buffers large enough, a `get` right after a `send` returns exactly the text and the sender sent, and the list is as before |
| MessageList.MessageQueue.SendMsg | project2/sys.c:162-180 | a null argument is refused and changes nothing; otherwise the message becomes the first of the list |
| MessageList.MessageQueue.Splice | project2/sys.c:222-234 | splicing at the head or behind a node removes that node and keeps all others in order |
| MessageList.MessageQueue.GetMsg | project2/sys.c:195-260 | the first message for the user is removed, and its text and its sender are delivered, each as far as its buffer reaches; -1 exactly if there is none, 1 exactly if another one is left |
| MessageList.Receive | project2/osmsg.c:20-37 | seen by its caller, the call delivers text and sender of the first of the caller's own messages and pops it |
| MessageList.ReceiveMessages | project2/osmsg.c:20-37 | the client prints text and sender of every pending message of the user exactly once, newest first, and leaves all others in their order |
| SystemInfo.SumWraps | project2/sys.c:2690-2692 | the sum has wrapped exactly if it is smaller than an operand |
| SystemInfo.DoublingWraps | project2/sys.c:2698-2701 | a doubling has wrapped exactly if the result is smaller than before |
| SystemInfo.CountShifts | project2/sys.c:2690-2702 | the loop gives up exactly if (totalram + totalswap) * 2^floor(log2 mem_unit) does not fit a word |
| SystemInfo.ShiftsAreExact | project2/sys.c:2711-2719 | where all memory fits and no part exceeds it, no field wraps when shifted |
| SystemInfo.MeaningKept | project2/sys.c:2711-2719 | a size keeps its meaning in bytes exactly if it is zero or mem_unit is a power of two |
| SystemInfo.SysInfo.Rescale | project2/sys.c:2690-2722 | the structure is rescaled exactly if all memory in bytes fits, and otherwise left alone; each of the eight sizes is then multiplied by mem_unit where that is a power of two and no part exceeds all memory |

## Left out

- project3: sockets, files, forking and threads.
- Reading trace files, decoding hexadecimal addresses, header lines and printing of headings: a trace is a sequence of lines, and what is printed per demand is the list of outcomes.
- The hash tables of the simulator: the page table is a sequence of entries indexed by page, since its keys are all pages from the start.
- Simulator.Simulation.SwapCopy: puts NRU's copied entry into the table before clearing it rather than after, which no statement in between can see.
- Conservative.ClockAgainstOpt: the factor against `opt` itself is stated where every line is served; elsewhere `opt` need not serve the lines that set CLOCK's reference bits, and `ClockIsCompetitive` bounds `clock` by the schedules that do serve them.
- A refresh period for NRU that is always met: accesses grow by 2 on an `M` line, so a multiple of the period can be skipped; no promise about it is stated.
- Frame counts and refresh periods below 1, which end in an exception in the original.
- Allocation failure and signals in the semaphore and message calls, and concurrent message calls.
- Starvation in the traffic system: that a car leaves every so often is proved, but a direction with fewer than 8 cars queued can be passed over for as long as the other one is never empty.
- Sleeping, time stamps, random pauses and the layout of the shared memory in the traffic system; its counters are unbounded.
- The bytes behind a copied-out message: a delivery is the text cut off at the buffer's length, and texts of 256 bytes or more are not modelled.
- Mapping the frame buffer: pixels outside the screen are painted like any other.
- Text and rectangle drawing, fonts and terminal setup, and the rest of both kernel files.
