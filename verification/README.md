# Verification of the Nios II HAL, the JTAG UART driver, the sprite converter and the VGA timing

A Dafny model of the parts of the repository that other parts silently rely on, with proofs of
what they promise. `dafny verify dfyconfig.toml` checks everything.

**JTAG UART driver** (`Ring`, `UartMachine`, `UartSafety`, `UartTheorems`, `UartLiveness`, `UartExact`,
`UartWaiting`, `UartInterrupts`, `UartDriver`). Two ring buffers are shared by one thread and an
interrupt routine. `UartMachine` is a step system: write, read and close advance one statement at a
time, every byte of a copy is a statement, and between two statements interrupts, host checks and
arrivals may happen. `UartSafety` gives the invariant and a rely relation for interrupts,
`UartTheorems` the promises over all runs, and `UartLiveness` how many interrupts a waiting call
needs. `UartExact` and `UartInterrupts` say how much each call and each interrupt moves, and
`UartWaiting` when a call gives up. `UartDriver` is the code: a class over arrays whose every
execution, preempted anywhere, is a run of the step system.

**Alarms** (`AlarmTime`, `AlarmScheduler`, `AlarmRuns`, `AlarmWalk`). `AlarmTime` proves that a 32-bit
deadline with a one-bit rollover flag keeps the time of an unbounded clock. `AlarmScheduler` is the
circular doubly linked list with real `next` and `previous` fields, and the tick that walks it while
alarms unlink themselves. `AlarmRuns` follows one alarm over a whole run of ticks. `AlarmWalk` is the
same walk on links as functions, where it may also fail to end: callbacks there stop any alarms.

**Sprite conversion** (`Colours`, `ColourReduction`, `ColourExact`, `Palette`, `SpriteChunks`,
`SpritePipeline`). Greedy colour reduction and its minimality, the in-place palette rewrite and its
exact correctness condition, and the image cut into subtables with the generated selector chain, each
alone and all in a row.

**File descriptors** (`FdModel`, `FdSafety`, `FdExact`, `FdTable`). Allocation, locking, redirection and
undo as functions on a pool, invariants over runs of calls, the effect of each call to the bit, and the
loops over the table as a class.

**Integer printers** (`Digits`, `PrintfModel`, `PrintfProof`, `PrintfMeaning`, `Printers`). The state
machine of the logging printf against a reference that renders a format from its structure (a subset of
section 7.19.6.1 of C99), what a reader sees of each directive, and the division and shift digit
generators against positional notation.

**Interrupt dispatch** (`Interrupts`, `InterruptHistory`). Registration, the dispatch loop and handlers
that let others interrupt them, over programs of any nesting depth; which handler and context each call
goes to; and exactly when nesting follows the priorities.

**Time of day** (`TimeOfDay`), **break and slab allocators with the profiler's call graph** (`HeapModel`,
`HeapSafety`, `HeapProfiler`), **VGA timing** (`VgaTiming`). `Words` and `Wrappers` hold what several of
them need.

## Findings

Where the code does not do what its comments or its callers expect, it is modelled as it is, with an
input that shows it and the exact condition under which the expectation is met.

| finding | input | condition |
|---|---|---|
| a delay of 2^32-1 ticks goes off at once | `AlarmTime.LongestDelayAtBoot` | `AlarmTime.FirstFiringIsExactUnless` |
| a callback that stops the next alarm, or an alarm that is started twice, keeps a tick from ending | `AlarmWalk.StoppingNextSticks`, `AlarmWalk.StartedTwiceNeverEnds` | `AlarmWalk.WalkEndsExactlyWhen`, `AlarmWalk.StartKeepsListExactlyWhen` |
| a lock for exclusive use is granted while the descriptor at the high-water mark is open on the same device (the scan uses `<` where open uses `<=`) | `FdSafety.SharedLock` | `FdSafety.GrantIsSoleUseExactlyWhen` |
| closing a locked descriptor 0, 1 or 2 leaves the lock in force, and the device cannot be opened again | `FdSafety.ClosedStillLocked` | `FdSafety.CloseUnlocksExactlyWhen` |
| the palette rewrite overwrites cells twice | `Palette.BlackAfterAnotherColour` | `Palette.RewriteIsRightExactlyWhen` |
| setting the time multiplies in 32 bits and reading it in 64 | `TimeOfDay.LateSettingIsOff` | `TimeOfDay.SetTimeIsReadBackExactlyWhen` |
| the reading of the clock runs backwards | `TimeOfDay.OneTickASecond` | `TimeOfDay.NeverBackwardsExactlyWhen` |
| a registration in or above an interruptible handler takes its priority away | `Interrupts.HandlerRunsOnTopOfItself`, `Interrupts.PriorityLostFromAbove` | `Interrupts.NestingFollowsPriorityExactlyWhen` |
| the profiler does not test for an exhausted heap and writes its nodes to the failure address | `HeapSafety.SmallHeapFailsAtOnce` | `HeapSafety.MemoryHoldsExactlyWhen` |
| the new end of the heap is added up in 32 bits and only its result is compared | `HeapSafety.HugeRequestWraps` | `HeapSafety.RequestIsSoundExactlyWhen` |
| a write of no bytes returns the error for no progress | `UartTheorems.EmptyWriteReturnsError` | `UartTheorems.WriteFailsExactlyWhen`, `UartLiveness.WriteIntoRoomFailsExactlyWhen` |

## Model

Each row names a member, the lines it models, and what its contract states.

| member | source | states |
|---|---|---|
| UartTheorems.TransmitInOrder | software/final_app_bsp/drivers/src/altera_avalon_jtag_uart_write.c:98-215 | over every interleaving of driver statements with interrupts, arrivals and host checks: bytes sent, then bytes still in the transmit ring, are the accepted prefixes of all writes in order; every call returns the exact count; the ring never holds more than its length minus one; no copy passes the end of a buffer |
| UartTheorems.ReceiveInOrder | software/final_app_bsp/drivers/src/altera_avalon_jtag_uart_read.c:115-142 | over every interleaving: bytes taken from the hardware are the bytes readers got, then the bytes of a read in progress, then the receive ring, in order; none is lost or overwritten |
| UartTheorems.NobodyWaitsAsleep | software/final_app_bsp/drivers/src/altera_avalon_jtag_uart_init.c:156-194 | no lost wake-up: data waiting with no write in progress, a writer spinning on a full ring, and a reader with nothing read and an empty ring each have their interrupt enabled in the control register; with no read in progress receiving is off only when the ring is full |
| UartTheorems.SpinTestsAreExact | software/final_app_bsp/drivers/src/altera_avalon_jtag_uart_write.c:178-184 | the test of an unchanged index in the spin loops holds exactly when the ring is still full (writer) or still empty (reader), although indices wrap |
| UartTheorems.PassSends | software/final_app_bsp/drivers/src/altera_avalon_jtag_uart_init.c:169-184 | a pass that finds room in the hardware always shortens a non-empty transmit ring |
| UartTheorems.PassReceives | software/final_app_bsp/drivers/src/altera_avalon_jtag_uart_init.c:125-154 | a pass that finds a byte in the hardware always lengthens a receive ring that has room |
| UartTheorems.RxDrainGrows | software/final_app_bsp/drivers/src/altera_avalon_jtag_uart_init.c:132-154 | the inner receive loop stores at least one byte when there is one and the ring has room |
| UartTheorems.InterruptReleasesWriter | software/final_app_bsp/drivers/src/altera_avalon_jtag_uart_write.c:178-189 | one interrupt with room in the hardware ends the wait of a writer and leaves it at least one free cell, whatever other interrupts follow |
| UartTheorems.InterruptReleasesReader | software/final_app_bsp/drivers/src/altera_avalon_jtag_uart_read.c:172-178 | one interrupt that finds a byte ends the wait of a reader with data to read, whatever other interrupts follow |
| UartTheorems.CloseDrains | software/final_app_bsp/drivers/src/altera_avalon_jtag_uart_init.c:241-254 | a close that returns 0 means that every accepted byte has been sent, or that the host is given up |
| UartTheorems.EmptyWriteIsRefused | software/final_app_bsp/drivers/src/altera_avalon_jtag_uart_write.c:199-214 | in every run each logged write of no bytes returned the error for no progress |
| UartTheorems.EmptyWriteReturnsError | software/final_app_bsp/drivers/src/altera_avalon_jtag_uart_write.c:199-214 | the shortest run that shows it |
| UartTheorems.WriteFailsExactlyWhen | software/final_app_bsp/drivers/src/altera_avalon_jtag_uart_write.c:199-214 | when a write returns, its result is negative if and only if it published no byte, and if and only if the accepted bytes are what they were |
| UartLiveness.WriteIntoRoomFailsExactlyWhen | software/final_app_bsp/drivers/src/altera_avalon_jtag_uart_write.c:98-215 | a write that is called with room in the ring fails if and only if it has no data, in either mode, with any interrupts and with or without a host |
| UartLiveness.WriteIsOver | software/final_app_bsp/drivers/src/altera_avalon_jtag_uart_write.c:100-191 | with the host there, a blocking write of n bytes is over after n interrupts that find room in the hardware, from wherever it stands, with any other events in between; everything has been written |
| UartLiveness.RoundAdvances | software/final_app_bsp/drivers/src/altera_avalon_jtag_uart_write.c:100-191 | each such interrupt, with time for the thread, publishes at least one byte, and returns if it was the last |
| UartLiveness.WriteStepAdvances | software/final_app_bsp/drivers/src/altera_avalon_jtag_uart_write.c:100-191 | with room in the ring every statement of the thread brings the next published byte, or the return, nearer |
| UartLiveness.WriteAdvances | software/final_app_bsp/drivers/src/altera_avalon_jtag_uart_write.c:100-191 | and no interrupt, host check or arrival in between sets it back |
| UartLiveness.ReadIsOver | software/final_app_bsp/drivers/src/altera_avalon_jtag_uart_read.c:115-202 | with the host there, a blocking read is over after one interrupt that finds a byte, from wherever it stands, with any other events in between; it returns at least one byte and no more than asked for |
| UartLiveness.ReadStepAdvances | software/final_app_bsp/drivers/src/altera_avalon_jtag_uart_read.c:115-202 | with a byte in the ring, or in hand, every statement of the thread brings the return nearer |
| UartExact.ReadTakesWhatIsThere | software/final_app_bsp/drivers/src/altera_avalon_jtag_uart_read.c:115-142 | a read, in either mode and with any interrupts, returns at least the min(space, n) bytes that the ring held when it was called, and these first; with what is left in the ring nothing is passed over |
| UartExact.NonblockingReadFailsExactlyWhen | software/final_app_bsp/drivers/src/altera_avalon_jtag_uart_read.c:115-202 | a non-blocking read fails if and only if it has no space or the ring was empty when it first looked |
| UartExact.WriteTakesWhatFits | software/final_app_bsp/drivers/src/altera_avalon_jtag_uart_write.c:103-127 | a write, in either mode and with any interrupts, accepts at least as many bytes as the ring had room for when it was called |
| UartWaiting.BlockingReadReturnsData | software/final_app_bsp/drivers/src/altera_avalon_jtag_uart_read.c:115-202 | while the host is there a blocking read returns with data or not at all |
| UartWaiting.BlockingWriteWritesAll | software/final_app_bsp/drivers/src/altera_avalon_jtag_uart_write.c:98-215 | while the host is there a blocking write returns with everything written or not at all |
| UartWaiting.WriteIsOverWithoutHost | software/final_app_bsp/drivers/src/altera_avalon_jtag_uart_write.c:183-188 | once the host is given up a write of n bytes is over after a number of statements bounded by n and the ring length, whatever the hardware does |
| UartWaiting.ReadIsOverWithoutHost | software/final_app_bsp/drivers/src/altera_avalon_jtag_uart_read.c:173-178 | once the host is given up a read is over after a bounded number of statements, whatever the hardware does |
| UartWaiting.CloseAnswers | software/final_app_bsp/drivers/src/altera_avalon_jtag_uart_init.c:241-254 | close succeeds if the ring is empty or the host given up; otherwise it is refused in non-blocking mode and looks again in blocking mode |
| UartInterrupts.TxDrainSends | software/final_app_bsp/drivers/src/altera_avalon_jtag_uart_init.c:174-184 | the transmit loop sends the oldest min(space, n) bytes of the ring, in order |
| UartInterrupts.TxPassSends | software/final_app_bsp/drivers/src/altera_avalon_jtag_uart_init.c:169-195 | after these bytes the transmit interrupt goes off if and only if the hardware could have taken more |
| UartInterrupts.IsrSends | software/final_app_bsp/drivers/src/altera_avalon_jtag_uart_init.c:117-196 | an interrupt goes on as long as something is pending: it sends as much as all its passes find room for |
| UartInterrupts.RxDrainTakes | software/final_app_bsp/drivers/src/altera_avalon_jtag_uart_init.c:132-154 | the receive loop takes bytes in the order of their arrival and ends with the ring full or the hardware empty; it reports more exactly when some are left, or when it made no read at all |
| UartInterrupts.RxPassTakes | software/final_app_bsp/drivers/src/altera_avalon_jtag_uart_init.c:125-167 | after a pass the ring is full or the hardware empty, and the receive interrupt goes off if and only if the ring is full with bytes left, or nothing could be taken at all |
| UartInterrupts.HostCheckCounts | software/final_app_bsp/drivers/src/altera_avalon_jtag_uart_init.c:203-225 | after k seconds without a sign of the host the counter stands at k, up to INT_MAX - 2; one sign sets it to zero and restores the control register |
| UartSafety.ApplyKeepsInv | software/final_app_bsp/drivers/src/altera_avalon_jtag_uart_write.c:98-215 | the driver invariant (both rings are FIFOs, wake-ups, honest results, locals consistent with a concurrent interrupt routine) survives every single event |
| UartSafety.RunKeepsInv | software/final_app_bsp/drivers/src/altera_avalon_jtag_uart_init.c:66-254 | the invariant holds after every finite run from initialisation |
| UartSafety.WriteKeepsInv | software/final_app_bsp/drivers/src/altera_avalon_jtag_uart_write.c:98-215 | every statement of write keeps the invariant |
| UartSafety.ReadKeepsInv | software/final_app_bsp/drivers/src/altera_avalon_jtag_uart_read.c:115-203 | every statement of read keeps the invariant |
| UartSafety.PublishInOrder | software/final_app_bsp/drivers/src/altera_avalon_jtag_uart_write.c:122-126 | advancing the producer index appends exactly the copied bytes to the ring |
| UartSafety.ReleaseInOrder | software/final_app_bsp/drivers/src/altera_avalon_jtag_uart_read.c:136-140 | advancing the consumer index removes exactly the copied bytes from the ring |
| UartSafety.CopyKeepsInv | software/final_app_bsp/drivers/src/altera_avalon_jtag_uart_write.c:122 | bytes copied ahead of the producer index are invisible until published, and stay inside the buffer |
| UartSafety.IsrRely | software/final_app_bsp/drivers/src/altera_avalon_jtag_uart_init.c:110-197 | seen from the thread, a whole interrupt only drains the transmit ring from its old end, fills the receive ring at its new end, and disables an interrupt only when it has nothing left to do |
| UartSafety.OnePassRely | software/final_app_bsp/drivers/src/altera_avalon_jtag_uart_init.c:117-196 | the same guarantee for one pass of the outer loop |
| UartSafety.RxDrainStops | software/final_app_bsp/drivers/src/altera_avalon_jtag_uart_init.c:132-154 | the receive loop ends with data announced only when the ring is full |
| UartSafety.TxDrainStops | software/final_app_bsp/drivers/src/altera_avalon_jtag_uart_init.c:174-184 | the transmit loop ends with hardware space left only when the ring is empty |
| UartSafety.RelyKeepsInv | software/final_app_bsp/drivers/src/altera_avalon_jtag_uart_init.c:110-197 | anything within that guarantee keeps the invariant at every statement of the thread |
| Ring.FullIffNextIsOut | software/final_app_bsp/drivers/src/altera_avalon_jtag_uart_init.c:137-139 | the test (in + 1) mod length == out is true exactly of a ring that holds length minus one elements |
| Ring.PushMany | software/final_app_bsp/drivers/src/altera_avalon_jtag_uart_write.c:126 | publishing n contiguous cells, with wrap-around, appends them to the contents |
| Ring.PopMany | software/final_app_bsp/drivers/src/altera_avalon_jtag_uart_read.c:140 | releasing n contiguous cells, with wrap-around, drops the n oldest elements |
| Ring.StoreIsInvisible | software/final_app_bsp/drivers/src/altera_avalon_jtag_uart_write.c:122 | a store to a free cell does not change the contents |
| UartDriver.JtagUart.constructor | software/final_app_bsp/drivers/src/altera_avalon_jtag_uart_init.c:66-97 | initialisation yields empty rings with receive interrupts on, the start of every run |
| UartDriver.JtagUart.OnlySafeStates | software/final_app_bsp/drivers/src/altera_avalon_jtag_uart_init.c:66-254 | whatever the code below has executed, the object is in a state the step system reaches, so the invariant holds of it |
| UartDriver.JtagUart.Irq | software/final_app_bsp/drivers/src/altera_avalon_jtag_uart_init.c:110-197 | the loop over the arrays has the effect of the interrupt routine of the step system |
| UartDriver.JtagUart.Receive | software/final_app_bsp/drivers/src/altera_avalon_jtag_uart_init.c:125-167 | the receive half of a pass |
| UartDriver.JtagUart.ReceiveByte | software/final_app_bsp/drivers/src/altera_avalon_jtag_uart_init.c:144-150 | one byte moves from the head of the hardware FIFO to the new end of the ring |
| UartDriver.JtagUart.Transmit | software/final_app_bsp/drivers/src/altera_avalon_jtag_uart_init.c:169-195 | the transmit half of a pass |
| UartDriver.JtagUart.TransmitByte | software/final_app_bsp/drivers/src/altera_avalon_jtag_uart_init.c:176-178 | the oldest byte of the ring goes to the data register |
| UartDriver.JtagUart.Timeout | software/final_app_bsp/drivers/src/altera_avalon_jtag_uart_init.c:203-225 | the host check: activity rewrites the control register and resets the counter, otherwise the counter rises without overflow |
| UartDriver.JtagUart.Preempt | software/final_app_bsp/drivers/src/altera_avalon_jtag_uart_init.c:110-197 | any finite number of interrupts and arrivals between two statements leaves the thread where it was |
| UartDriver.JtagUart.FreeCells | software/final_app_bsp/drivers/src/altera_avalon_jtag_uart_write.c:106-120 | two separate loads of the indices with interrupts between them give the smaller of the data left and of the contiguous free cells |
| UartDriver.JtagUart.CopyIn | software/final_app_bsp/drivers/src/altera_avalon_jtag_uart_write.c:122 | the copy, preempted between any two bytes, puts all n bytes in place |
| UartDriver.JtagUart.Publish | software/final_app_bsp/drivers/src/altera_avalon_jtag_uart_write.c:123-126 | pointer, count and index advance together |
| UartDriver.JtagUart.Fill | software/final_app_bsp/drivers/src/altera_avalon_jtag_uart_write.c:103-127 | the inner loop ends with the data used up, or with the ring full at the last look |
| UartDriver.JtagUart.EnableWe | software/final_app_bsp/drivers/src/altera_avalon_jtag_uart_write.c:136-139 | the transmit interrupt is enabled with interrupts masked |
| UartDriver.JtagUart.AwaitRoom | software/final_app_bsp/drivers/src/altera_avalon_jtag_uart_write.c:183-184 | the spin ends when a byte was taken or the host is inactive |
| UartDriver.JtagUart.HostGone | software/final_app_bsp/drivers/src/altera_avalon_jtag_uart_write.c:187-188 | an inactive host ends the write |
| UartDriver.JtagUart.WriteResult | software/final_app_bsp/drivers/src/altera_avalon_jtag_uart_write.c:199-214 | the call is logged with its data and the value it returns |
| UartDriver.JtagUart.Write | software/final_app_bsp/drivers/src/altera_avalon_jtag_uart_write.c:83-215 | the whole routine, preempted anywhere, is a run of the step system that ends with one logged call, or is still waiting; it accepts at least what the ring had room for when it was called |
| UartDriver.JtagUart.StoredCells | software/final_app_bsp/drivers/src/altera_avalon_jtag_uart_read.c:122-134 | the smaller of the space left and of the bytes that are stored without a wrap, from the index that was loaded to the one that interrupts last published |
| UartDriver.JtagUart.CopyOut | software/final_app_bsp/drivers/src/altera_avalon_jtag_uart_read.c:136 | the copy, preempted between any two bytes, gives the caller the oldest n bytes and leaves the rest of the buffer alone |
| UartDriver.JtagUart.Release | software/final_app_bsp/drivers/src/altera_avalon_jtag_uart_read.c:137-140 | pointer, space and index advance together |
| UartDriver.JtagUart.Drain | software/final_app_bsp/drivers/src/altera_avalon_jtag_uart_read.c:120-142 | the inner loop ends with the space used up or the ring empty at the last look, and with at least what the ring held when the read was called, as far as there is space |
| UartDriver.JtagUart.AwaitByte | software/final_app_bsp/drivers/src/altera_avalon_jtag_uart_read.c:173-174 | the spin ends when a byte arrived or the host is inactive |
| UartDriver.JtagUart.StillEmpty | software/final_app_bsp/drivers/src/altera_avalon_jtag_uart_read.c:177-178 | an unchanged index ends the read |
| UartDriver.JtagUart.Collect | software/final_app_bsp/drivers/src/altera_avalon_jtag_uart_read.c:115-180 | the outer loop ends with bytes, or without them if the call may not wait, has no space, or the ring is still empty after the wait |
| UartDriver.JtagUart.ReadResult | software/final_app_bsp/drivers/src/altera_avalon_jtag_uart_read.c:188-202 | receive interrupts are enabled when something was consumed; the count or the error is returned |
| UartDriver.JtagUart.Read | software/final_app_bsp/drivers/src/altera_avalon_jtag_uart_read.c:100-203 | the whole routine, preempted anywhere: the buffer starts with the bytes that the ring held when it was called, as far as there is space, and holds exactly the bytes delivered; its rest is unchanged, the call is logged, and a non-blocking call fails if and only if it had no space or saw an empty ring |
| UartDriver.JtagUart.Drained | software/final_app_bsp/drivers/src/altera_avalon_jtag_uart_init.c:247 | a drained ring ends the close with success |
| UartDriver.JtagUart.GivesHostUp | software/final_app_bsp/drivers/src/altera_avalon_jtag_uart_init.c:247 | an inactive host ends the close with success |
| UartDriver.JtagUart.WillNotWait | software/final_app_bsp/drivers/src/altera_avalon_jtag_uart_init.c:248-250 | in non-blocking mode the close is refused |
| UartDriver.JtagUart.Close | software/final_app_bsp/drivers/src/altera_avalon_jtag_uart_init.c:241-254 | close waits for the ring to drain or the host to be given up, or refuses to wait |
| AlarmTime.AlarmsKeepTime | software/final_app_bsp/HAL/src/alt_alarm_start.c:80-98 | an alarm started after tick T with delay n first fires at T+n+1 and each re-arm with p > 0 fires exactly p ticks later, over any number of wraps of the 32-bit counter |
| AlarmTime.FirstFiringIsExactUnless | software/final_app_bsp/HAL/src/alt_alarm_start.c:82-96 | the first firing is at T+n+1 if and only if n is not 2^32-1 or the counter stands at its last value |
| AlarmTime.LongestDelayAtBoot | software/final_app_bsp/HAL/src/alt_alarm_start.c:82-96 | the failing case: a delay of 2^32-1 at boot fires at the first tick |
| AlarmTime.FiringsFollowTimetable | software/final_app_bsp/HAL/src/alt_tick.c:100-141 | the 32-bit record with its one-bit flag fires exactly when a scheduler with unbounded deadlines does |
| AlarmTime.StartCouples | software/final_app_bsp/HAL/src/alt_alarm_start.c:82-96 | the record written at start stands for the unbounded deadline |
| AlarmTime.TickIsExact | software/final_app_bsp/HAL/src/alt_tick.c:109-115 | a tick finds the alarm expired exactly when its unbounded deadline has come, and otherwise the record still stands for it |
| AlarmTime.RearmCouples | software/final_app_bsp/HAL/src/alt_tick.c:127-137 | re-arming adds the period to the unbounded deadline, whether or not the counter wraps |
| AlarmRuns.CallbacksFollowCalendar | software/final_app_bsp/HAL/src/alt_tick.c:87-148 | over every run of ticks an alarm is called back when it is due and then each returned period later, until it stops itself or returns zero, whatever other alarms are registered and answer |
| AlarmRuns.StartedAlarmIsCalled | software/final_app_bsp/HAL/src/alt_alarm_start.c:80-98 | an alarm started after tick T with delay n other than 2^32-1 is called first at T+n+1, and then by what its callback returns |
| AlarmRuns.NotRegisteredNotCalled | software/final_app_bsp/HAL/src/alt_tick.c:90-141 | an alarm that is not registered is never called |
| AlarmRuns.FiresExactlyWhen | software/final_app_bsp/HAL/src/alt_tick.c:115 | a tick calls an alarm back if and only if it is registered and due |
| AlarmRuns.StaysExactlyWhen | software/final_app_bsp/HAL/src/alt_tick.c:121-139 | an alarm stays registered if and only if it is not due, or its callback neither stops it nor returns zero |
| AlarmRuns.CallsAreInOrder | software/final_app_bsp/HAL/src/alt_tick.c:90-141 | the calls are made in the order of the list |
| AlarmRuns.StayersAreInOrder | software/final_app_bsp/HAL/src/alt_tick.c:90-141 | the alarms that stay keep their order |
| AlarmScheduler.Insert | software/final_app_bsp/HAL/inc/sys/alt_llist.h:90-98 | the circular list stays closed and gains the entry right after its head |
| AlarmScheduler.Remove | software/final_app_bsp/HAL/inc/sys/alt_llist.h:105-117 | the circular list stays closed, loses exactly the entry, and a second removal changes nothing |
| AlarmScheduler.Alarm.Schedule | software/final_app_bsp/HAL/src/alt_alarm_start.c:82-96 | the fields of the record are set for its deadline |
| AlarmScheduler.Alarm.Again | software/final_app_bsp/HAL/src/alt_tick.c:127-137 | the fields are moved on to the next deadline |
| AlarmScheduler.Timer.Start | software/final_app_bsp/HAL/src/alt_alarm_start.c:64-112 | the alarm is registered with its deadline, or the error is reported and nothing changes; other alarms keep their deadlines |
| AlarmScheduler.Timer.Stop | software/final_app_bsp/HAL/src/alt_tick.c:66-73 | the alarm is gone from the list, the order of the others is kept, and stopping twice is harmless |
| AlarmScheduler.Timer.Visit | software/final_app_bsp/HAL/src/alt_tick.c:109-139 | one alarm: the callback runs exactly when the deadline has come; returning zero or stopping itself takes the alarm off the list |
| AlarmScheduler.Timer.VisitNext | software/final_app_bsp/HAL/src/alt_tick.c:100-141 | one turn of the loop: the saved successor is the next alarm of the old list, whether or not the present one is unlinked |
| AlarmScheduler.Timer.WalkList | software/final_app_bsp/HAL/src/alt_tick.c:90-141 | the walk visits every alarm present at its start once, although callbacks unlink alarms under it, and leaves a closed list of those that stay |
| AlarmScheduler.Timer.Tick | software/final_app_bsp/HAL/src/alt_tick.c:87-148 | one tick fires exactly the alarms that are due, in list order; the list becomes the old one minus those that end, order kept; every deadline moves by exactly its period (the whole plan is that of Ticked) |
| AlarmScheduler.WithoutIs | software/final_app_bsp/HAL/inc/sys/alt_llist.h:105-117 | removing one element of a list of distinct elements joins what is before it to what is after it |
| AlarmScheduler.WithoutTwice | software/final_app_bsp/HAL/inc/sys/alt_llist.h:110-116 | removing again is the identity |
| AlarmScheduler.WalkOn | software/final_app_bsp/HAL/src/alt_tick.c:102 | the successor saved before the callback is the next alarm to visit, whether or not the present one is unlinked |
| AlarmWalk.WalkEndsExactlyWhen | software/final_app_bsp/HAL/src/alt_tick.c:90-141 | when callbacks may stop any alarms, the walk of a tick comes to its end if and only if no callback stops the alarm that was its saved successor |
| AlarmWalk.GoodTurn | software/final_app_bsp/HAL/src/alt_tick.c:100-141 | a turn that spares its successor leaves fewer alarms to visit, whatever else its callback stops |
| AlarmWalk.StoppingNextSticks | software/final_app_bsp/HAL/src/alt_tick.c:102 | a callback that stops its successor leaves the walk on an alarm that is linked to itself |
| AlarmWalk.UnlinkOne | software/final_app_bsp/HAL/inc/sys/alt_llist.h:105-117 | the four assignments leave a closed list of the other elements in their order |
| AlarmWalk.LinkOne | software/final_app_bsp/HAL/inc/sys/alt_llist.h:90-98 | the four assignments leave a closed list with the new element right after the head |
| AlarmWalk.StartKeepsListExactlyWhen | software/final_app_bsp/HAL/src/alt_alarm_start.c:98 | starting an alarm leaves a closed list if and only if it was not registered |
| AlarmWalk.StartedTwiceNeverEnds | software/final_app_bsp/HAL/src/alt_alarm_start.c:98 | after a registered alarm is started again, even a tick in which nothing is due never ends |
| Colours.GreedyIsOptimal | ECE385-HelperTools-master/PNG To Hex/On-Chip Memory/scripts/conv_to_sv.py:242-263 | the keys are input colours, reach every input colour within dist, and no set of input colours that does so is smaller |
| Colours.GreedyIsMinimal | ECE385-HelperTools-master/PNG To Hex/On-Chip Memory/scripts/conv_to_sv.py:242-259 | the number of groups is at most the size of any covering choice of colours |
| Colours.GroupsPartition | ECE385-HelperTools-master/PNG To Hex/On-Chip Memory/scripts/conv_to_sv.py:242-259 | the groups, one after the other, are the sorted input colours |
| Colours.GroupsReach | ECE385-HelperTools-master/PNG To Hex/On-Chip Memory/scripts/conv_to_sv.py:244-255 | each key lies in its group within dist of all members, and nothing of a later group is within its reach |
| Colours.KeysSpread | ECE385-HelperTools-master/PNG To Hex/On-Chip Memory/scripts/conv_to_sv.py:244-255 | keys are more than dist apart and ascending |
| Colours.KeysReach | ECE385-HelperTools-master/PNG To Hex/On-Chip Memory/scripts/conv_to_sv.py:261-263 | every colour is replaced by a key within dist, a key by itself |
| ColourExact.PixelsGetTheirKeys | ECE385-HelperTools-master/PNG To Hex/On-Chip Memory/scripts/conv_to_sv.py:242-281 | each group begins with the least colour out of reach of the key before, is keyed by the largest colour within dist of that one, and holds all colours from there to dist above the key; each pixel gets the key of the group of its colour |
| ColourExact.GroupsAreGreedy | ECE385-HelperTools-master/PNG To Hex/On-Chip Memory/scripts/conv_to_sv.py:242-259 | the same for each group of a sorted list of colours |
| Colours.ExtendIsNext | ECE385-HelperTools-master/PNG To Hex/On-Chip Memory/scripts/conv_to_sv.py:244-255 | one turn of the loop turns the grouping of a prefix into the grouping of one colour more |
| Colours.GroupColours | ECE385-HelperTools-master/PNG To Hex/On-Chip Memory/scripts/conv_to_sv.py:233-259 | the loop computes the greedy grouping |
| Colours.SortColours | ECE385-HelperTools-master/PNG To Hex/On-Chip Memory/scripts/conv_to_sv.py:242 | the distinct colours in ascending order |
| Colours.SortedIsUnique | ECE385-HelperTools-master/PNG To Hex/On-Chip Memory/scripts/conv_to_sv.py:242 | the order of iteration is determined by the set of colours |
| Colours.CombineCore | ECE385-HelperTools-master/PNG To Hex/On-Chip Memory/scripts/conv_to_sv.py:222-267 | the groups of the sorted colours, and for each key the number of pixels it stands for |
| Colours.SumCounts | ECE385-HelperTools-master/PNG To Hex/On-Chip Memory/scripts/conv_to_sv.py:262 | the total of the counts of a group |
| ColourReduction.CombineChannels | ECE385-HelperTools-master/PNG To Hex/On-Chip Memory/scripts/conv_to_sv.py:269-281 | the list is replaced in place, pixel by pixel, by the keys of the groups of its colours |
| ColourReduction.ReductionIsFaithful | ECE385-HelperTools-master/PNG To Hex/On-Chip Memory/scripts/conv_to_sv.py:269-281 | no pixel moves by more than dist, no new colour appears, and the colours left are more than dist apart |
| ColourReduction.ReductionIsMinimal | ECE385-HelperTools-master/PNG To Hex/On-Chip Memory/scripts/conv_to_sv.py:269-281 | the reduced channel has no more colours than any set of its colours that covers it |
| ColourReduction.ReductionIsIdempotent | ECE385-HelperTools-master/PNG To Hex/On-Chip Memory/scripts/conv_to_sv.py:269-281 | reducing again changes nothing |
| ColourReduction.SpreadColoursStay | ECE385-HelperTools-master/PNG To Hex/On-Chip Memory/scripts/conv_to_sv.py:244-255 | colours more than dist apart are each their own key |
| ColourReduction.PixelsAreConserved | ECE385-HelperTools-master/PNG To Hex/On-Chip Memory/scripts/conv_to_sv.py:261-263 | the counts of all groups add up to the number of pixels |
| ColourReduction.GroupsAreSound | ECE385-HelperTools-master/PNG To Hex/On-Chip Memory/scripts/conv_to_sv.py:261-263 | the groups hold exactly the colours of the channel, each within dist of its key |
| ColourReduction.CountColours | ECE385-HelperTools-master/PNG To Hex/On-Chip Memory/scripts/conv_to_sv.py:273-274 | each colour is counted as often as it occurs |
| Palette.RewriteIsRightExactlyWhen | ECE385-HelperTools-master/PNG To Hex/On-Chip Memory/scripts/conv_to_sv.py:431-439 | looking every rewritten cell up in the palette gives the channel back if and only if each colour is at least the number of different colours before its first cell |
| Palette.FirstOccurrencesAscend | ECE385-HelperTools-master/PNG To Hex/On-Chip Memory/scripts/conv_to_sv.py:415-418 | for i < j the first cell of the i-th palette colour is before the first cell of the j-th |
| Palette.PaletteIndexIsCount | ECE385-HelperTools-master/PNG To Hex/On-Chip Memory/scripts/conv_to_sv.py:415-439 | the palette index of a colour is the number of different colours before its first cell |
| Palette.BlackBeforeAnotherColour | ECE385-HelperTools-master/PNG To Hex/On-Chip Memory/scripts/conv_to_sv.py:431-439 | the channel 0, 200, 0 has palette 0, 200 and cells 0, 1, 0 |
| Palette.CellIsRight | ECE385-HelperTools-master/PNG To Hex/On-Chip Memory/scripts/conv_to_sv.py:431-434 | the cells of the j-th palette colour come back if and only if no later palette colour is j |
| Palette.BlackAfterAnotherColour | ECE385-HelperTools-master/PNG To Hex/On-Chip Memory/scripts/conv_to_sv.py:431-434 | a two-pixel channel, 200 then 0, whose rewrite loses a pixel |
| Palette.ChaseFinds | ECE385-HelperTools-master/PNG To Hex/On-Chip Memory/scripts/conv_to_sv.py:431-434 | a cell is left alone until the pass for its own colour |
| Palette.ChaseKeeps | ECE385-HelperTools-master/PNG To Hex/On-Chip Memory/scripts/conv_to_sv.py:431-434 | a cell keeps its index exactly when no later colour is that number |
| Palette.PictureIsFaithful | ECE385-HelperTools-master/PNG To Hex/On-Chip Memory/scripts/conv_to_sv.py:269-281 | reduction followed by the rewrite shows no pixel more than dist away from the original, if in the reduced channel each colour is at least the number of different colours before its first cell |
| Palette.Rewrite | ECE385-HelperTools-master/PNG To Hex/On-Chip Memory/scripts/conv_to_sv.py:415-439 | the nested loops leave the palette in first-occurrence order and the cells as the passes make them; a channel with fewer than two colours fails before anything is changed |
| Palette.DictionaryOrder | ECE385-HelperTools-master/PNG To Hex/On-Chip Memory/scripts/conv_to_sv.py:415-418 | the palette holds each colour once, in the order of first occurrence |
| SpriteChunks.ExactlyOneCondition | ECE385-HelperTools-master/PNG To Hex/On-Chip Memory/scripts/conv_to_sv.py:386-402 | for every image and chunk size, partial edge chunks included, the one true condition of an in-range pixel is that of the chunk at its quotients |
| SpriteChunks.NoConditionOutside | ECE385-HelperTools-master/PNG To Hex/On-Chip Memory/scripts/conv_to_sv.py:384-397 | outside the image every condition is false |
| SpriteChunks.ChunkExists | ECE385-HelperTools-master/PNG To Hex/On-Chip Memory/scripts/conv_to_sv.py:445-458 | the chunk of a pixel exists and is large enough for its remainders |
| SpriteChunks.ChunksTile | ECE385-HelperTools-master/PNG To Hex/On-Chip Memory/scripts/conv_to_sv.py:445-457 | chunk i exists if and only if i*n is below the side, and then holds exactly the pixels from i*n to i*n plus its size |
| SpriteChunks.DimIsPositive | ECE385-HelperTools-master/PNG To Hex/On-Chip Memory/scripts/conv_to_sv.py:447-457 | no chunk of the grid is empty, so the test for empty chunks never fails |
| SpriteChunks.ZeroTables | ECE385-HelperTools-master/PNG To Hex/On-Chip Memory/scripts/conv_to_sv.py:445-458 | one zero table of the right size for every chunk of the grid |
| SpriteChunks.Store | ECE385-HelperTools-master/PNG To Hex/On-Chip Memory/scripts/conv_to_sv.py:462 | one pixel is stored in its own cell and no other pixel is disturbed |
| SpriteChunks.Split | ECE385-HelperTools-master/PNG To Hex/On-Chip Memory/scripts/conv_to_sv.py:445-462 | after the loops every pixel of the list is in its cell |
| SpriteChunks.ChainTakesTheOne | ECE385-HelperTools-master/PNG To Hex/On-Chip Memory/scripts/conv_to_sv.py:473-478 | the if-else chain reaches the right subtable whatever order it is generated in |
| SpriteChunks.ChainTakesNone | ECE385-HelperTools-master/PNG To Hex/On-Chip Memory/scripts/conv_to_sv.py:475-478 | outside the image the chain yields the default |
| SpriteChunks.SplitShowsTheImage | ECE385-HelperTools-master/PNG To Hex/On-Chip Memory/scripts/conv_to_sv.py:566-570 | the chain over the subtables, indexed with y mod NR and x mod NC, yields lst[y*xwidth+x] inside the image and zero outside, and never indexes outside a subtable |
| SpritePipeline.ModuleShowsReductionExactlyWhen | ECE385-HelperTools-master/PNG To Hex/On-Chip Memory/scripts/conv_to_sv.py:513-525 | the generated module shows every pixel as the reduced channel has it if and only if there each colour is at least the number of different colours before its first pixel |
| SpritePipeline.ModuleIsFaithful | ECE385-HelperTools-master/PNG To Hex/On-Chip Memory/scripts/conv_to_sv.py:513-525 | under that condition the palette entry at the output of the chain is, for every pixel, within dist of the original |
| SpritePipeline.GeneratePalette | ECE385-HelperTools-master/PNG To Hex/On-Chip Memory/scripts/conv_to_sv.py:513-525 | reduction, rewrite and split one after the other yield such a module, or fail for fewer than two colours |
| FdSafety.RunsKeepInv | software/final_app_bsp/HAL/src/alt_get_fd.c:77-89 | over every run of calls descriptors 0-2 stay in use and every other descriptor in use is at most the high-water mark |
| FdSafety.ResetHolds | software/final_app_bsp/HAL/src/alt_dev.c:118-131 | the pool at reset satisfies the invariant |
| FdSafety.PerformKeepsInv | software/final_app_bsp/HAL/src/alt_open.c:105-171 | each open, close, ioctl, fcntl and redirection keeps the invariant of the pool |
| FdSafety.GetFdEffect | software/final_app_bsp/HAL/src/alt_get_fd.c:77-89 | the lowest free slot is taken; failure means that none is free |
| FdSafety.OpenEffect | software/final_app_bsp/HAL/src/alt_open.c:118-170 | a failed open restores the device and flags of every slot; a successful one takes the lowest free slot, unlocked, of a device nobody has locked; running out is reported exactly when all slots are in use (unless a driver itself answers with that error) |
| FdSafety.OpenIntoEffect | software/final_app_bsp/HAL/src/alt_io_redirect.c:58-72 | redirection nets to changing only the standard slot; its temporary slot is free again |
| FdSafety.ClaimSlot | software/final_app_bsp/HAL/src/alt_open.c:138-151 | claiming touches one slot and never grants a lock |
| FdSafety.ClaimRefused | software/final_app_bsp/HAL/src/alt_open.c:79-87 | a lock on the device, wherever it is held, refuses the open |
| FdSafety.LockKeepsOthersOut | software/final_app_bsp/HAL/src/alt_open.c:64-92 | while a device is locked no call adds a descriptor for it |
| FdSafety.LockedDeviceGainsNoHolder | software/final_app_bsp/HAL/src/alt_open.c:64-92 | over every run with the lock in force the holders of the device only become fewer |
| FdSafety.GrantLocks | software/final_app_bsp/HAL/src/alt_fd_lock.c:61-74 | a granted request locks the device and changes no holder; a refused one changes nothing |
| FdSafety.GrantIsSoleUseExactlyWhen | software/final_app_bsp/HAL/src/alt_fd_lock.c:61-69 | a granted lock is sole use if and only if no other descriptor of the device is at the high-water mark, which the scan leaves out |
| FdSafety.SharedLock | software/final_app_bsp/HAL/src/alt_fd_lock.c:61-69 | a lock granted on descriptor 3 with descriptor 4 still open on the same device |
| FdSafety.SharedLockIsReachable | software/final_app_bsp/HAL/src/alt_open.c:105-171 | that state is two opens of one device away from reset |
| FdSafety.CloseUnlocksExactlyWhen | software/final_app_bsp/HAL/src/alt_release_fd.c:44-51 | close gives a lock up if and only if the descriptor is above 2 |
| FdSafety.ClosedStillLocked | software/final_app_bsp/HAL/src/alt_release_fd.c:44-51 | a run from reset that redirects standard output to a device, locks it and closes it, after which the lock is still there |
| FdSafety.LockedOpenIsRefused | software/final_app_bsp/HAL/src/alt_open.c:64-92 | while a lock is held every open of the device is refused, or finds no free descriptor |
| FdSafety.KeptLockRefusesOpens | software/final_app_bsp/HAL/src/alt_open.c:64-92 | so it is after any run of calls that leaves the lock in force |
| FdSafety.FcntlLeavesLocks | software/final_app_bsp/HAL/src/alt_fcntl.c:66-101 | setting flags changes O_APPEND and O_NONBLOCK and no other bit; the lock bits are never shown |
| FdExact.UnlockUnlocks | software/final_app_bsp/HAL/src/alt_fd_unlock.c:52-56 | TIOCNXCL on a device returns 0 and clears the lock bit; every other flag bit, device, driver field, other slots and high-water mark stay |
| FdExact.UnlockedDeviceOpens | software/final_app_bsp/HAL/src/alt_ioctl.c:134-137 | after an unlock the next open of the device succeeds, if no other descriptor has it locked, a slot is free and its driver agrees |
| FdExact.LockIsGrantedExactlyWhen | software/final_app_bsp/HAL/src/alt_fd_lock.c:54-75 | TIOCEXCL is granted if and only if no other descriptor below the high-water mark is open on the device; then the lock bit is set and nothing else changes |
| FdExact.OtherRequestsGoToDriver | software/final_app_bsp/HAL/src/alt_ioctl.c:139-158 | every other request is answered by the driver, or refused without one; device, flags and other slots stay |
| FdExact.OpenAnswers | software/final_app_bsp/HAL/src/alt_open.c:105-171 | open is refused for no device, no free slot, a lock, or by the driver, in this order, with the error of each; otherwise it answers the lowest free slot |
| FdExact.OpenedSlot | software/final_app_bsp/HAL/src/alt_open.c:138-151 | the slot has the flags of the caller but for the two of the pool, is not locked, is marked as a device exactly if it is one, and holds what the driver left; other slots stay |
| FdExact.CloseEffect | software/final_app_bsp/HAL/src/alt_close.c:64-101 | a slot above 2 is freed whatever the driver answers, the standard ones keep device and flags; the error of the driver is reported and nothing else changes |
| FdExact.FcntlEffect | software/final_app_bsp/HAL/src/alt_fcntl.c:66-101 | F_GETFL returns all flag bits but the two of the pool and changes nothing; F_SETFL sets O_APPEND and O_NONBLOCK as asked and changes nothing else; other commands are refused |
| FdExact.SetFlagsAreShown | software/final_app_bsp/HAL/src/alt_fcntl.c:66-101 | what F_SETFL sets is what F_GETFL then returns |
| FdTable.Table.constructor | software/final_app_bsp/HAL/src/alt_dev.c:118-131 | the table at reset |
| FdTable.Table.GetFd | software/final_app_bsp/HAL/src/alt_get_fd.c:54-101 | the loop takes the first free slot and raises the high-water mark |
| FdTable.Table.Release | software/final_app_bsp/HAL/src/alt_release_fd.c:44-51 | flags and device of a slot above 2 are cleared |
| FdTable.Table.FileLocked | software/final_app_bsp/HAL/src/alt_open.c:64-92 | the slot is marked as a device; the scan reports a lock held by another slot |
| FdTable.Table.Claim | software/final_app_bsp/HAL/src/alt_open.c:138-151 | flags, lock test and driver callback of an open |
| FdTable.Table.Open | software/final_app_bsp/HAL/src/alt_open.c:105-171 | the call as a whole, with its undo and its error number |
| FdTable.Table.FdLock | software/final_app_bsp/HAL/src/alt_fd_lock.c:54-75 | the scan below the high-water mark, then the flag |
| FdTable.Table.FdUnlock | software/final_app_bsp/HAL/src/alt_fd_unlock.c:52-56 | the code has the effect that FdExact.UnlockUnlocks describes |
| FdTable.Table.Ioctl | software/final_app_bsp/HAL/src/alt_ioctl.c:106-168 | the code has the effect that FdExact.UnlockUnlocks, LockIsGrantedExactlyWhen and OtherRequestsGoToDriver describe; errors set the error number |
| FdTable.Table.Close | software/final_app_bsp/HAL/src/alt_close.c:64-101 | the driver is called, the slot is freed even if it fails, and its error is reported |
| FdTable.Table.Fcntl | software/final_app_bsp/HAL/src/alt_fcntl.c:66-101 | get and set of the flags, and the error cases |
| FdTable.Table.OpenInto | software/final_app_bsp/HAL/src/alt_io_redirect.c:58-72 | open, copy into the standard slot, release |
| FdTable.Table.Redirect | software/final_app_bsp/HAL/src/alt_io_redirect.c:85-94 | three redirections in the order of the source, each from a state that satisfies the invariant |
| PrintfProof.FieldReadsBack | software/final_app_bsp/HAL/src/alt_log_printf.c:207-297 | for every 32-bit word, base, sign, case, padding and width the printed field reads back to the value of the argument |
| PrintfProof.FieldLength | software/final_app_bsp/HAL/src/alt_log_printf.c:257-279 | the field is as long as the width or as sign and digits, whichever is more |
| PrintfProof.PrintersAgree | software/final_app_bsp/HAL/src/alt_printf.c:58-128 | on formats without flags, width and precision both printers print the same text, though one divides and the other shifts |
| PrintfProof.AltItem | software/final_app_bsp/HAL/src/alt_printf.c:72-122 | one directive of alt_printf prints what the reference says |
| PrintfMeaning.IntegerDirective | software/final_app_bsp/HAL/src/alt_log_printf.c:202-320 | the text of a directive: %d and %i read back in base 10 to the signed word, %u in base 10 to the word, %o in base 8, %x and %X in base 16, with letters a-f and A-F; no superfluous zero; as long as the width or as sign and digits; padded on the left with blanks, or with zeros behind the sign |
| PrintfMeaning.TextDirective | software/final_app_bsp/HAL/src/alt_log_printf.c:318-335 | %c prints the low byte of its argument and %s the string, behind blanks up to the width |
| PrintfMeaning.AltDirective | software/final_app_bsp/HAL/src/alt_printf.c:72-122 | in alt_printf %x prints the word in base 16 with small letters and no superfluous zero, %c the low byte, %s the string, %% a percent sign, which takes no argument |
| PrintfMeaning.UnknownLetters | software/final_app_bsp/HAL/src/alt_log_printf.c:200-338 | a letter that is no conversion prints nothing and takes no argument, in either printer |
| PrintfMeaning.BrokenOff | software/final_app_bsp/HAL/src/alt_log_printf.c:152-195 | a directive that the format breaks off prints nothing |
| PrintfMeaning.NumeralFor | software/final_app_bsp/HAL/src/alt_log_printf.c:281-296 | the digits of a conversion are of its kind and case, stand for the value, and none is superfluous |
| PrintfModel.MachineRendersFormats | software/final_app_bsp/HAL/src/alt_log_printf.c:127-340 | the three-state machine prints every well-formed format as its structure says, argument by argument; what each directive shows is PrintfMeaning.IntegerDirective and TextDirective |
| PrintfModel.ScanDirective | software/final_app_bsp/HAL/src/alt_log_printf.c:152-338 | a directive written with zero flag, width, precision and l is recognised as such |
| PrintfModel.ScanNumber | software/final_app_bsp/HAL/src/alt_log_printf.c:176-195 | the digits of a number in a format are read back to that number, as width or as precision |
| Digits.NumeralReadsBack | software/final_app_bsp/HAL/src/alt_log_printf.c:281-296 | the digits of v stand for v |
| Digits.NumeralIsShortest | software/final_app_bsp/HAL/src/alt_log_printf.c:247-255 | there is no other row of digits for v without a superfluous zero in front |
| Digits.ByPowersIsNumeral | software/final_app_bsp/HAL/src/alt_log_printf.c:282-296 | dividing by descending powers from the largest that fits gives those digits |
| Digits.ByPowersSnoc | software/final_app_bsp/HAL/src/alt_log_printf.c:282-296 | digits from above and digits from below are the same digits |
| Digits.NibblesAreNumeral | software/final_app_bsp/HAL/src/alt_printf.c:98-112 | shifting nibbles out from the highest that is not zero gives those digits too |
| Digits.ZeroNibbles | software/final_app_bsp/HAL/src/alt_printf.c:98-101 | the search for the first digit skips only zeros |
| Printers.Port.CountDigits | software/final_app_bsp/HAL/src/alt_log_printf.c:247-255 | the number of digits and the place value of the first; the place value fits in 32 bits for every word |
| Printers.Port.PrintDigits | software/final_app_bsp/HAL/src/alt_log_printf.c:281-296 | the loop over descending powers sends the digits |
| Printers.Port.PrintInteger | software/final_app_bsp/HAL/src/alt_log_printf.c:207-297 | sign, padding and digits in the order that the zero flag asks for |
| Printers.Port.RepChar | software/final_app_bsp/HAL/src/alt_log_printf.c:106-110 | the character as often as asked, never for a count that is not positive |
| Printers.Port.PrintConversion | software/final_app_bsp/HAL/src/alt_log_printf.c:202-335 | the letter that ends a directive sends the text that PrintfMeaning.IntegerDirective and TextDirective describe |
| Printers.Port.OtherFmtChar | software/final_app_bsp/HAL/src/alt_log_printf.c:170-338 | one character of the last state |
| Printers.Port.PrivatePrintf | software/final_app_bsp/HAL/src/alt_log_printf.c:114-341 | the loop over the format sends what the state machine prints, each directive as PrintfMeaning.IntegerDirective and TextDirective describe |
| Printers.Port.PrintHex | software/final_app_bsp/HAL/src/alt_printf.c:84-113 | the shifting loops send the digits of v in base 16 |
| Printers.Port.AltPrintf | software/final_app_bsp/HAL/src/alt_printf.c:51-132 | the loop over the format sends what the scanner prints |
| Printers.CountStep | software/final_app_bsp/HAL/src/alt_log_printf.c:251-255 | each place value that is reached is at most v |
| TimeOfDay.SetTimeIsReadBackExactlyWhen | software/final_app_bsp/HAL/src/alt_settod.c:75-89 | for a rate that divides a million, a time set at tick n is read at every later tick as t plus the elapsed microseconds if and only if the number of 32-bit overflows of n*(10^6/rate) is a multiple of 15625 (zero in the first 2^32 microseconds), or the zero time is clamped |
| TimeOfDay.EarlySettingIsExact | software/final_app_bsp/HAL/src/alt_settod.c:75-89 | in the first 2^32 microseconds setting is always exact |
| TimeOfDay.LateSettingIsOff | software/final_app_bsp/HAL/src/alt_settod.c:85-86 | at a thousand ticks a second, 72 minutes after the start, a time set is at once read back almost a second ahead |
| TimeOfDay.LostTurns | software/final_app_bsp/HAL/src/alt_settod.c:85-86 | a product taken modulo 2^32 keeps its remainder modulo a million exactly when it overflowed a multiple of 15625 times |
| TimeOfDay.RawTime | software/final_app_bsp/HAL/src/alt_gettod.c:90-93 | what setting subtracts and reading adds differ by the elapsed time and the error made while setting, with no 32-bit overflow |
| TimeOfDay.ReadersGetNormalTimes | software/final_app_bsp/HAL/src/alt_gettod.c:95-112 | readers get microseconds below a million, and carrying does not change a time whose seconds fit |
| TimeOfDay.BootReading | software/final_app_bsp/HAL/src/alt_gettod.c:53-54 | the reading while no time has been set and the seconds fit in 31 bits |
| TimeOfDay.NeverBackwardsExactlyWhen | software/final_app_bsp/HAL/src/alt_gettod.c:90-112 | while the counter does not wrap and no time is set, what a reader is told never goes backwards from tick to tick if and only if the rate divides a million or exceeds it and is not one a second |
| TimeOfDay.SetClockNeverBackwardsExactlyWhen | software/final_app_bsp/HAL/src/alt_gettod.c:90-112 | the same after any setting of a normal time, while counter and seconds are in range: if and only if the rate divides a million or exceeds it |
| TimeOfDay.CounterWrapGoesBackExactlyWhen | software/final_app_bsp/HAL/src/alt_gettod.c:79-93 | when the counter wraps the reading jumps back, except at one tick a second |
| TimeOfDay.OneTickASecond | software/final_app_bsp/HAL/src/alt_gettod.c:91 | at one tick a second the reading turns negative at tick 2^31 |
| TimeOfDay.RawOf | software/final_app_bsp/HAL/src/alt_gettod.c:90-93 | the sum that reading starts from, at any rate, with its 32-bit wraps cancelled |
| TimeOfDay.ReadingIs | software/final_app_bsp/HAL/src/alt_gettod.c:90-112 | what is read at tick m after the time was set at tick n, at any rate, as one formula in t, n, m and the rate |
| TimeOfDay.WholeSeconds | software/final_app_bsp/HAL/src/alt_gettod.c:90-93 | seconds and remainder taken separately add up to the ticks, when the rate divides a million |
| TimeOfDay.Clock.Set | software/final_app_bsp/HAL/src/alt_settod.c:72-96 | the offset and the zone are stored, or the error is reported and nothing changes |
| TimeOfDay.Clock.Get | software/final_app_bsp/HAL/src/alt_gettod.c:75-124 | the borrowing and carrying loops end with the normalised time, its seconds in 32 bits, or with zero for a negative one; without a clock the error is reported |
| Interrupts.MasksFollowTheTable | software/final_app_bsp/HAL/src/alt_iic_isr_register.c:82-98 | after every run of registrations and interrupts the hardware mask equals the software mask, bit by bit the handlers that are not NULL; the status is restored; every dispatch went to the lowest pending id and never to a NULL handler |
| InterruptHistory.CallsFollowRegistrations | software/final_app_bsp/HAL/src/alt_irq_handler.c:146 | over every run the history is one of the program, each call in it goes to the handler and context registered last for its id, which is not NULL, and the table holds them at the end |
| InterruptHistory.RunFollows | software/final_app_bsp/HAL/src/alt_irq_handler.c:128-159 | the registrations of the history are those of the program in its order, and each call stands on top of the right handlers and is followed by what its handler does |
| InterruptHistory.RaisedLinesAreServed | software/final_app_bsp/HAL/src/alt_irq_handler.c:128-154 | outside handlers, with interrupts on, raised lines are served if and only if one of them has a handler, the least id that has one first |
| InterruptHistory.LoopServesUntilNothingIsReady | software/final_app_bsp/HAL/src/alt_irq_handler.c:128-159 | pass by pass the loop calls the least raised id that has a handler, and ends at the first pass that finds none |
| InterruptHistory.StretchAdmitsExactlyWhen | software/final_app_bsp/HAL/inc/priv/alt_legacy_irq.h:118-133 | a handler that lets others interrupt it is interrupted by a line if and only if the line has a smaller id and a handler |
| Interrupts.NestingFollowsPriorityExactlyWhen | software/final_app_bsp/HAL/inc/priv/alt_legacy_irq.h:86-149 | a program keeps to the priorities, whatever single interrupt the hardware raises after one of its registrations, if and only if no registration leaves a handler at an id that must not run next: not below the running handler inside its stretch, or not below the one it interrupts outside |
| Interrupts.NestingFollowsPriority | software/final_app_bsp/HAL/inc/priv/alt_legacy_irq.h:118-149 | if all registrations are such, handlers are interrupted by smaller ids only and none runs on top of itself |
| Interrupts.Exposed | software/final_app_bsp/HAL/inc/priv/alt_legacy_irq.h:86-99 | after the first registration that is not, one raised line yields a call out of order, at once or as soon as the handler has returned |
| Interrupts.CutIsCareful | software/final_app_bsp/HAL/inc/priv/alt_legacy_irq.h:118-149 | interrupts that do nothing leave such a program such |
| Interrupts.PriorityLostFromAbove | software/final_app_bsp/HAL/inc/priv/alt_legacy_irq.h:86-132 | a run in which a handler without a stretch of its own takes the priority away from the one underneath |
| Interrupts.RegisteringInAWindow | software/final_app_bsp/HAL/inc/priv/alt_legacy_irq.h:86-99 | after a registration inside the stretch the priority still counts exactly when no id from its own upwards has a handler |
| Interrupts.HandlerRunsOnTopOfItself | software/final_app_bsp/HAL/inc/priv/alt_legacy_irq.h:86-132 | a run in which a handler that registers another is entered again |
| Interrupts.RunKeeps | software/final_app_bsp/HAL/src/alt_irq_handler.c:128-159 | masks, table and dispatch stay consistent at every nesting depth |
| Interrupts.ServeKeeps | software/final_app_bsp/HAL/src/alt_irq_handler.c:128-159 | the same for the passes of the dispatch loop |
| Interrupts.RunNests | software/final_app_bsp/HAL/inc/priv/alt_legacy_irq.h:118-149 | what is enabled, and what the mask lets through, may run next at every moment of such a program |
| Interrupts.ServeNests | software/final_app_bsp/HAL/src/alt_irq_handler.c:128-159 | the same for the passes of the dispatch loop |
| Interrupts.Lowest | software/final_app_bsp/HAL/src/alt_irq_handler.c:130-154 | the first bit found from the low end is pending and no lower one is |
| Interrupts.Cpu.constructor | software/final_app_bsp/HAL/src/alt_irq_handler.c:55-63 | nothing registered, nothing enabled |
| Interrupts.Cpu.DisableAll | software/final_app_bsp/HAL/inc/sys/alt_irq.h:113-123 | interrupts off; the previous status is returned |
| Interrupts.Cpu.EnableAll | software/final_app_bsp/HAL/inc/sys/alt_irq.h:143-159 | the given status is restored |
| Interrupts.Cpu.IrqEnable | software/final_app_bsp/HAL/inc/priv/alt_legacy_irq.h:86-99 | one bit is set in both masks, the status kept |
| Interrupts.Cpu.IrqDisable | software/final_app_bsp/HAL/inc/priv/alt_legacy_irq.h:68-81 | one bit is cleared in both masks, the status kept |
| Interrupts.Cpu.Register | software/final_app_bsp/HAL/src/alt_iic_isr_register.c:75-101 | table and masks change together; an id out of range is refused and nothing changes |
| Interrupts.Cpu.Interruptible | software/final_app_bsp/HAL/inc/priv/alt_legacy_irq.h:118-133 | only smaller ids are let through; the old mask is returned |
| Interrupts.Cpu.NonInterruptible | software/final_app_bsp/HAL/inc/priv/alt_legacy_irq.h:139-149 | the old mask is back, interrupts off |
| Interrupts.Cpu.Scan | software/final_app_bsp/HAL/src/alt_irq_handler.c:140-154 | the bit-by-bit search ends at the lowest pending id |
| Interrupts.Cpu.Handler | software/final_app_bsp/HAL/src/alt_irq_handler.c:128-159 | the dispatch loop serves pass after pass until nothing is pending, calling what InterruptHistory.CallsFollowRegistrations says |
| Interrupts.Cpu.Execute | software/final_app_bsp/HAL/src/alt_irq_handler.c:128-159 | the code as executed is a run of the model, nested interrupts included |
| HeapSafety.ProfileIsExact | software/final_app_bsp/HAL/src/alt_gmon.c:159-207 | over every run of calls and heap extensions in which requests are sound and the heap does not run out under the profiler, the graph holds for every call site how often the call happened, modulo 2^32; and the invariant below holds |
| HeapSafety.GraphShowsCalls | software/final_app_bsp/HAL/src/alt_mcount.S:59-123 | in the same runs, for a call site counted: walking the list of bucket pc / 32 mod 64 leads to the function, and its list of arcs to that count |
| HeapSafety.CallIsCounted | software/final_app_bsp/HAL/src/alt_mcount.S:59-123 | one call raises the count of its own site by one and changes no other, whether an arc, a function or both have to be made |
| HeapSafety.NothingOverlaps | software/final_app_bsp/HAL/src/alt_sbrk.c:73-95 | nodes have no byte in common with each other or with any block handed to another caller |
| HeapSafety.RequestIsSoundExactlyWhen | software/final_app_bsp/HAL/src/alt_sbrk.c:68-136 | for every 32-bit increment, blocks stay word-aligned, within the limit and apart, and nodes stay in them, if and only if the request is refused, adds up without a carry, or gives back only memory that nobody has |
| HeapSafety.SbrkAnswers | software/final_app_bsp/HAL/src/alt_sbrk.c:68-136 | a request is granted if and only if the new end, added up in 32 bits, is within the limit; it then gets the old end, rounded up to a word |
| HeapSafety.NodesArePacked | software/final_app_bsp/HAL/src/alt_gmon.c:133-148 | nodes follow one another every 12 bytes while the slab has 12 bytes left, and only then come from a new slab of 1020 bytes |
| HeapSafety.LowHeapsAreSound | software/final_app_bsp/HAL/src/alt_sbrk.c:88 | below 2^31 no extension can carry |
| HeapSafety.HugeRequestWraps | software/final_app_bsp/HAL/src/alt_sbrk.c:88-95 | a heap above 2^31 on which a request for 2^31-1 bytes is accepted and the end falls below the start |
| HeapSafety.MemoryHoldsExactlyWhen | software/final_app_bsp/HAL/src/alt_gmon.c:133-207 | over every run, blocks and nodes have memory of their own after each request if and only if every request was sound and the heap never ran out under the profiler |
| HeapSafety.UnrecordableCallBreaksMemory | software/final_app_bsp/HAL/src/alt_gmon.c:137-147 | a call that the heap has no room for writes a node to the failure address |
| HeapSafety.SmallHeapFailsAtOnce | software/final_app_bsp/HAL/src/alt_gmon.c:137-147 | on a heap smaller than a slab the first call ever does so |
| HeapSafety.AllocateGivesFresh | software/final_app_bsp/HAL/src/alt_gmon.c:133-148 | a node gets aligned slab memory above all earlier nodes, when the heap has room |
| HeapSafety.AllocationIsSoundExactlyWhen | software/final_app_bsp/HAL/src/alt_gmon.c:137-147 | a node lies inside a slab if and only if the slab or the heap had room; otherwise it is placed at the failure value |
| HeapSafety.PushFnEffect | software/final_app_bsp/HAL/src/alt_gmon.c:184-194 | a new function entry heads its bucket, is found, has no arcs, and changes no count; lists stay acyclic and free of duplicates |
| HeapSafety.PushArcEffect | software/final_app_bsp/HAL/src/alt_gmon.c:198-204 | a new arc is found under its own function only, with count one; lists stay acyclic and free of duplicates |
| HeapSafety.BumpEffect | software/final_app_bsp/HAL/src/alt_mcount.S:118-123 | incrementing the arc that the search found changes the count of that call site only |
| HeapSafety.RecordEffect | software/final_app_bsp/HAL/src/alt_gmon.c:159-207 | recording keeps the invariant and counts the new call site once |
| HeapSafety.ExtendKeepsInv | software/final_app_bsp/HAL/src/alt_sbrk.c:68-136 | other callers of sbrk leave the graph alone when their requests are sound |
| HeapSafety.Searches | software/final_app_bsp/HAL/src/alt_mcount.S:69-84 | the two searches come upon a function with that address and an arc that belongs to it |
| HeapSafety.BootIsFine | software/final_app_bsp/HAL/src/alt_gmon.c:91-127 | the empty graph at the start |
| HeapProfiler.Profiler.constructor | software/final_app_bsp/HAL/src/alt_gmon.c:91-127 | empty buckets, no slab, the heap at its start |
| HeapProfiler.Profiler.Extend | software/final_app_bsp/HAL/src/alt_sbrk.c:68-136 | the end is rounded up and moved, in 32 bits, or the failure value is returned |
| HeapProfiler.Profiler.AllocateNode | software/final_app_bsp/HAL/src/alt_gmon.c:133-148 | slab pointer and size advance by a node, after a new slab if the old one is too small |
| HeapProfiler.Profiler.Search | software/final_app_bsp/HAL/src/alt_mcount.S:69-84 | the walk along next pointers ends and finds the first node with the address |
| HeapProfiler.Profiler.McountRecord | software/final_app_bsp/HAL/src/alt_gmon.c:159-207 | nodes are allocated, written and linked, and the invariant holds again |
| HeapProfiler.Profiler.Mcount | software/final_app_bsp/HAL/src/alt_mcount.S:51-123 | the call is counted and nothing else in the graph changes |
| VgaTiming.CountersAre | VGA_controller.sv:53-100 | n clocks after reset the counters are n mod 800 and (n div 800) mod 525, and from the first clock on the registered outputs belong to that position |
| VgaTiming.OutputsAfterReset | VGA_controller.sv:53-100 | a reset clears all registers; n clocks later the horizontal sync is low exactly on pixels 656 to 751, the vertical sync on lines 490 and 491, and the picture is shown on 640 pixels of 480 lines |
| VgaTiming.HorizontalSyncLowFor96 | VGA_controller.sv:87-90 | every window of 800 clocks holds the horizontal sync low for exactly 96 clocks |
| VgaTiming.EveryPixelOncePerFrame | VGA_controller.sv:96-99 | in every window of 420000 clocks each of the 640x480 pixels is shown at exactly one clock |
| VgaTiming.OnlyPixelsAreShown | VGA_controller.sv:96-99 | the blanking output is high exactly inside the picture |
| VgaTiming.VerticalSyncLowFor1600 | VGA_controller.sv:91-95 | every window of 420000 clocks holds the vertical sync low for exactly 1600 clocks |
| VgaTiming.LowVsIs | VGA_controller.sv:91-95 | how long the vertical sync is low in any window, of any start and length |
| VgaTiming.SynchronisesItself | VGA_controller.sv:76-87 | from any power-on values of the registers the counters reach the start of a frame without a reset |
| VgaTiming.LineStarts | VGA_controller.sv:76-82 | from any horizontal count the line starts after a known number of clocks |
| VgaTiming.Controller.Comb | VGA_controller.sv:73-100 | the combinational block computes the next value of every register |
| VgaTiming.Controller.Clock | VGA_controller.sv:53-71 | a clock edge takes all registers over at once, or resets them |

## Left out

- UartDriver.JtagUart.Write: the wait for the host, which can last for ever, is cut off after `patience` tests with the thread left waiting; the step system, about which the theorems speak, has no such bound.
- UartDriver.JtagUart.Read: the same bound on waiting.
- UartDriver.JtagUart.Close: the same bound on waiting.
- Hardware: the JTAG UART's FIFOs, its control register and the time at which bytes arrive are an oracle; a data read announces more bytes exactly when some are left behind it. That the host makes room or sends bytes at all is an assumption of the liveness results, which also take the host to be seen at every check of the call.
- The `count` and `space` arguments are modelled together with the buffer they measure; a write count that is not positive is the empty write.
- Operating-system branches of the driver, the polled small driver and the branch that resets the ring on a full FIFO are not compiled here.
- Semaphores are empty macros in this configuration and do not appear.
- AlarmScheduler.Timer.Tick: callbacks are a reply each (a period, and whether the alarm stopped itself); those that stop other alarms are in `AlarmWalk`, on values, and those that start alarms are not part of this model.
- AlarmScheduler.Timer.WalkList: the same.
- AlarmScheduler.Timer.Visit: the same.
- AlarmScheduler.Timer.Start: an alarm that is already registered is excluded, because the list is destroyed; `AlarmWalk.StartKeepsListExactlyWhen` shows that.
- `_alt_nticks` beyond the alarm facility: `alt_tick` is atomic, as it runs at interrupt level.
- Colour conversion: image and text files, the emitted SystemVerilog (10-bit literals that truncate large coordinates, the palette literal, and line 494, which swaps rows and columns of chunks that are not square) and `min_dist`, which is not reached. Dictionaries are sequences or maps in insertion order, `sorted` is its result, and only the outcome of the logarithms at lines 423-424 is kept: they fail for fewer than two colours.
- Colours are natural numbers, as they come out of the channel files; the list handed to the splitter has at least width times height entries, as the source's indexing demands.
- Descriptors: looking a name up in the device and file-system lists, and the error number that open sets, are outside; a driver callback is its status and what it leaves in `priv`. Descriptor numbers out of range or not in use are excluded, as the source does not test for them. The unsigned comparison in `alt_open.c:79` is only reached once there is a high-water mark.
- Printers: a precision is parsed and has no effect (section 7.19.6.1 of C99 gives it one), and `%s` and `%c` are padded only; widths beyond the range of `int` are not wrapped; the nibble extraction is written arithmetically; arguments are one 32-bit word each and strings are looked up from them.
- Time: concurrent calls of set and get, for which the source itself promises nothing; a tick counter that wraps between set and get. Signed seconds wrap in 32 bits, where C leaves the carry undefined.
- Interrupts: the vectored branch and external controllers; words of bits are sets of ids; the status register has no bits but PIE; individual enabling and disabling without registration does not occur in runs.
- Interrupts.Cpu.Register: an id of 2^31 or more, which the signed comparison lets through, is excluded: the source then writes outside its table.
- HeapSafety.ProfileIsExact: the counts are promised only while the heap does not run out under the profiler and requests are sound; beyond that `HeapSafety.MemoryHoldsExactlyWhen` says that memory is shared.
- Heap: stack-limit checks; the heap ends before the last kilobyte of the address space; pointers add up like unsigned words, where C leaves the overflow undefined. The profiler is not re-entered, so the duplicate arcs that its comment admits do not arise; histogram sampling is not modelled.
- VGA: the composite sync output, a constant, and the pixel clock generator.
- Constants of newlib (error numbers, O_* flags) are not part of the repository and are taken from that library.
- Not modelled at all: `main.c`, `usb.c`, `io_handler.c`, stub system calls, cache and delay routines, `alien_control.sv`, `Color_Mapper.sv`.
