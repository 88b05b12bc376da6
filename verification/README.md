# Galaga on Nios II: verification model

This project models the parts of the repository whose behaviour is hardest to see from any one
function, and proves what they guarantee.

- **JTAG UART fast driver** (`UartRing`, `UartMachine`, `UartInvariant`, `UartTheorems`,
  `UartDriver`). Read and write calls share two rings with an interrupt routine and no lock.
  `UartMachine` is a step system in which every access to a shared variable, down to each byte of
  a block copy, is a step, and the routine, the timeout, the host and the device act in between.
  `UartDriver` is the driver as a class with arrays. Each of its assignments is accompanied by the
  machine step it performs, and `Preempt` lets any number of interrupts in between two of them; so
  every execution of these methods is a run of the machine.
- **Alarms** (`AlarmTimer`, `AlarmList`). A 32-bit wrapping tick counter and a one-bit rollover
  flag are compared with an unbounded clock; the alarm list is a circular doubly linked list on the
  heap.
- **Game** (`GameShips`, `GameOrbit`, `GameController`, `GameTheorems`, `GamePhases`, `BossOrbit`,
  `GameBoard`). Eighteen
  ships, the boss, the hit flags, the score and the screen state machine, clock by clock in 10-bit
  arithmetic. Keys, frame clock, reset and laser position are free inputs on every clock.
- **File descriptors** (`FdTable`, `FdTheorems`, `FdOutcomes`, `FdPool`). First-fit allocation with a high-water
  mark, exclusive locks, rollback and redirection, as functions of the table and as loops over the
  array.
- **Numbers, time and memory** (`Numerals`, `Printing`, `TimeOfDay`, `HeapArena`, `CallGraph`).

`dafny verify dfyconfig.toml` checks everything.

## Where the code does less than one would expect

The model follows the code. Each of these has a lemma with the exact condition:

- `alt_fd_lock` says it grants a lock if no other descriptor refers to the device. Its scan stops
  one short of the high-water mark (`FdTheorems.LockGrantedIff`).
- `settimeofday` says that an immediate `gettimeofday` returns the time set. Its product of ticks
  and microseconds is taken in 32 bits (`TimeOfDay.ImmediateGetUndoesSetIff`).
- `alt_alarm_start` with a delay of 2^32-1 calls back on the next tick unless the counter is about
  to wrap (`AlarmTimer.FirstCallbackOnTimeIff`).
- The hit test compares the laser's ends with the ship only. It misses a laser that sticks out of the
  ship above and below, and the boss while it is partly off the screen (`GameShips.TouchesIff`,
  `GameTheorems.HitsRegisteredIff`).
- `mcount_allocate` does not look at what `sbrk` returns. When a new slab is refused it places its
  records at the error value (`HeapArena.RefusedSlabIsUsed`, `HeapArena.RegionsDisjointIff`).

## Model

| member | source | states |
|---|---|---|
| UartRing.FullMeansOneSlotLeft | software/usb_kb_bsp/drivers/src/altera_avalon_jtag_uart_init.c:137-139 | a byte is refused exactly when the ring already stores one less than its buffer holds |
| UartRing.Publish | software/usb_kb_bsp/drivers/src/altera_avalon_jtag_uart_write.c:122-126 | advancing the write index over n freshly copied bytes appends exactly those bytes, wrap included |
| UartRing.Release | software/usb_kb_bsp/drivers/src/altera_avalon_jtag_uart_read.c:136-140 | advancing the read index over n bytes drops exactly the n oldest, wrap included |
| UartRing.StoreOutside | software/usb_kb_bsp/drivers/src/altera_avalon_jtag_uart_init.c:149-150 | a store into a slot that holds no published byte is invisible to the other side |
| UartInvariant.InitHolds | software/usb_kb_bsp/drivers/src/altera_avalon_jtag_uart_init.c:66-100 | the state left by initialisation satisfies the invariant |
| UartInvariant.WriterStoreKeeps | software/usb_kb_bsp/drivers/src/altera_avalon_jtag_uart_write.c:122 | each byte of the block copy lands in a free slot although the snapshot of tx_out may be old |
| UartInvariant.WriterPublishKeeps | software/usb_kb_bsp/drivers/src/altera_avalon_jtag_uart_write.c:123-126 | publishing a block appends it to the accepted stream and keeps all byte streams conserved |
| UartInvariant.WriterMeasuresRoom | software/usb_kb_bsp/drivers/src/altera_avalon_jtag_uart_write.c:106-120 | the block size computed from a stale tx_out never exceeds the free space there is now |
| UartInvariant.WriterKeepsWake | software/usb_kb_bsp/drivers/src/altera_avalon_jtag_uart_write.c:136-139 | no step of the writer loses a wake-up or lets the enable shadow differ from the hardware when interrupts are on |
| UartInvariant.ReaderCopyKeeps | software/usb_kb_bsp/drivers/src/altera_avalon_jtag_uart_read.c:136 | each byte copied out is the byte the ring stores there |
| UartInvariant.ReaderReleaseKeeps | software/usb_kb_bsp/drivers/src/altera_avalon_jtag_uart_read.c:137-140 | releasing a block moves exactly it from the ring to the delivered stream |
| UartInvariant.ReaderKeepsWake | software/usb_kb_bsp/drivers/src/altera_avalon_jtag_uart_read.c:188-195 | no step of the reader loses a wake-up |
| UartInvariant.IsrStoreKeeps | software/usb_kb_bsp/drivers/src/altera_avalon_jtag_uart_init.c:149 | a received byte goes to a slot the reader is not copying, although the snapshot of rx_in may be old |
| UartInvariant.IsrKeepsRx | software/usb_kb_bsp/drivers/src/altera_avalon_jtag_uart_init.c:125-167 | every step of the receive part conserves the received bytes, one in flight included |
| UartInvariant.IsrKeepsTx | software/usb_kb_bsp/drivers/src/altera_avalon_jtag_uart_init.c:169-195 | every step of the transmit part conserves the bytes to send and stays within the space the device reported |
| UartInvariant.IsrKeepsWake | software/usb_kb_bsp/drivers/src/altera_avalon_jtag_uart_init.c:156-195 | masking an interrupt in the routine loses no wake-up |
| UartInvariant.StepKeeps | software/usb_kb_bsp/drivers/src/altera_avalon_jtag_uart_init.c:106-225 | every step of writer, reader, interrupt routine, timeout, host and device keeps the whole invariant |
| UartInvariant.RunKeeps | software/usb_kb_bsp/drivers/src/altera_avalon_jtag_uart_init.c:106-225 | so does every interleaving of such steps |
| UartTheorems.StreamsConserved | software/usb_kb_bsp/drivers/src/altera_avalon_jtag_uart_write.c:100-200 | in every reachable state the bytes accepted equal those at the host, in the device and in the ring, in order; the same for the bytes arrived, delivered, stored, in flight and in the device |
| UartTheorems.CallsReportExactly | software/usb_kb_bsp/drivers/src/altera_avalon_jtag_uart_write.c:199-214 | a positive result is exactly the number of bytes moved, and they are the caller's; otherwise nothing was moved and the error tells blocking from non-blocking calls apart; both calls |
| UartTheorems.CopiesDoNotRace | software/usb_kb_bsp/drivers/src/altera_avalon_jtag_uart_read.c:122-140 | in every reachable state the slot the writer fills holds no unsent byte, and the slot the routine fills is outside the block the reader copies |
| UartTheorems.NobodyStuck | software/usb_kb_bsp/drivers/src/altera_avalon_jtag_uart_write.c:106-126 | no copy ever leaves the ring, the caller's data or the reported quota |
| UartTheorems.FifoNeverOverflows | software/usb_kb_bsp/drivers/src/altera_avalon_jtag_uart_init.c:169-184 | the hardware FIFO is never written beyond the space that was read |
| UartTheorems.WakeupsNotLost | software/usb_kb_bsp/drivers/src/altera_avalon_jtag_uart_init.c:156-195 | whenever an interrupt could be taken: unsent bytes imply transmit interrupts on, receive interrupts off imply a full ring, both outside the windows the next rows bound; shadow and hardware bits agree |
| UartTheorems.InterruptsMaskedExactly | software/usb_kb_bsp/drivers/src/altera_avalon_jtag_uart_init.c:156-195 | in every reachable state a step masks an interrupt exactly when the ring is drained with quota left, or full with more bytes waiting; bytes are left behind only if the quota is spent, room only if none wait |
| UartTheorems.TransmitExact | software/usb_kb_bsp/drivers/src/altera_avalon_jtag_uart_init.c:169-195 | whatever the host does meanwhile, the transmit loop sends the smaller of the reported space and the stored bytes, and masks the interrupt iff there was more space than bytes |
| UartTheorems.WriterWindowCloses | software/usb_kb_bsp/drivers/src/altera_avalon_jtag_uart_write.c:103-138 | under every interleaving a writer that has published bytes enables the transmit interrupt within a bounded number of its own steps |
| UartTheorems.ReaderWindowCloses | software/usb_kb_bsp/drivers/src/altera_avalon_jtag_uart_read.c:120-193 | the same for a reader that has freed space and the receive interrupt |
| UartTheorems.RunAppends | software/usb_kb_bsp/drivers/src/altera_avalon_jtag_uart_write.c:122-126 | nothing that has crossed a boundary is ever taken back, at any of the six |
| UartTheorems.HostStaysActive | software/usb_kb_bsp/drivers/src/altera_avalon_jtag_uart_init.c:203-225 | the host is taken to be inactive only if a timeout has found it so |
| UartDriver.JtagUart.Irq | software/usb_kb_bsp/drivers/src/altera_avalon_jtag_uart_init.c:106-197 | the interrupt routine, in place: a run of the step system that leaves the foreground alone; it goes on exactly as long as the control words it reads have a bit set, takes out of the transmit ring exactly what the words allow one after the other, and if one announces received bytes, all that had arrived on entry are taken or the ring is full |
| UartDriver.JtagUart.Round | software/usb_kb_bsp/drivers/src/altera_avalon_jtag_uart_init.c:113-197 | what is done about one control word: nothing if no bit is set, the receive part if RI is, the transmit part with the reported space if WI is |
| UartDriver.JtagUart.Receive | software/usb_kb_bsp/drivers/src/altera_avalon_jtag_uart_init.c:125-167 | ends with a full ring, or with an empty device and then without masking; masks iff more bytes were waiting, in particular if the ring was full on entry; every assignment a step of the run |
| UartDriver.JtagUart.Transmit | software/usb_kb_bsp/drivers/src/altera_avalon_jtag_uart_init.c:169-195 | takes the smaller of the reported space and the stored bytes out of the ring and masks iff there was more space; every assignment a step of the run |
| UartDriver.JtagUart.Timeout | software/usb_kb_bsp/drivers/src/altera_avalon_jtag_uart_init.c:203-225 | host activity resets the counter and rewrites the control register, silence counts up to a saturation point |
| UartDriver.JtagUart.FillRing | software/usb_kb_bsp/drivers/src/altera_avalon_jtag_uart_write.c:103-127 | the enqueue loop with interrupts between any two of its steps: stops when all is enqueued or the ring is full by the last look at tx_out, and then has used all the room there was on entry |
| UartDriver.JtagUart.EnableTransmit | software/usb_kb_bsp/drivers/src/altera_avalon_jtag_uart_write.c:136-139 | shadow and hardware bit are set without an interrupt in between |
| UartDriver.JtagUart.Write | software/usb_kb_bsp/drivers/src/altera_avalon_jtag_uart_write.c:83-215 | a count n means the first n bytes of the data, and nothing else, were appended to the accepted stream; an error means none were; whatever the outcome, at least what the ring had room for on entry is accepted; a blocking call falls short only if a timeout has found the host inactive; a call that still waits is a blocking one and has appended a proper prefix |
| UartDriver.JtagUart.DrainRing | software/usb_kb_bsp/drivers/src/altera_avalon_jtag_uart_read.c:120-142 | the dequeue loop with interrupts between any two of its steps: the buffer holds what was released; stops when it is full or the ring is empty by the last look at rx_in, and then has taken all there was on entry |
| UartDriver.JtagUart.EnableReceive | software/usb_kb_bsp/drivers/src/altera_avalon_jtag_uart_read.c:188-195 | if anything was read the receive interrupt is on again, in shadow and hardware; otherwise both are as they were |
| UartDriver.JtagUart.Read | software/usb_kb_bsp/drivers/src/altera_avalon_jtag_uart_read.c:100-203 | a count n means the first n bytes of the buffer are exactly what was newly delivered; an error means nothing was; whatever the outcome, at least what the ring held on entry is delivered, as far as it fits; a blocking call comes back empty only if a timeout has found the host inactive; a call that still waits is a blocking one and has taken nothing |
| UartDriver.JtagUart.Close | software/usb_kb_bsp/drivers/src/altera_avalon_jtag_uart_init.c:241-254 | success means every accepted byte has been handed to the device or the host is inactive; refusal means a non-blocking call with bytes unsent and an active host, and waiting the same for a blocking call |
| AlarmTimer.StartTracks | software/usb_kb_bsp/HAL/src/alt_alarm_start.c:80-96 | due time and rollover flag of a start stand for tick + delay + 1 on an unbounded clock |
| AlarmTimer.FiresWhenDue | software/usb_kb_bsp/HAL/src/alt_tick.c:109-115 | an alarm that stands for an unbounded due time fires on that tick and no other, across counter wraps |
| AlarmTimer.WaitTracks | software/usb_kb_bsp/HAL/src/alt_tick.c:109-115 | not firing keeps the due time |
| AlarmTimer.RenewTracks | software/usb_kb_bsp/HAL/src/alt_tick.c:127-137 | renewal moves the due time by exactly the callback's reply |
| AlarmTimer.AlarmExact | software/usb_kb_bsp/HAL/src/alt_tick.c:96-138 | over any number of ticks the firings are the start delay and then each reply in turn, never early, late, twice or with drift, and the alarm is listed as long as no reply was zero |
| AlarmTimer.FirstCallbackOnTimeIff | software/usb_kb_bsp/HAL/src/alt_alarm_start.c:82-96 | the first callback is on time if and only if the delay is not 2^32-1 or the counter is about to wrap |
| AlarmTimer.TooEarly | software/usb_kb_bsp/HAL/src/alt_alarm_start.c:82-96 | in the remaining case it comes on the very next tick |
| AlarmList.Insert | software/usb_kb_bsp/HAL/inc/sys/alt_llist.h:90-98 | the entry becomes the first element; the circular links hold in both directions |
| AlarmList.Remove | software/usb_kb_bsp/HAL/inc/sys/alt_llist.h:105-117 | unlinks the entry and points it to itself; removing it again changes no link |
| AlarmList.RemoveUndoesInsert | software/usb_kb_bsp/HAL/inc/sys/alt_llist.h:90-117 | removing the entry just inserted restores every link |
| AlarmList.AlarmSystem.Start | software/usb_kb_bsp/HAL/src/alt_alarm_start.c:64-112 | lists the alarm first with its timer, or reports why not and changes no alarm, link or due time |
| AlarmList.AlarmSystem.Stop | software/usb_kb_bsp/HAL/src/alt_tick.c:66-73 | takes the alarm off the list; an unlisted one leaves every link as it was |
| AlarmList.AlarmSystem.Visit | software/usb_kb_bsp/HAL/src/alt_tick.c:100-141 | one turn of the tick loop: clears the flag, fires, renews or unlinks, and knows the next alarm beforehand |
| AlarmList.AlarmSystem.Walk | software/usb_kb_bsp/HAL/src/alt_tick.c:100-141 | visits each alarm listed on entry once, in order; calls exactly those that fire, unlinks exactly those replying zero |
| AlarmList.AlarmSystem.Tick | software/usb_kb_bsp/HAL/src/alt_tick.c:87-148 | the whole tick on the heap: list, timers and known due times afterwards, and an alarm with a known due time is called exactly when it has come; an alarm stays listed iff it was not called or did not reply zero |
| GameShips.TouchesIff | hit_controller.sv:31-44 | for every laser position, wrapped past the top or side included, the test is true iff laser and ship share a point, the laser does not stick out above and below, and the ship is wholly on the screen |
| GameShips.StraddlingLaserMisses | hit_controller.sv:31-44 | a ship that flies into a laser at row 101, and one that flies into a laser at row 1021, wrapped past the top, are not registered |
| GameShips.BossOffScreenMissed | hit_controller_boss.sv:33-46 | the boss at its left extreme inside a laser is not registered |
| GameShips.BossMovesOneColumn | boss.sv:105-124 | read as a signed number the boss's column moves by exactly 5, and the edge tests are those of the signed column |
| GameShips.BossFrameFlies | boss.sv:97-125 | every frame keeps the boss on columns -5 to 615 in steps of 5, with the forced heading at both extremes, and its row from wrapping |
| GameShips.BossDescends | boss.sv:97-125 | whatever key is held, each frame lowers a measure of height, pending drop and distance to the edge ahead |
| GameOrbit.FrameFollowsOrbit | enemy-ship.sv:104-128 | one frame of the wrapping 10-bit hardware is one step along a closed-form flight |
| GameOrbit.FirstShipOrbit | enemy-ship.sv:104-128 | the iterated hardware step and the closed form agree |
| GameOrbit.TimeShift | eship_row.sv:41-75 | the ship that starts k columns further right is the first ship 50k frames later |
| GameOrbit.EnemyFlies | enemy-ship.sv:112-127 | columns stay in 0 to 610 with the matching heading at each end |
| GameOrbit.SameRowApart | eship_row.sv:41-75 | two ships of a row are always a box apart, also while one of them turns and drops |
| GameOrbit.OtherRowApart | game_controller.sv:101-131 | ships of different rows never share a pixel row |
| GameOrbit.LandsIff | enemy-ship.sv:87-93 | the frame on which a ship of each row lands: 8542, 6713 or 5491 of its flight, and none earlier |
| GameOrbit.LandsInTime | enemy-ship.sv:87-93 | from frame 8542 of its flight on every ship has reached the line of the user's ship |
| GameController.ScoreCountsHits | game_controller.sv:88 | the score is the number of set hit flags, at most 19: the five-bit sums do not overflow |
| GameController.AllHitIff | eship_row.sv:37 | a row of n ships counts n hits exactly when every one is hit |
| GameTheorems.ResetHolds | enemy-ship.sv:46-54 | a reset from any state establishes the invariant and score zero |
| GameTheorems.PlayContinues | enemy-ship.sv:66-128 | while the screen stays PLAY, all un-hit ships advance together along the flight |
| GameTheorems.PlayBegins | signal_controller.sv:34-39 | entering PLAY puts every ship at the start of its flight |
| GameTheorems.NextKeeps | signal_controller.sv:18-75 | every clock keeps the invariant for all keys, frames, resets and laser positions |
| GameTheorems.HoldsAfterReset | signal_controller.sv:18-75 | so it holds in every state after a reset |
| GameTheorems.FleetApart | enemy-ship.sv:149-161 | in every PLAY state un-hit ships do not overlap |
| GameTheorems.FleetInView | enemy-ship.sv:104-128 | in every PLAY state columns are in range, headings match at the edges and no row wraps |
| GameTheorems.OneShipPerPixel | enemy-ship.sv:149-161 | at most one ship claims a pixel |
| GameTheorems.ChainOrderIrrelevant | game_controller.sv:217-329 | the enemy branches of the colour chain give the same colour in every order |
| GameTheorems.Lockstep | game_controller.sv:101-131 | ships of one column share column and motion and differ in row by their offsets |
| GameTheorems.FleetIsTimeShifted | eship_row.sv:41-75 | all un-hit ships follow the first ship's flight, 50 frames apart per column |
| GameTheorems.PlayEnds | signal_controller.sv:40-47 | a PLAY phase ends within 8492 frames whatever is pressed and hit |
| GameTheorems.BossFightEnds | boss.sv:97-125 | every BOSS_FIGHT phase, from the clock that enters it, ends within 53231 frames whatever is pressed |
| GameTheorems.HitsRegisteredIff | hit_controller.sv:20-44 | in every state reached after a reset, while the game is not over, the next clock leaves exactly those flags set that were set or whose ship the laser meets without straddling it; the boss only in its phase and not at its left extreme |
| GameTheorems.ScoreNeverFalls | hit_controller.sv:20-29 | without reset and while the game is not over the score does not fall |
| GameTheorems.DoneClearsScore | game_controller.sv:23 | a clock on which the game is over is followed by score zero, so 19 lasts one clock |
| GameTheorems.WinIsEarned | signal_controller.sv:54-61 | WIN is entered only on a clock on which all eighteen ships and the boss are hit |
| GamePhases.PlayLeftIff | signal_controller.sv:40-47 | PLAY is left for GAMEOVER iff a ship has landed, for BOSS_LOGO iff none has and all are hit, and not otherwise |
| GamePhases.FightLeftIff | signal_controller.sv:54-61 | BOSS_FIGHT is left for GAMEOVER iff the boss has landed, for WIN iff it has not and is hit, and not otherwise |
| GamePhases.EnterMovesOn | signal_controller.sv:34-75 | the other screens are left iff Enter is down, each for its successor |
| GamePhases.GameCanBeWon | signal_controller.sv:18-75 | from any power-up state there is, after a reset, a sequence of inputs without another reset that reaches WIN |
| GamePhases.FrameIff | enemy-ship.sv:40-44 | a frame passes on the clock after a rise of the frame clock and on no other |
| GamePhases.PlayEndsInTime | enemy-ship.sv:40-44 | counted on the frame clock itself: at most 8492 of its rises fall into a PLAY phase |
| GamePhases.EarliestLanding | enemy-ship.sv:87-93 | no un-hit ship lands in the first 5190 frames of a PLAY phase; from then on the last ship of the lowest row has landed |
| GamePhases.HitShipParks | enemy-ship.sv:94-103 | a ship that has been hit leaves the field on the next clock and cannot land |
| GamePhases.LostByUnhitShip | enemy-ship.sv:87-103 | a ship that has landed in PLAY was not hit one clock before |
| GamePhases.PictureIsFleet | enemy-ship.sv:149-161 | in PLAY an un-hit ship shows exactly the opaque pixels of its 30 by 30 box, and the background shows where there is none |
| BossOrbit.FrameFollowsBossOrbit | boss.sv:97-125 | without the space key one frame of the hardware is one step along a closed-form flight with a period of 248 frames and 50 rows |
| BossOrbit.BossLandsAlone | boss.sv:97-125 | left alone the boss lands exactly on frame 2044 |
| BossOrbit.BossLandsUnderSpace | boss.sv:113-116 | with the space key held it lands exactly on frame 206 |
| BossOrbit.BossSinks | boss.sv:113-116 | with the space key held it swings between two columns and sinks two rows a frame |
| BossOrbit.SpaceTwice | boss.sv:113-116 | between the edges two frames with the space key restore column and heading, two rows lower than its fall |
| BossOrbit.EdgeWins | boss.sv:105-112 | at the edges the key does not matter |
| BossOrbit.FightWithoutSpace | boss.sv:97-125 | in a BOSS_FIGHT phase without the space key the boss follows its flight frame by frame |
| GameBoard.Board.PosEdge | enemy-ship.sv:46-62 | one clock edge updates the registers in place, one after the other, to the values given by the old outputs, and keeps the game invariant; what these values mean is said by the rows on phases, flights and hits |
| FdTable.FirstFree | software/usb_kb_bsp/HAL/src/alt_get_fd.c:77-89 | the index found is free and all below it are taken |
| FdTheorems.InitialOk | software/usb_kb_bsp/HAL/src/alt_dev.c:118-149 | the initial table satisfies the invariant |
| FdTheorems.OpenAllocates | software/usb_kb_bsp/HAL/src/alt_open.c:105-171 | an open takes the least free index, never 0 to 2, and touches no other descriptor; a failed one leaves the open descriptors as they were |
| FdTheorems.ExecKeeps | software/usb_kb_bsp/HAL/src/alt_get_fd.c:54-101 | every call keeps the table invariant, high-water mark included |
| FdTheorems.RedirectReplaces | software/usb_kb_bsp/HAL/src/alt_io_redirect.c:58-72 | redirection replaces one standard stream or nothing, and leaves no extra descriptor behind |
| FdTheorems.LockedOpensFail | software/usb_kb_bsp/HAL/src/alt_open.c:64-92 | no open of a locked device succeeds: the scan misses no descriptor |
| FdTheorems.LockSurvives | software/usb_kb_bsp/HAL/src/alt_ioctl.c:127-139 | no single call but unlocking, closing or redirecting the holder ends a lock or adds a reference to the device |
| FdTheorems.LockSafety | software/usb_kb_bsp/HAL/src/alt_open.c:130-171 | the same over any sequence of calls, and at its end the device still cannot be opened |
| FdTheorems.FcntlLeavesLock | software/usb_kb_bsp/HAL/src/alt_fcntl.c:82-92 | fcntl neither shows nor changes the lock and device bits |
| FdTheorems.LockGrantedIff | software/usb_kb_bsp/HAL/src/alt_fd_lock.c:61-69 | a lock is granted iff nobody else refers to the device, or the only one who does is the descriptor at the high-water mark |
| FdTheorems.LockNotExclusive | software/usb_kb_bsp/HAL/src/alt_fd_lock.c:61-69 | a lock granted although a second descriptor refers to the device |
| FdOutcomes.OpenResult | software/usb_kb_bsp/HAL/src/alt_open.c:105-171 | an open succeeds iff the name is known, a slot is free, no descriptor holds the lock on the device and the driver agrees; otherwise the first of these that fails gives the error |
| FdOutcomes.OpenedFlags | software/usb_kb_bsp/HAL/src/alt_open.c:130-145 | the new descriptor refers to what was opened and has its flags, but for the two internal bits |
| FdOutcomes.CloseFrees | software/usb_kb_bsp/HAL/src/alt_close.c:64-101 | a close frees the descriptor unless it is a standard stream, changes no other, and reports the driver's error |
| FdOutcomes.CloseUndoesOpen | software/usb_kb_bsp/HAL/src/alt_close.c:64-101 | open followed by close restores every open descriptor and frees the slot |
| FdOutcomes.RedirectedFlags | software/usb_kb_bsp/HAL/src/alt_io_redirect.c:58-72 | a redirected stream refers to what was opened, with its flags |
| FdOutcomes.GrantedLockHeld | software/usb_kb_bsp/HAL/src/alt_fd_lock.c:61-75 | a granted lock is held by the descriptor on its device; a refused request changes nothing |
| FdOutcomes.LockSafetyFromGrant | software/usb_kb_bsp/HAL/src/alt_ioctl.c:127-139 | from a granted request to the call that gives the lock up, over any sequence of calls, no open of the device succeeds and no reference to it is added |
| FdOutcomes.UnlockReleases | software/usb_kb_bsp/HAL/src/alt_ioctl.c:131-139 | unlocking clears this one lock and changes nothing else |
| FdOutcomes.UnlockedCanBeOpened | software/usb_kb_bsp/HAL/src/alt_ioctl.c:131-139 | after the only holder has unlocked, an open succeeds iff a slot is free |
| FdOutcomes.ClosedCanBeOpened | software/usb_kb_bsp/HAL/src/alt_release_fd.c:44-51 | after the only holder has been closed, an open succeeds iff it was not a standard stream |
| FdOutcomes.OtherRequests | software/usb_kb_bsp/HAL/src/alt_ioctl.c:141-168 | every other request goes to the driver and leaves the table alone |
| FdOutcomes.SetThenGet | software/usb_kb_bsp/HAL/src/alt_fcntl.c:82-92 | what F_SETFL sets F_GETFL returns in the append and non-blocking bits; everything else reads as before |
| FdOutcomes.FcntlOtherwise | software/usb_kb_bsp/HAL/src/alt_fcntl.c:66-101 | reading and unknown commands change nothing, and a negative descriptor is refused |
| FdPool.Pool32.GetFd | software/usb_kb_bsp/HAL/src/alt_get_fd.c:54-101 | the first-fit scan in place: least free index and new high-water mark, or nothing |
| FdPool.Pool32.ReleaseFd | software/usb_kb_bsp/HAL/src/alt_release_fd.c:44-51 | frees an index above 2, nothing otherwise |
| FdPool.Pool32.FileLocked | software/usb_kb_bsp/HAL/src/alt_open.c:64-92 | marks the descriptor and finds a lock on its device iff there is one up to the high-water mark; keeps the table invariant |
| FdPool.Pool32.Lock | software/usb_kb_bsp/HAL/src/alt_fd_lock.c:54-75 | refuses iff an index below the high-water mark refers to the device, otherwise sets the bit, so that a granted lock is held; keeps the table invariant |
| FdPool.Pool32.Open | software/usb_kb_bsp/HAL/src/alt_open.c:105-171 | allocation, lock test, driver call and rollback; keeps the table invariant |
| FdPool.Pool32.Close | software/usb_kb_bsp/HAL/src/alt_close.c:64-101 | releases the descriptor whatever the driver returns, and reports its error |
| FdPool.Pool32.Ioctl | software/usb_kb_bsp/HAL/src/alt_ioctl.c:106-168 | lock and unlock for devices, everything else to the driver |
| FdPool.Pool32.Fcntl | software/usb_kb_bsp/HAL/src/alt_fcntl.c:66-101 | reads or masks in the status bits |
| FdPool.Pool32.OpenFd | software/usb_kb_bsp/HAL/src/alt_io_redirect.c:58-72 | moves a freshly opened descriptor to a standard stream |
| Numerals.DigitsHaveValue | software/usb_kb_bsp/HAL/src/alt_log_printf.c:281-296 | the digits of a number have its value |
| Numerals.DigitsStep | software/usb_kb_bsp/HAL/src/alt_log_printf.c:282-296 | dividing by the place value yields the next digit and the rest |
| Printing.PrintedParses | software/usb_kb_bsp/HAL/src/alt_log_printf.c:238-297 | for bases 8, 10 and 16, any width, padding and signedness, reading the output gives back the 32-bit argument, the most negative included |
| Printing.ReadsBack | software/usb_kb_bsp/HAL/src/alt_log_printf.c:238-297 | what is read back is the one number in the signed or unsigned 32-bit range that agrees with the argument modulo 2^32 |
| Printing.PlainNumeral | software/usb_kb_bsp/HAL/src/alt_log_printf.c:257-296 | without padding: a minus sign if negative, no leading zero, and letters of the requested case only |
| Printing.PaddingSide | software/usb_kb_bsp/HAL/src/alt_log_printf.c:257-279 | spaces go in front of the plain numeral, zeros behind its sign |
| Printing.PrintedLength | software/usb_kb_bsp/HAL/src/alt_log_printf.c:257-279 | the length is the larger of the width and digits plus sign |
| Printing.RepChar | software/usb_kb_bsp/HAL/src/alt_log_printf.c:106-110 | appends the character that many times, none for a negative count |
| Printing.CountDigits | software/usb_kb_bsp/HAL/src/alt_log_printf.c:247-255 | the digit count and the largest place value, which stays within 32 bits |
| Printing.EmitDigits | software/usb_kb_bsp/HAL/src/alt_log_printf.c:281-296 | the digit loop sends exactly the digits, most significant first |
| Printing.LogInteger | software/usb_kb_bsp/HAL/src/alt_log_printf.c:207-297 | the integer conversion prints what the format asks for |
| Printing.FindDigit | software/usb_kb_bsp/HAL/src/alt_printf.c:98-101 | finds the highest non-zero nibble |
| Printing.PrintHex | software/usb_kb_bsp/HAL/src/alt_printf.c:84-113 | the shift-and-mask loop prints the plain hexadecimal numeral |
| Printing.HexPrintersAgree | software/usb_kb_bsp/HAL/src/alt_printf.c:84-113 | both hexadecimal printers send the same characters for every 32-bit value |
| TimeOfDay.Clock.SetTimeOfDay | software/usb_kb_bsp/HAL/src/alt_settod.c:72-96 | records the offset against the tick counter, or reports that there is no clock |
| TimeOfDay.Clock.GetTimeOfDay | software/usb_kb_bsp/HAL/src/alt_gettod.c:79-124 | the offset plus the ticks, normalised by the two loops |
| TimeOfDay.TicksAsMicros | software/usb_kb_bsp/HAL/src/alt_gettod.c:91-93 | seconds and fraction of a tick count lose nothing if the rate divides a million |
| TimeOfDay.ReadingIsExact | software/usb_kb_bsp/HAL/src/alt_gettod.c:89-112 | a reading is the time set plus the ticks since, to the microsecond, normalised |
| TimeOfDay.ReadingsMonotone | software/usb_kb_bsp/HAL/src/alt_gettod.c:89-112 | readings never run backwards |
| TimeOfDay.ImmediateGetUndoesSetIff | software/usb_kb_bsp/HAL/src/alt_settod.c:82-84 | for every time, rate and tick count an immediate get returns the time set iff its microseconds are normal and the part of the product dropped by the 32-bit multiplication is a multiple of 15625, or the clock is set to zero and clamped there |
| TimeOfDay.SetAfterAnHourDrifts | software/usb_kb_bsp/HAL/src/alt_settod.c:82-84 | at 1000 ticks a second a clock set after 71 minutes reads 967296 microseconds ahead at once |
| HeapArena.ServeKeepsIff | software/usb_kb_bsp/HAL/src/alt_gmon.c:133-148 | each call keeps all regions inside the heap, pairwise disjoint and apart from the rest of the slab iff it gives back no memory in use, asks for no more than a slab and, if it takes a new slab, is not refused one |
| HeapArena.ProfilerServedIff | software/usb_kb_bsp/HAL/src/alt_gmon.c:137-147 | a profiler request gets memory inside the heap iff it fits a slab and a new slab, where needed, is not refused |
| HeapArena.RefusedSlabIsUsed | software/usb_kb_bsp/HAL/src/alt_gmon.c:137-147 | on a nearly full heap two 12-byte records are placed at addresses -1 and 11 |
| HeapArena.RunKeeps | software/usb_kb_bsp/HAL/src/alt_sbrk.c:73-135 | over any mix of such calls, memory given back included, regions stay disjoint and inside the heap |
| HeapArena.RegionsDisjointIff | software/usb_kb_bsp/HAL/src/alt_sbrk.c:73-135 | from the start of the heap, over any mix of non-negative sbrk calls and profiler requests, all regions are inside the heap and pairwise disjoint iff no new slab was refused |
| HeapArena.NothingWasted | software/usb_kb_bsp/HAL/src/alt_gmon.c:133-148 | with word-multiple sbrk calls and 12-byte records every byte up to the end of the heap is handed out or left in the slab |
| HeapArena.RefusedOnlyWhenFull | software/usb_kb_bsp/HAL/src/alt_sbrk.c:76-96 | then a user is refused iff what is handed out, the rest of the slab and the request together exceed the heap |
| HeapArena.RegionsAligned | software/usb_kb_bsp/HAL/src/alt_sbrk.c:76 | with word-multiple profiler requests every region is word aligned |
| CallGraph.ChainAcyclic | software/usb_kb_bsp/HAL/src/alt_gmon.c:55-72 | a list that ends visits no record twice |
| CallGraph.EntryKeeps | software/usb_kb_bsp/HAL/src/alt_gmon.c:184-194 | a new function entry goes to the front of its bucket and every other list survives |
| CallGraph.ArcKeeps | software/usb_kb_bsp/HAL/src/alt_gmon.c:198-204 | a new arc goes to the front of its entry's list and every other list survives |
| CallGraph.Profiler.Sbrk | software/usb_kb_bsp/HAL/src/alt_sbrk.c:68-136 | the aligned bump allocation for any increment, or failure at the limit |
| CallGraph.Profiler.UserSbrk | software/usb_kb_bsp/HAL/src/alt_sbrk.c:68-136 | the same called by a user: keeps the heap and graph invariant iff it gives back no memory in use |
| CallGraph.Profiler.McountAllocate | software/usb_kb_bsp/HAL/src/alt_gmon.c:133-148 | a record apart from all earlier ones, from the slab or a new one, or the error value if the slab is refused |
| CallGraph.Profiler.McountRecord | software/usb_kb_bsp/HAL/src/alt_gmon.c:159-207 | adds exactly one arc with the caller's address and count one in front of the entry's list, and if there was none an entry with the function's address in front of its bucket; no other record or list changes |

## Left out

- UartDriver.JtagUart.Irq: the device is assumed to report nothing pending after finitely many control reads (parameter `attention`), so a routine that never returns is not covered.
- UartDriver.JtagUart.Write: a call that keeps spinning is cut off after `patience` looks and reported as still waiting; that it eventually returns is not claimed, and in the source it need not.
- UartDriver.JtagUart.Read: the same cut-off for the spin on the receive ring.
- UartDriver.JtagUart.Close: the same cut-off for the wait until the ring is empty.
- UartInvariant.StepKeeps: one writer and one reader at a time, as the semaphores of a single-threaded build compile to nothing; a read with RVALID clear is taken to have RAVAIL zero.
- AlarmList.AlarmSystem.Tick: a callback is its return value; callbacks that start or stop alarms themselves are not modelled.
- AlarmList.AlarmSystem.Start: requires that the alarm is not listed, which the code does not check.
- GameTheorems.NextKeeps: the asynchronous reset is sampled on the clock; all four frame-edge detectors are one register, as they have the same inputs.
- GamePhases.GameCanBeWon: the winning inputs place the laser freely; that the laser's own motion allows them is not shown.
- GameTheorems.ChainOrderIrrelevant: covers the enemy branches of the play screen; sprites are arbitrary colours, and the user's ship, the laser and the other screens are drawn by earlier or other branches.
- FdPool.Pool32.Open: name lookup and driver callbacks are inputs and do not touch the table; the `priv` field is not carried.
- FdTheorems.ExecKeeps: descriptor numbers of 32 and above, which the code does not check, are excluded.
- Printing.LogInteger: the parsing of the format string and the `%c` and `%s` conversions; widths are unbounded integers.
- Printing.PrintHex: masking and shifting a nibble are written as division and remainder by powers of two.
- TimeOfDay.Clock.GetTimeOfDay: the seconds count is not truncated again while normalising; the time zone pointer is taken to be given.
- HeapArena.RegionsDisjointIff: addresses are unbounded integers; the equivalence over a run is for non-negative increments and records no larger than a slab (the code asks for 12 bytes); stack checking and the optional heap size limit are not configured.
- CallGraph.Profiler.McountRecord: requires that no slab is refused, as the code stores through the error value otherwise; starting the PC sampler is left out.
- The SMALL driver, the uC/OS-II branches and the option to ignore a full FIFO are not configured in this build.
- The motion of the laser and of the user's ship: any laser position is allowed on every clock instead.
- USB enumeration, sprites, logos, VGA timing, boot code and stub system calls: tables, drawing and input/output without a property across functions.
