# Verified model of the Graviton firmware core

This project models, in Dafny, the parts of the Graviton radio firmware that carry its timing,
its serial traffic, the safety of its RF front end and its resource accounting, and proves what
those parts are for. Everything is a statement about all inputs, all runs or all interleavings.

`dafny verify dfyconfig.toml` checks the whole project.

## What is modelled

**The ticker** (`TickerClock`, `EventQueue`, `TickerQueue`, `TickerRuns`, and its users `Stopwatch`,
`PeriodicTicker`, `Drivers`). A hardware counter of 4 to 32 bits and any frequency is extended into a
64-bit microsecond clock; a linked list of events is kept in time order; a compare register is armed for
the earliest one; the interrupt handler dispatches what is due while its callbacks insert and remove
events. `Arithmetic` and `TickerClock` are the arithmetic with every C truncation written out. `TickerQueue` is the
heap list, the clock fields and the hardware as classes whose methods follow the source branch by branch.
`EventQueue` is what the list means, and `TickerQueue.Valid` says the nodes on the heap are exactly what
the log of operations replays to, so the laws of `EventQueue` (sorted, first-in first-out among equal
deadlines, nothing lost) hold of the heap list. `TickerRuns` takes the HAL apart into its accesses to the
hardware, with the same functions for each, and lets the counter advance between any two of them; the compare
register raises the interrupt whenever the counter shows its value, also while a call is rewriting it. What
arming achieves is proved there as an invariant.

**The serial port** (`CircularBuffer`, `UartPort`, `UartRuns`). `UartPort` has the buffers, the interrupt
routines and the critical sections as they update fields in place; each is proved equal to a function on
the port's state. `UartRuns` interleaves those functions: any number of threads stand at any point of
`write` and `read`, take one step at a time, and both interrupt routines may strike between any two steps.

**The RF front end** (`Afe`, `Calibration`, `Board`, `SafetyMonitor`). A controller chip is its registers
and the record of the register file after every single write, so an invariant of the record is an invariant
of every instant. On top are the mode switches, the calibration loop with arbitrary measurements, the
command interpreter, the shutdown path and main's loop.

**Resources** (`DeepSleep`, `Drivers`, `HeapStats`, `FlashIap`). The deep-sleep lock over any number of
clients, the heap statistics over any history, and erasing flash whose sectors differ in size.

## What the code does that its documentation does not say

These are facts of the code, each proved with the exact condition under which the promise holds.

- After arming for a queued event `schedule_interrupt` reads the counter again, so a compare tick passed
  meanwhile is noticed. For an empty queue it does not: the alarm is on time if and only if the register was
  written before the tick; otherwise it comes a whole wrap later (`TickerClock.IdleAlarm`).
- The clock loses no wrap if and only if interrupts are served within the 9/16 of a wrap that the 7/16
  scheduling limit leaves, and the HAL takes less than 7/16 of a wrap from a clock reading to the next or to
  its return (`TickerRuns.TimingExact`).
- `ticker_read_us` loads the 64-bit time after it has left the critical section. If an interrupt advances the
  time between the two 32-bit loads, the result is a time between the old and the new one if and only if the
  high words are equal (`TickerClock.TornReadExact`).
- `Ticker::attach_us` with a null callback takes a deep-sleep lock that nothing gives back; deep sleep is
  possible if and only if no client holds a lock and this never happened (`DeepSleep.DeepSleepExact`).
- `FlashIAP::erase` erases what was asked for, for every request it reports as done, if and only if each
  sector starts at a multiple of its own size (`FlashIap.EraseExactness`); on any chip a request it reports
  as done was exact if and only if it began where a sector begins (`FlashIap.EraseExactPerRequest`). A misfit
  is noticed after the sector was erased (`FlashIap.EraseOnAligned`).
- `FlashIAP::program` takes the remainder of the address for its offset in the sector. Every program it
  accepts, and whose 32-bit sum does not wrap, stays inside one sector if and only if each sector starts at a
  multiple of its own size (`FlashIap.ProgramExactness`); on such chips an accepted program stays inside if
  and only if the sum does not wrap (`FlashIap.ProgramOnAligned`). With sectors of 4, 16 and 16 bytes, 16
  bytes at address 16 are accepted and cross a boundary (`FlashIap.ProgramAcrossSectors`).
- A disabled safety check restarts the round robin: a check is performed if and only if neither it nor any
  earlier one is disabled (`SafetyMonitor.PerformedExactly`). On board 012 checks 13 to 21 never run.
- `CircularBuffer` accepts a BufferSize beyond the range of its counter type; it then holds only as many
  elements as the counter type has values. `size()` is right if and only if BufferSize fits the counter type,
  or the elements do not go round the end of the pool, or the buffer is not full and BufferSize is a multiple
  of the number of those values (`CircularBuffer.CircularBuffer.Size`).
- `realloc(ptr, 0)` returns NULL and keeps the old block (`HeapStats.Heap.Realloc`); the product in `calloc`
  and the sum in `malloc` are 32-bit (`HeapStats.CallocCovers`, `HeapStats.RequestCovers`).
- The main board's transmit enable follows the channels' modes only after the command was carried out. In
  between it agrees with them if and only if the command does not change whether some channel transmits
  (`Board.Board.ChangeState`); the command byte 0x03 with no channel transmitting does (`Board.TransmitLags`).

## Assumptions

- The hardware counter is a tick count that never wraps, of which only the residue modulo 2^bits can be read.
  Every access may take any time. `Hardware.horizon` bounds the tick count so that the 64-bit microsecond
  clock does not overflow. The width the hardware reports is its real one, or is impossible (the source
  asserts that it is not) and the counter has 32 bits.
- A node is inserted only while it is not linked, as the source requires of its callers.
- Callbacks of the ticker are arbitrary programs that read the time and insert and remove events of a given
  pool. `budget` bounds the insertions, without which the interrupt handler need not return.
- `error()` and `NVIC_SystemReset()` do not return: the lock counter at 0 or 65535 is a precondition of the
  drivers and an outcome in `DeepSleep`, the shutdown is final in `Board`.
- What the front end's registers hold at power-on is unknown, so the record of writes starts after the first
  `switch_to_safe`.
- Erasing an unmapped flash address fails, any other erase may fail; the chip ends below 2^32.
- The C library's allocator returns NULL or a block of the 32-bit address space disjoint from all live ones.

## Model

| member | source | states |
|---|---|---|
| `TickerClock.ConvertTimestampUnique` | mbed-os/hal/mbed_ticker_api.c:96-106 | the 32-bit timestamp is widened to the one 64-bit time in [ref, ref + 2^32) that has those low bits; if and only if |
| `TickerClock.TornReadExact` | mbed-os/hal/mbed_ticker_api.c:393-402 | two 32-bit loads of a time that advances between them give a time in between if and only if the high words agree |
| `TickerClock.ExactIsFloor` | mbed-os/hal/mbed_ticker_api.c:111-156 | the clock invariant present * f + remainder == 10^6 * ticks holds exactly when present is the floor of the true time and the remainder what was cut off |
| `TickerClock.ArmsKeepExact` | mbed-os/hal/mbed_ticker_api.c:123-155 | all three frequency arms, with their 64-bit products and carry, keep that invariant for every frequency, remainder and elapsed tick count |
| `TickerClock.ComputeDeltaExact` | mbed-os/hal/mbed_ticker_api.c:161-194 | for every frequency and width all arms compute min(max_delta, floor(delta_us * f / 10^6)); no 32- or 64-bit truncation bites |
| `TickerClock.GuardBounds` | mbed-os/hal/mbed_ticker_api.c:50-52 | below max_delta_us the products of compute_tick fit their words, above it the tick distance is at least max_delta |
| `TickerClock.AlarmNeverLate` | mbed-os/hal/mbed_ticker_api.c:161-194 | at the armed tick the microsecond clock has not passed the deadline, and one tick later, unless clamped, it has reached it |
| `TickerClock.MatchTickIs` | mbed-os/hal/mbed_ticker_api.c:161-194 | the compare value stands for a true tick within max_delta of the last reading, equals that reading only if it is that tick, and is not after the deadline and, unless clamped, less than one tick before it |
| `TickerClock.SevenSixteenths` | mbed-os/hal/mbed_ticker_api.c:50 | the scheduling limit is exactly 7/16 of a wrap for every width |
| `TickerClock.MatchIsCircular` | mbed-os/hal/mbed_ticker_api.c:199-206 | the three-way comparison is exactly "match lies in (prev, cur] going round the counter" |
| `TickerClock.MatchOnTicks` | mbed-os/hal/mbed_ticker_api.c:199-206 | on the readings of true tick counts less than a wrap apart, the test holds exactly when the alarm tick has been reached |
| `EventQueue.ReplaySorted` | mbed-os/hal/mbed_ticker_api.c:323-386 | after every sequence of insertions, removals and dispatches the queue is in time order |
| `EventQueue.TiesAreFifo` | mbed-os/hal/mbed_ticker_api.c:334-351 | for each timestamp separately the queue is first-in first-out: an insertion goes behind all events of the same time and disturbs no other time |
| `EventQueue.FifoAlways` | mbed-os/hal/mbed_ticker_api.c:268-386 | over whole histories: for each time of which no event was removed, the dispatched events followed by the queued ones are the inserted ones in the order of insertion |
| `EventQueue.Conservation` | mbed-os/hal/mbed_ticker_api.c:268-386 | in every history the inserted events are, as a multiset, those still queued, those removed and those dispatched |
| `EventQueue.DispatchIsDueAndFirst` | mbed-os/hal/mbed_ticker_api.c:273-297 | every dispatched event is due, has the least timestamp of all queued, and is the longest queued of its timestamp |
| `EventQueue.DispatchInOrder` | mbed-os/hal/mbed_ticker_api.c:268-301 | if nobody queues an event earlier than the last one dispatched, dispatched timestamps never decrease |
| `TickerClock.NextMatchIs` | mbed-os/hal/mbed_ticker_api.c:221-257 | the compare register next matches at the one tick in the coming wrap whose reading is the register's value |
| `TickerClock.IdleAlarm` | mbed-os/hal/mbed_ticker_api.c:252-256 | with an empty queue the alarm comes at the intended tick if and only if the register is written before it, otherwise a whole wrap later |
| `TickerQueue.TickerQueue.Initialize` | mbed-os/hal/mbed_ticker_api.c:28-67 | the first call yields a valid empty queue with an exact clock and an armed interrupt, whatever the hardware reports; later calls change nothing |
| `TickerQueue.TickerQueue.StartClock` | mbed-os/hal/mbed_ticker_api.c:50-62 | the clock fields start exact at the tick just read, with 7/16 of a wrap as scheduling limit |
| `TickerQueue.TickerQueue.UpdatePresentTime` | mbed-os/hal/mbed_ticker_api.c:111-156 | the clock stays exact for the ticks counted, and what is counted is the true elapsed time minus whole wraps; within a wrap of the last reading the time is the true one |
| `TickerQueue.TickerQueue.ComputeTick` | mbed-os/hal/mbed_ticker_api.c:161-194 | the tick is the reading of the last counted tick plus the exact clamped distance |
| `TickerQueue.TickerQueue.Target` | mbed-os/hal/mbed_ticker_api.c:161-194 | the true tick the compare value stands for: within max_delta of the last tick counted, not after the deadline and, unless clamped, less than one tick before it |
| `TickerQueue.TickerQueue.ScheduleInterrupt` | mbed-os/hal/mbed_ticker_api.c:221-257 | the clock is read, and on return an interrupt is pending, or the alarm is ahead of the counter, within 7/16 of a wrap of the last tick counted, not after the first deadline and, unless at that limit, less than one tick before it; a forced interrupt is less than one tick early too |
| `TickerQueue.TickerQueue.ScheduleHead` | mbed-os/hal/mbed_ticker_api.c:226-250 | with an event queued that holds even if the call takes almost a whole wrap, because the counter is read again after arming |
| `TickerQueue.TickerQueue.ScheduleIdle` | mbed-os/hal/mbed_ticker_api.c:252-256 | without one it holds if the call takes less than max_delta |
| `TickerQueue.TickerQueue.InsertEventUs` | mbed-os/hal/mbed_ticker_api.c:323-362 | the node is linked once, behind every node that is not later, all others keep their order, and the interrupt is scheduled |
| `TickerQueue.TickerQueue.InsertNode` | mbed-os/hal/mbed_ticker_api.c:331-357 | relinking in place keeps the chain acyclic and ends in null, and its entries are what the log of operations replays to |
| `TickerQueue.TickerQueue.Walk` | mbed-os/hal/mbed_ticker_api.c:337-347 | the walk stops at the first node that is strictly later and holds the node it comes from |
| `TickerQueue.TickerQueue.Splice` | mbed-os/hal/mbed_ticker_api.c:349-355 | the two pointer writes insert the node at that position of the chain |
| `TickerQueue.TickerQueue.InsertEvent` | mbed-os/hal/mbed_ticker_api.c:303-321 | the event is queued for the one time in [at, at + 2^32) with the given low bits, where `at` is a true time of the call |
| `TickerQueue.TickerQueue.RemoveEvent` | mbed-os/hal/mbed_ticker_api.c:364-386 | a linked node is taken out and nothing else changes; for one that is not linked nothing changes; the interrupt stays scheduled, and is scheduled anew when the head goes |
| `TickerQueue.TickerQueue.UnlinkLater` | mbed-os/hal/mbed_ticker_api.c:372-382 | the search for the predecessor finds the node if and only if it is linked |
| `TickerQueue.TickerQueue.SetHandler` | mbed-os/hal/mbed_ticker_api.c:259-266 | the handler is set on a valid ticker, initialized first if it was not, and an initialized one keeps its queue |
| `TickerQueue.TickerQueue.ReadUs` | mbed-os/hal/mbed_ticker_api.c:393-402 | the ticker is initialized if it was not; the time returned never goes back and, within a wrap of the last reading, is the true time |
| `TickerQueue.TickerQueue.ReadPresent` | mbed-os/hal/mbed_ticker_api.c:393-402 | the same for an initialized ticker, touching the clock only |
| `TickerQueue.TickerQueue.IrqHandler` | mbed-os/hal/mbed_ticker_api.c:268-301 | for callbacks that insert and remove as they like: the queue stays valid, the handler is called once per dispatched event in that order, nothing queued is due at the last tick counted, which within a wrap is a tick of this call, so everything due when the interrupt came is gone; and the interrupt is scheduled again |
| `TickerQueue.TickerQueue.DispatchDue` | mbed-os/hal/mbed_ticker_api.c:273-297 | the loop itself: exactly the dispatched events were handed to the handler, and it ends with a head that is not due by a reading nothing came after, or none |
| `TickerQueue.TickerQueue.PopHead` | mbed-os/hal/mbed_ticker_api.c:283-292 | one turn takes the first node off and dispatches it at the present time |
| `TickerQueue.TickerQueue.DispatchHead` | mbed-os/hal/mbed_ticker_api.c:283-292 | one turn takes the first node off, dispatches it, and calls the handler with its identifier if one is set |
| `TickerQueue.TickerQueue.RunCallback` | mbed-os/hal/mbed_ticker_api.c:289-292 | any program over the ticker's operations keeps the queue valid and dispatches nothing itself |
| `TickerQueue.TickerQueue.NothingDue` | mbed-os/hal/mbed_ticker_api.c:273-297 | when the head is not due, no event in the queue is |
| `TickerRuns.ReadIsExact` | mbed-os/hal/mbed_ticker_api.c:111-156 | with less than a wrap gone by, a clock reading counts the true elapsed ticks and keeps the clock exact |
| `TickerRuns.ScheduleKeeps` | mbed-os/hal/mbed_ticker_api.c:226-256 | the decision of schedule_interrupt leaves an interrupt forced, or a compare value for a tick that is ahead of the last reading and not after the earliest deadline |
| `TickerRuns.ReadBackKeeps` | mbed-os/hal/mbed_ticker_api.c:246-251 | the second look at the counter forces the interrupt exactly if that tick has gone by while arming |
| `TickerRuns.InvStep` | mbed-os/hal/mbed_ticker_api.c:111-386 | every tick and every access of every HAL call keeps the clock exact, the queue in order, and outside of calls the interrupt asserted or armed |
| `TickerRuns.ClockIsExactForever` | mbed-os/hal/mbed_ticker_api.c:111-386 | in every interleaving of ticks with HAL calls, interrupts served in time, no wrap goes uncounted and the present time is the floor of the true time, for ever |
| `TickerRuns.NoLostWakeup` | mbed-os/hal/mbed_ticker_api.c:221-386 | in every such run, whenever the HAL is left and the deadline of any queued event has passed by the true clock, the interrupt is asserted and within the service latency |
| `TickerRuns.AlarmIsExact` | mbed-os/hal/mbed_ticker_api.c:221-257 | and while none waits, the interrupt comes with the tick armed last and no other, however often the compare register was rewritten |
| `TickerRuns.NoNeedlessAlarm` | mbed-os/hal/mbed_ticker_api.c:221-257 | while none waits, the alarm is less than one tick before the earliest deadline, or 7/16 of a wrap after the reading with which schedule_interrupt last began |
| `TickerRuns.ForcedIsDue` | mbed-os/hal/mbed_ticker_api.c:232-251 | an interrupt is forced only for a deadline less than one tick away |
| `TickerRuns.NeverEarly` | mbed-os/hal/mbed_ticker_api.c:281-297 | no event is dispatched before its time by the true clock |
| `TickerRuns.TimingExact` | mbed-os/hal/mbed_ticker_api.c:221-257 | no run loses a wrap if and only if latency plus max_delta is less than a wrap and the HAL takes less than max_delta between readings |
| `DeepSleep.CallBalance` | mbed-os/hal/mbed_sleep_manager.c:28-48 | every call of every client changes the counter by exactly what the client's holding changes, plus the null-attach leak; it underflows only below what the client holds |
| `DeepSleep.LockConservation` | mbed-os/hal/mbed_sleep_manager.c:28-53 | in every run of any number of clients the counter is running Timers plus attached Tickers plus attached serial interrupts plus leaks, and never underflows |
| `DeepSleep.LeaksCounted` | mbed-os/drivers/Ticker.h:116-125 | the counter leaks if and only if the history attaches a null callback to a locking Ticker |
| `DeepSleep.DeepSleepExact` | mbed-os/hal/mbed_sleep_manager.c:50-53 | deep sleep is permitted if and only if no client holds a lock and no null callback was ever attached |
| `Stopwatch.ReadingIsRunningTime` | mbed-os/drivers/Timer.cpp:46-104 | for every history of starts, stops and resets the reading is the number of microseconds since the last reset during which the stopwatch was running, counted one by one |
| `PeriodicTicker.NoDrift` | mbed-os/drivers/Ticker.cpp:37-50 | in every run each attached Ticker is queued exactly once, at first + n * delay after n runs, and its k-th run carried first + k * delay however late it came |
| `PeriodicTicker.CaughtUp` | mbed-os/drivers/Ticker.cpp:45-50 | when the handler's loop ends each Ticker has run once for each k with first + k * delay up to the present |
| `PeriodicTicker.InvStep` | mbed-os/drivers/Ticker.cpp:25-50 | attaching, re-attaching, detaching and dispatching, in callbacks too, keep every attached Ticker linked once and no other |
| `PeriodicTicker.DetachRefines` | mbed-os/drivers/Ticker.cpp:25-35 | what detach does to the event queue is the machine's detach step |
| `PeriodicTicker.AttachRefines` | mbed-os/drivers/Ticker.cpp:37-43 | what setup does to the event queue is the machine's attach step, linked before or not |
| `PeriodicTicker.HandlerRefines` | mbed-os/drivers/Ticker.cpp:45-50 | a dispatch followed by the handler's re-insertion is the machine's dispatch step |
| `Drivers.SleepManager.LockDeepSleep` | mbed-os/hal/mbed_sleep_manager.c:28-37 | the counter goes up by one unless it is at 65535, where the source stops |
| `Drivers.SleepManager.UnlockDeepSleep` | mbed-os/hal/mbed_sleep_manager.c:39-48 | the counter goes down by one unless it is at zero, where the source stops |
| `Drivers.Timer.Start` | mbed-os/drivers/Timer.cpp:46-56 | a start of a stopped Timer locks and begins at the present, read just now; of a running one it changes nothing |
| `Drivers.Timer.Stop` | mbed-os/drivers/Timer.cpp:58-68 | the running slice is added once and the lock given back only if it was running |
| `Drivers.Timer.SliceTime` | mbed-os/drivers/Timer.cpp:89-97 | the time since the start, by a clock read just now, if running, else zero |
| `Drivers.Timer.ReadHighResolutionUs` | mbed-os/drivers/Timer.cpp:82-87 | the reading whose meaning `Stopwatch.ReadingIsRunningTime` states |
| `Drivers.Timer.Reset` | mbed-os/drivers/Timer.cpp:99-104 | the sum restarts at the present whether running or not |
| `Drivers.Ticker.Detach` | mbed-os/drivers/Ticker.cpp:25-35 | the event is not linked afterwards, was removed from the queue if it was, and the lock is given back only if a callback was set |
| `Drivers.Ticker.AttachUs` | mbed-os/drivers/Ticker.h:116-125 | one lock for the first callback, and the event is linked once, one period after a true time of the call |
| `Drivers.Ticker.Setup` | mbed-os/drivers/Ticker.cpp:37-43 | a linked event is moved, not linked twice |
| `Drivers.Ticker.Handler` | mbed-os/drivers/Ticker.cpp:45-50 | the next run is queued one period after the deadline, not after the present |
| `Drivers.SerialBase.Attach` | mbed-os/drivers/SerialBase.cpp:71-92 | lock and unlock follow the slot's change between null and set, and the peripheral's interrupt enable always equals the slot |
| `Drivers.SerialBase.Destroy` | mbed-os/drivers/SerialBase.cpp:136-144 | the destructor gives back every lock of this port and no other |
| `CircularBuffer.RingPush` | mbed-os/platform/CircularBuffer.h:47-59 | on the indices: storing at the head and advancing, past the tail when full, is appending to the queue read from tail to head |
| `CircularBuffer.WrongLength` | mbed-os/platform/CircularBuffer.h:117-118 | when the elements go round the end, the truncated length is right exactly if BufferSize fits the counter type or is a multiple of its range |
| `CircularBuffer.CircularBuffer.Push` | mbed-os/platform/CircularBuffer.h:47-59 | for every BufferSize and counter type the element goes behind all others, and exactly when the buffer is full the oldest is dropped, across every wraparound |
| `CircularBuffer.CircularBuffer.Pop` | mbed-os/platform/CircularBuffer.h:66-77 | the oldest element is returned and removed; from an empty buffer nothing |
| `CircularBuffer.CircularBuffer.Empty` | mbed-os/platform/CircularBuffer.h:83-88 | true exactly for the empty queue |
| `CircularBuffer.CircularBuffer.Full` | mbed-os/platform/CircularBuffer.h:94-99 | true exactly when the queue holds as many elements as BufferSize and the counter type allow |
| `CircularBuffer.CircularBuffer.Reset` | mbed-os/platform/CircularBuffer.h:104-110 | the queue is empty |
| `CircularBuffer.CircularBuffer.Size` | mbed-os/platform/CircularBuffer.h:113-127 | for every BufferSize and counter type, the exact states in which the number returned is the queue's length |
| `CircularBuffer.StreamConservation` | mbed-os/platform/CircularBuffer.h:47-110 | in every history what was pushed is what left followed by what is queued, in order; if nothing was thrown away, what left was popped |
| `CircularBuffer.KeepsNewest` | mbed-os/platform/CircularBuffer.h:47-59 | pushing alone leaves the last elements, as many as fit |
| `UartPort.UARTSerial.constructor` | mbed-os/drivers/UARTSerial.cpp:31-40 | both buffers empty, the receive interrupt attached, the transmit one not |
| `UartPort.UARTSerial.TxIrqHandler` | mbed-os/drivers/UARTSerial.cpp:305-326 | a prefix of the buffer goes out in order, the interrupt is detached exactly when the buffer ran empty, and the routine stops early only when the peripheral refuses |
| `UartPort.UARTSerial.Send` | mbed-os/drivers/UARTSerial.cpp:311-315 | its loop: bytes leave the front of the buffer and arrive on the wire in that order |
| `UartPort.UARTSerial.RxIrqHandler` | mbed-os/drivers/UARTSerial.cpp:282-302 | received bytes go behind the buffer in order, never more than fit, the interrupt is detached exactly when the buffer is full, and the routine stops early only when nothing is readable |
| `UartPort.UARTSerial.Receive` | mbed-os/drivers/UARTSerial.cpp:288-291 | its loop: no push ever meets a full buffer |
| `UartPort.UARTSerial.KickTransmitter` | mbed-os/drivers/UARTSerial.cpp:168-176 | the critical section of write is the function that `UartRuns` interleaves; bytes stay behind only if the peripheral refused them or the interrupt was already attached |
| `UartPort.UARTSerial.RearmReceiver` | mbed-os/drivers/UARTSerial.cpp:211-219 | the critical section of read is the function that `UartRuns` interleaves; it stops early only when nothing is readable |
| `UartPort.UARTSerial.TryWrite` | mbed-os/drivers/UARTSerial.cpp:136-182 | without blocking exactly the first `result` bytes are accepted in order, or -EAGAIN and none; fewer than asked only when the buffer is full; what is left to send has the transmit interrupt attached |
| `UartPort.UARTSerial.Fill` | mbed-os/drivers/UARTSerial.cpp:163-166 | its inner loop: progress, in order, without overwriting |
| `UartPort.UARTSerial.TryRead` | mbed-os/drivers/UARTSerial.cpp:184-224 | without blocking the first min(length, available) buffered bytes are returned and taken, or -EAGAIN and none; then the receiver is rearmed |
| `UartPort.UARTSerial.Drain` | mbed-os/drivers/UARTSerial.cpp:206-209 | its inner loop |
| `UartPort.KickStream` | mbed-os/drivers/UARTSerial.cpp:168-176 | sent followed by buffered is unchanged, and afterwards the transmit interrupt is attached exactly if something is left |
| `UartRuns.InvStep` | mbed-os/drivers/UARTSerial.cpp:136-326 | every step of every thread and every interrupt keeps the invariant |
| `UartRuns.ByteStreams` | mbed-os/drivers/UARTSerial.cpp:136-326 | in every interleaving accepted == sent + transmit buffer and received == delivered + receive buffer, in order |
| `UartRuns.NeverOverwrites` | mbed-os/drivers/UARTSerial.cpp:163-166 | a writer about to push always finds room, so the overwriting branch of the ring buffer is never taken |
| `UartRuns.NoStall` | mbed-os/drivers/UARTSerial.cpp:145-219 | outside the window of the thread that is about to see to it, the transmit interrupt is attached if and only if something is buffered and the receive interrupt if and only if there is room, so a waiting writer or reader will be served |
| `UartRuns.WindowsEnd` | mbed-os/drivers/UARTSerial.cpp:163-219 | such a window ends after a bounded number of its owner's steps, which nobody else can raise |
| `UartRuns.EveryStopExcused` | mbed-os/drivers/UARTSerial.cpp:145-209 | in every run a thread that waits, gives up or stops copying had cause when it did: its work was done, or the buffer was full, or empty |
| `UartRuns.ReadTakesAll` | mbed-os/drivers/UARTSerial.cpp:206-209 | in every run a read has taken all it asked for, or the buffer was empty when it had taken what it did |
| `UartRuns.Results` | mbed-os/drivers/UARTSerial.cpp:136-224 | a blocking write takes all its data, -EAGAIN means none was taken, and the bytes of a write enter the stream in their order; a successful read returns bytes that stand next to each other in the stream of delivered ones, all it asked for or all there were; a read fails or waits only at an empty buffer, a write stops short or waits only at a full one |
| `Afe.ModeBits` | src/graviton.cpp:11-68 | for every gain the receive word enables the receiver and not the transmitter, the transmit word the reverse, the safe word neither, and none is altered by the 12-bit mask |
| `Afe.EnableBits` | includes/graviton.h:29-30 | the receiver and transmitter enables are bits 11 and 10 |
| `Afe.GainBits` | src/graviton.cpp:28-29 | bits 1 to 6 of the receive word are the six gain bits, for every gain byte |
| `Afe.RegsInNumbers` | src/graviton.cpp:11-68 | the register contents that make up each mode, in numbers |
| `Afe.ClampedCounts` | src/graviton.cpp:152-179 | requests are clamped to 0 to -4900 mV, the count never exceeds 501 and never falls as the voltage gets more negative |
| `Afe.RoundTripLosesOne` | src/graviton.cpp:143-179 | converting a count to millivolts and back loses exactly one count |
| `Afe.BackOffIsTenCounts` | src/graviton.cpp:143-179 | backing a gate setpoint off by 100 mV through both rounding conversions is exactly ten counts |
| `Afe.AMC7891.WriteDac` | src/amc7891.cpp:12-15 | one register gets the ten-bit value, no other changes, and the write is recorded |
| `Afe.AMC7891.EnableDacs` | src/amc7891.cpp:18-21 | only the power register changes |
| `Afe.AMC7891.SetGpio` | src/amc7891.cpp:57-60 | only the GPIO output changes, to the twelve-bit value |
| `Afe.AMC7891.ConfigGpio` | src/amc7891.cpp:63-67 | only the GPIO direction changes |
| `Afe.AMC7891.ConfigAdc` | src/amc7891.cpp:70-73 | only the ADC gain changes |
| `Afe.AMC7891.ReadAdc` | src/amc7891.cpp:76-81 | the measurement is returned and the registers at that moment recorded |
| `Afe.AMC7891.SwitchToRx` | src/graviton.cpp:11-32 | exactly these writes in this order; after every single one the receiver is on only with the antenna switch turned to it, the transmit LNA disabled, the gate at its idle or safe value and the transmitter off; at the end all registers are those of receive mode with this gain |
| `Afe.AMC7891.SwitchToTx` | src/graviton.cpp:34-52 | exactly these writes in this order, none if already transmitting, with the same protection at every one, ending in the registers of transmit mode |
| `Afe.AMC7891.SwitchToSafe` | src/graviton.cpp:55-68 | exactly these writes in this order, with the same protection at every one, ending in the safe registers from any others |
| `Calibration.StepsIsFirst` | main.cpp:422-436 | the loop stops at the first current reading of 100 mA, after at most 184 steps |
| `Calibration.GateLimits` | main.cpp:414-435 | the start is 388 counts, and -2000 mV is passed at 204 counts and not before |
| `Calibration.DroppedInNumbers` | main.cpp:427 | from 100 mV on, a drop is a reading more than 100 mV below the first; below 100 mV the unsigned difference makes every possible reading one |
| `Calibration.LowerGate` | main.cpp:422-436 | for every sequence of readings the loop ends, the supply drop is reported if and only if one occurs, and every gate value written is between 204 and 390 |
| `Calibration.TuneGate` | main.cpp:404-449 | the setpoint is two counts above the first that drew 100 mA, or 390, always in [207, 390], and the idle value is ten counts more negative; every current was measured with the amplifier enabled and the gate one count lower than before |
| `Board.MainBits` | src/graviton.cpp:81-107 | of the three main-board words exactly the TX-on one has the transmit enable bit |
| `Board.DecodeInNumbers` | main.cpp:580-643 | what each of the 256 command bytes asks of which channel |
| `Board.DecodeBits` | main.cpp:582-589 | the source's mask tests agree with the command table |
| `Board.SwitchesIs` | main.cpp:580-643 | exactly which commands change, in given modes, whether some channel transmits |
| `Board.TransmitLags` | main.cpp:690-702 | one that does: transmit, when no channel is transmitting |
| `Board.LastCommandDecides` | main.cpp:580-643 | a channel's mode and gain are those of the last command that concerns it |
| `Board.Board.ConfigureGravSafe` | src/graviton.cpp:81-87 | the cached mode and the register agree on safe, and the lines and the ADC are configured |
| `Board.Board.ConfigureTransmit` | src/graviton.cpp:90-107 | the transmit enable bit becomes what was asked, also when the cached mode suppresses the write |
| `Board.Board.GoSafeAndReset` | main.cpp:80-118 | both channels and the main board end in their safe registers; on the way the receivers are protected at every write, or stay off if they were off |
| `Board.Board.ChangeState` | main.cpp:580-643 | for every command byte, in numbers, which channel ends in which mode with which gain, and that a channel not addressed sees no write at all; the transmit enable still agrees with the modes if and only if the command does not change whether some channel transmits |
| `Board.Board.SelfIssued` | main.cpp:671-687 | the commands main gives itself touch no channel |
| `Board.Board.Turn` | main.cpp:669-741 | at the loop head registers follow modes, and the transmit enable bit is set if and only if some channel is in transmit mode |
| `Board.Board.CalibratePowerAmplifier` | main.cpp:404-449 | the board is shut down if and only if the supply drops; otherwise only the calibrated channel changes; the receivers are off after every write, also of the shutdown |
| `Board.Board.Init` | main.cpp:503-551 | init ends shut down if and only if a calibration sees the supply drop, and else in the loop's invariant with both channels calibrated and safe and the busses powered if they were not; either way no receiver was ever on |
| `Board.Board.Run` | main.cpp:646-742 | over any sequence of inputs both channels are protected at every write, the board ends shut down if and only if a check trips, and else in the modes the commands ask for |
| `SafetyMonitor.SoftBottomTolerance.Check` | main.cpp:147-184 | one call is one step of the counter machine |
| `SafetyMonitor.TripsAtFirstViolation` | main.cpp:131-184 | for every series of samples the monitor trips at exactly the first that is outside the hard limits or the (repeat_tol + 1)-th in a row below the soft one |
| `SafetyMonitor.RoundRobin` | main.cpp:194-313 | the check performed on turn n is n modulo one more than the first disabled check |
| `SafetyMonitor.PerformedExactly` | main.cpp:203-312 | a check is ever performed if and only if neither it nor any before it is disabled |
| `SafetyMonitor.Board012` | main.cpp:372-378 | on board 012 no check above 12 ever runs |
| `HeapStats.RequestCovers` | mbed-os/platform/mbed_alloc_wrappers.cpp:102-102 | the real request covers header and data if and only if the 32-bit sum does not wrap |
| `HeapStats.CallocCovers` | mbed-os/platform/mbed_alloc_wrappers.cpp:203-205 | calloc hands out what was asked if and only if the product fits 32 bits |
| `HeapStats.PeakIsMaximum` | mbed-os/platform/mbed_alloc_wrappers.cpp:109-111 | what max_size tracks is the largest number of live bytes at any point of the history, and was reached |
| `HeapStats.Heap.Malloc` | mbed-os/platform/mbed_alloc_wrappers.cpp:95-124 | after it current_size is the sum of live sizes, alloc_cnt their number, max_size the peak, and total_size and alloc_fail_cnt the sum of the successful requests and the number of failures modulo 2^32; no other block changes, and it fails only when the allocator does |
| `HeapStats.Heap.CountAlloc` | mbed-os/platform/mbed_alloc_wrappers.cpp:106-111 | the five counters stay what the history says |
| `HeapStats.Heap.Free` | mbed-os/platform/mbed_alloc_wrappers.cpp:172-193 | the same, with the block gone; NULL changes nothing |
| `HeapStats.Heap.Realloc` | mbed-os/platform/mbed_alloc_wrappers.cpp:126-166 | a success keeps the first min(old, new) bytes in a new block and frees the old one; a failure or size 0 leaves every block as it was; the statistics stay right |
| `HeapStats.Heap.Calloc` | mbed-os/platform/mbed_alloc_wrappers.cpp:195-215 | a success is a fresh block of zeros of the truncated product's size; the statistics stay right |
| `FlashIap.FitErases` | mbed-os/drivers/FlashIAP.cpp:118-144 | sectors that tile the request and each pass the alignment test in their turn are erased by a controller that does not refuse |
| `FlashIap.FlashIAP.EraseRange` | mbed-os/drivers/FlashIAP.cpp:118-144 | the first refusal of the controller ends it with -1; without one, a request whose sectors fit is erased exactly and 0 returned, and -1 on an aligned request means that the sector erased last did not fit |
| `FlashIap.EraseOnAligned` | mbed-os/drivers/FlashIAP.cpp:107-144 | on naturally aligned chips success means the erased sectors tile the request exactly; on failure only the last sector erased can reach outside it |
| `FlashIap.EraseExactPerRequest` | mbed-os/drivers/FlashIAP.cpp:107-144 | on any chip a request for some bytes that was reported as done was exact if and only if it began where a sector begins |
| `FlashIap.EraseExactness` | mbed-os/drivers/FlashIAP.cpp:107-144 | every reported success is exact if and only if each sector starts at a multiple of its size |
| `FlashIap.WrongErase` | mbed-os/drivers/FlashIAP.cpp:107-144 | on any other chip, a request that is accepted, reported as done, and erased the wrong bytes |
| `FlashIap.TilesConsecutive` | mbed-os/drivers/FlashIAP.cpp:139-140 | the sectors of an exact erase follow one another, so each is erased once |
| `FlashIap.FlashIAP.Program` | mbed-os/drivers/FlashIAP.cpp:85-105 | success means the pages were programmed, and -1 that the request did not pass the test or the controller refused |
| `FlashIap.ProgramExactness` | mbed-os/drivers/FlashIAP.cpp:85-105 | every accepted program whose sum does not wrap stays inside one sector if and only if each sector starts at a multiple of its size |
| `FlashIap.ProgramOnAligned` | mbed-os/drivers/FlashIAP.cpp:85-105 | on such chips an accepted program stays inside if and only if the sum does not wrap |
| `FlashIap.ProgramAcceptsPages` | mbed-os/drivers/FlashIAP.cpp:85-105 | on such chips, and without a wrap, the test accepts exactly the non-empty requests of whole pages within one sector |
| `FlashIap.WrongProgram` | mbed-os/drivers/FlashIAP.cpp:85-105 | on any other chip, a request that is accepted without wrapping and ends behind the sector of its address |
| `FlashIap.ProgramAcrossSectors` | mbed-os/drivers/FlashIAP.cpp:85-105 | for example with sectors of 4, 16 and 16 bytes |

## Left out

- HeapStats.Heap.Malloc: requires size < 2^32 - 8; beyond that the sum with the header wraps (`HeapStats.RequestCovers`) and the block is smaller than its header claims, which this model of memory does not express.
- HeapStats.Heap.Realloc: the same precondition, as it calls malloc.
- HeapStats.Heap.Calloc: the same precondition on the truncated product.
- TickerQueue.TickerQueue.IrqHandler: callbacks make at most `budget` insertions in one call; with more the source's loop need not end.
- TickerQueue.TickerQueue.ScheduleInterrupt: promises an armed interrupt only if the call itself takes less than max_delta, or less than a wrap when an event is queued; `TickerClock.IdleAlarm` shows that the first bound is needed.
- TickerQueue.TickerQueue.Initialize: a reported width outside 4 to 32 is covered only if the counter has 32 bits, which the source then takes it to have.
- TickerQueue.TickerQueue.ReadUs: returns the time as it is inside the critical section; what the load outside of it can return is `TickerClock.TornReadExact`.
- FlashIap.ProgramExactness: requires that every sector is a whole number of pages, without which no witness need exist.
- Board.Board.Run: takes the outcome of the safety check as an input.
- UartPort.UARTSerial.TryWrite: no interrupt strikes and no thread waits during the call; blocking and all interleavings are in `UartRuns`, where a call is a sequence of steps and not a loop.
- UartPort.UARTSerial.TryRead: likewise.
- Drivers.Timer.Start: requires that the lock counter is not at 65535, where the source stops in error(); likewise the other lock holders.
- The safety_check thresholds and the sensors behind them: a trip is an input of `Board.Turn`.
- Timeout, wait_us, RTC and the low-power ticker as separate instances: users of the same code.
- Asynchronous serial transfers: one interrupt can complete both directions but gives back one lock.
- UARTSerial's sigio callback, poll and carrier detect: they look at the buffers and change nothing.
- Flash contents and the mutex of FlashIAP.
- memalign, which bypasses the size header, and memory tracing.
- The start-up register script of the AMC7891, its ADC reads, SPI transfers, clock muxing, delays and printed logs.
- LMK04826B, LMK04133, ADS42LB69 and DAC3484: fixed scripts of register bytes.
- Telemetry conversions and lm5531 logarithms: floating point without an invariant.
- ATCmdParser, EventQueue over equeue, file systems, Bus and Port wrappers, pin maps.
