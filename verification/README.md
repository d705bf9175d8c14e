# Verification of the Nios II runtime and the VGA timing generator

A Dafny model of the interrupt-driven runtime of the board-support package (JTAG UART driver, alarms, file descriptors,
interrupt control, time of day, heap and call-graph profiling, number printing) and of the VGA timing generator, with
proofs of what they promise. `dafny verify dfyconfig.toml` checks all of it.

## The parts

- `Ring`, `UartDevice`, `UartDriver`: the fast JTAG UART driver with its two lock-free ring buffers, as objects updated in
  place. The foreground calls a preemption point between any two of its accesses to shared state, down to the single byte
  of a memcpy; at each such point any number of interrupts, timer callbacks and host actions happen. The host also runs
  between the register accesses of the interrupt routine. `irq_enable` is two booleans, and the buffer length is any
  N >= 2. A run is followed for a finite number of interrupt-level events (`budget`); a call that still spins when they
  are used up reports `StillRunning`.
- `AlarmTime`, `AlarmScheduler`: 32-bit ticks with a rollover flag against a clock that never wraps, and the intrusive
  circular list with the walk of `alt_tick`. A callback returns a period that may depend on the tick.
- `Options`, `FdFlags`, `FdSpec`, `FdTable`: the descriptor table as a value, what every run of calls keeps, and the calls in place,
  proved against it. Driver callbacks and device look-up are parameters; errno and the results are datatypes.
- `Words`, `Nesting`, `Interrupts`: registration and dispatch, and the state machine of interruptible handlers.
- `CallGraph`, `Heap`, `GraphStores`, `ProfiledRuns`, `Profiler`: `sbrk`, the slab allocator of `mcount` and its call
  graph, in a memory of addressed words, so that disjointness of what was allocated is what keeps the lists intact. Handlers
  run between any two steps of the searches of `mcount` and between the load and the store of a count. A run is followed as
  far as the heap lasts.
- `Unsigned`, `TimeOfDay`, `Numerals`, `NumberPrinting`, `LogFormat`, `Vga`: the arithmetic parts. `long` and `time_t` have 32 bits.

## Where the code does not keep what is promised

The model follows the code. Each point names the members that say when the promise is kept, most of them together with a
run or an input for which it is not.

- An alarm with delay 0xFFFFFFFF goes off at the next tick unless the counter is about to wrap (`AlarmTime.StartIsDue`).
- A lock granted by `ioctl(TIOCEXCL)` does not mean that the caller is the only user: the scan skips the descriptor at the
  high-water mark (`FdSpec.GrantMeansSole`, `FdSpec.GrantToOneOfTwo`).
- `close` does not release the lock of descriptors 0 to 2 (`FdSpec.CloseReleasesLock`, `FdSpec.StdioLockOutlivesClose`).
- A failing `open` clears flags that `fcntl` left on a closed descriptor (`FdSpec.FailedOpenRestores`,
  `FdSpec.FailedOpenChangesFlags`); it leaves the table alone in every run that uses `fcntl` to set flags on open
  descriptors only (`FdSpec.FailedOpenLeavesTable`).
- `settimeofday` multiplies in 32 bits, `gettimeofday` in 64 (`TimeOfDay.RoundTrip`, `TimeOfDay.ResiduesAgree`,
  `TimeOfDay.RoundTripFails`).
- With a tick rate that does not divide a second the clock jumps ahead at the end of a second and then back
  (`TimeOfDay.ShownFromBoot`, `TimeOfDay.UnevenRate`).
- Near the end of the 32-bit seconds the clock falls to zero one second early (`TimeOfDay.ClockRunsTrue`,
  `TimeOfDay.ClockFalls`).
- `alt_irq_enable` and `alt_irq_disable` write IENABLE without regard to the priority mask, so that inside a nested section
  a lower-priority line can come to preempt (`Nesting.EnableKeepsOrder`, `Nesting.LowerPriorityPreempts`).
- `mcount` increments a count with interrupts on: what handlers count of the same pair meanwhile is lost
  (`Profiler.Memories.Mcount`, `Profiler.Memories.InterruptedIncrement`).
- `mcount_allocate` does not look at the result of `sbrk` (`Profiler.Memories.Allocate`).
- The vertical sync pulse lies on lines 489 and 490, one pixel late, not on 490 and 491 (`Vga.ClosedForm`).

## Model

| member | source | states |
|---|---|---|
| UartDriver.Driver.Run | software/usb_kb_bsp/drivers/src/altera_avalon_jtag_uart_write.c:83-215 | Over any sequence of write, read, close and timeout calls, with interrupts, timer callbacks and host actions between any two steps: all bytes from the host are, in order, those already handed to readers, then those handed out by the run, then the receive ring, then the receive FIFO; all bytes that writes accepted are, in order, those the host has, then the transmit FIFO, then the transmit ring. Nothing is lost, duplicated or reordered. A run ends early only in a call that waits with nothing more to come; without a timer, blocking writes have sent all their data. |
| UartDriver.Driver.Write | software/usb_kb_bsp/drivers/src/altera_avalon_jtag_uart_write.c:100-214 | The accepted bytes are a prefix of the data and extend all bytes accepted before; at least as many as there was room for; the result is that count, or the would-block or I/O error when it is zero; a blocking write stops short only if the host was inactive, on a buffer that stays full only after the timeout, and never when no alarm runs; with a host inactive from the start and not seen it fills the buffer once; it does not wait if everything fits or it is nonblocking; a write that still spins sees a full ring with the write interrupt on. With no event to come from interrupt level, what it takes and whether it goes on spinning are known exactly. |
| UartDriver.Driver.FillTxBuffer | software/usb_kb_bsp/drivers/src/altera_avalon_jtag_uart_write.c:103-127 | The copying loop stops early only at a full ring (as sampled), takes at least what fitted at its start, and keeps all invariants although the interrupt routine moves tx_out while it copies. |
| UartDriver.Driver.WriteBurst | software/usb_kb_bsp/drivers/src/altera_avalon_jtag_uart_write.c:105-117 | The burst never reaches a queued byte or the end of the buffer, and is zero only for a full ring. |
| UartDriver.Driver.CopyToTxBuffer | software/usb_kb_bsp/drivers/src/altera_avalon_jtag_uart_write.c:122 | Copying into the free run leaves the queued bytes as they are, with interrupts between any two bytes. |
| UartDriver.Driver.Enqueue | software/usb_kb_bsp/drivers/src/altera_avalon_jtag_uart_write.c:122-126 | Moving tx_in appends exactly the copied bytes to the accepted ones. |
| UartDriver.Driver.FillAndKick | software/usb_kb_bsp/drivers/src/altera_avalon_jtag_uart_write.c:103-139 | After the write interrupt is enabled a non-empty transmit ring is armed again. |
| UartDriver.Driver.SpinWhileFull | software/usb_kb_bsp/drivers/src/altera_avalon_jtag_uart_write.c:183-184 | Leaving the spin means that there is room or that the timeout is reached; a spin that lasts sees a full ring, the write interrupt on and no timeout. |
| UartDriver.Driver.WaitForRoom | software/usb_kb_bsp/drivers/src/altera_avalon_jtag_uart_write.c:183-188 | Write goes on after the spin exactly if the host is not inactive. |
| UartDriver.Driver.SetEnables | software/usb_kb_bsp/drivers/src/altera_avalon_jtag_uart_write.c:136-139 | The shadow word and the RE and WE bits of the device agree again after a critical section, and no data moved. |
| UartDriver.Driver.Read | software/usb_kb_bsp/drivers/src/altera_avalon_jtag_uart_read.c:115-202 | The bytes put at the start of the buffer extend all bytes handed out before, the rest of the buffer is untouched; at least what was queued (or fits) is taken; the result is the count or the error; the read interrupt is on after a successful read; an I/O error needs a ring that was empty at the start, a timeout below INT_MAX - 1, and as many events as the inactivity counter needs to reach it (or no space); it does not wait if something is queued or it is nonblocking. With no event to come from interrupt level, what it takes and whether it goes on spinning are known exactly. |
| UartDriver.Driver.DrainRxBuffer | software/usb_kb_bsp/drivers/src/altera_avalon_jtag_uart_read.c:120-142 | The copying loop hands out queued bytes in order, across the wrap, and gives nothing only when the ring was empty at the sample. |
| UartDriver.Driver.ReadBurst | software/usb_kb_bsp/drivers/src/altera_avalon_jtag_uart_read.c:122-131 | The burst stays within the queued bytes and the buffer, and is zero only for an empty ring. |
| UartDriver.Driver.CopyFromRxBuffer | software/usb_kb_bsp/drivers/src/altera_avalon_jtag_uart_read.c:136 | The bytes copied are the oldest queued ones although the interrupt routine appends meanwhile. |
| UartDriver.Driver.Dequeue | software/usb_kb_bsp/drivers/src/altera_avalon_jtag_uart_read.c:136-140 | Moving rx_out removes exactly the bytes handed out. |
| UartDriver.Driver.SpinWhileEmpty | software/usb_kb_bsp/drivers/src/altera_avalon_jtag_uart_read.c:173-178 | Leaving the spin means that rx_in moved or that the timeout is reached; a lasting spin sees an empty ring with the read interrupt on. |
| UartDriver.Driver.WaitForData | software/usb_kb_bsp/drivers/src/altera_avalon_jtag_uart_read.c:173-178 | Read gives up after the spin exactly if nothing has come, which takes the timeout. |
| UartDriver.Driver.SampleRxIn | software/usb_kb_bsp/drivers/src/altera_avalon_jtag_uart_read.c:122 | What was queued when rx_in was read is queued when it is used. |
| UartDriver.Driver.ReadSome | software/usb_kb_bsp/drivers/src/altera_avalon_jtag_uart_read.c:115-179 | The outer loop of read: what it hands out, when it gives up, and when it waits. |
| UartDriver.Driver.Irq | software/usb_kb_bsp/drivers/src/altera_avalon_jtag_uart_init.c:117-196 | The interrupt routine ends after at most free receive slots + queued transmit bytes + RE + WE passes, so at most 2 * BUF_LEN, whatever the host does meanwhile, and leaves neither interrupt line up. |
| UartDriver.Driver.Pass | software/usb_kb_bsp/drivers/src/altera_avalon_jtag_uart_init.c:119-195 | Each pass with RI or WI set strictly decreases that sum and keeps both sides armed. Both halves run: what was sent is the smaller of the sampled space and the queue, and something was received unless RE went off. |
| UartDriver.Driver.ReceiveFromFifo | software/usb_kb_bsp/drivers/src/altera_avalon_jtag_uart_init.c:125-167 | Bytes are popped only into free slots; afterwards either something was received and the FIFO is empty, or RE is off and the ring is full. |
| UartDriver.Driver.ReceiveNext | software/usb_kb_bsp/drivers/src/altera_avalon_jtag_uart_init.c:144-150 | One pop queues exactly the byte that was valid. |
| UartDriver.Driver.StoreReceived | software/usb_kb_bsp/drivers/src/altera_avalon_jtag_uart_init.c:149-150 | Storing at rx_in appends to the ring. |
| UartDriver.Driver.TransmitToFifo | software/usb_kb_bsp/drivers/src/altera_avalon_jtag_uart_init.c:169-195 | min(WSPACE, queued) bytes reach the FIFO, in order, never more than the sampled space; WE stays on exactly if the queue held at least that many. |
| UartDriver.Driver.SendNext | software/usb_kb_bsp/drivers/src/altera_avalon_jtag_uart_init.c:176-178 | The byte stored is the oldest queued one, and it leaves the ring. |
| UartDriver.Driver.Timeout | software/usb_kb_bsp/drivers/src/altera_avalon_jtag_uart_init.c:203-225 | host_inactive becomes zero when the host was seen and otherwise saturates at INT_MAX - 2; RE and WE are preserved. |
| UartDriver.Driver.Close | software/usb_kb_bsp/drivers/src/altera_avalon_jtag_uart_init.c:241-254 | A close with nothing left to send returns 0 at once; otherwise it returns 0 only with an empty transmit ring or after the timeout, so with a timeout of INT_MAX - 1 or more every accepted byte was stored to the device; a nonblocking one does not wait. With no event to come from interrupt level the answer is known exactly. |
| UartDriver.Driver.constructor | software/usb_kb_bsp/drivers/src/altera_avalon_jtag_uart_init.c:66-100 | After init the driver satisfies its invariant with RE on, and the timeout is INT_MAX exactly if the alarm could not be started. |
| UartDriver.Driver.SetTimeout | software/usb_kb_bsp/drivers/src/altera_avalon_jtag_uart_ioctl.c:60-68 | The timeout is changed only when there is a timer; values outside 2..INT_MAX-1 become INT_MAX - 1, and INT_MAX is never set. |
| UartDriver.Driver.GetConnected | software/usb_kb_bsp/drivers/src/altera_avalon_jtag_uart_ioctl.c:70-77 | A timeout of INT_MAX - 1 never expires. |
| UartDriver.Driver.Do | software/usb_kb_bsp/drivers/src/altera_avalon_jtag_uart_read.c:197-202 | Without a timer a blocking write that returns has taken all its data, and a blocking read with space that returns has at least one byte; delivered and accepted bytes grow by exactly what was reported. The timeout changes only as the call asks, and a close that returns without a timeout leaves nothing unsent. |
| UartDevice.Device.ReadData | software/usb_kb_bsp/drivers/src/altera_avalon_jtag_uart_init.c:144-149 | RVALID iff the FIFO was not empty; RVALID = 0 implies RAVAIL = 0. |
| UartDevice.Device.WriteData | software/usb_kb_bsp/drivers/src/altera_avalon_jtag_uart_init.c:176 | A store to DATA appends to the transmit FIFO, and is dropped exactly if that is full. |
| UartDevice.Device.HostRun | software/usb_kb_bsp/drivers/src/altera_avalon_jtag_uart_init.c:119-122 | The host may push, pull and announce itself at any time; an interrupt line is up only while its condition holds. |
| Ring.FreeRun | software/usb_kb_bsp/drivers/src/altera_avalon_jtag_uart_write.c:109-122 | Stores into the free run disturb nothing queued. |
| Ring.Append | software/usb_kb_bsp/drivers/src/altera_avalon_jtag_uart_write.c:126 | Advancing the producer index past a run queues exactly that run, also when it wraps. |
| Ring.Drop | software/usb_kb_bsp/drivers/src/altera_avalon_jtag_uart_read.c:136-140 | Advancing the consumer index past a run removes exactly that run. |
| Ring.NoReturn | software/usb_kb_bsp/drivers/src/altera_avalon_jtag_uart_write.c:183 | No ABA: while the other index stands still, an index equals its sampled value exactly when nothing moved. |
| AlarmScheduler.Scheduler.Run | software/usb_kb_bsp/HAL/src/alt_tick.c:87-141 | Over any run of ticks, starts and stops, across any number of wraps: every alarm, also one that the run itself starts and stops, is called back at exactly the ticks of its schedule on an unbounded clock, and is registered exactly as long as it has a next one, unless it is started with the delay 0xFFFFFFFF. An alarm that the run leaves alone is called back at the ticks that its periods add up to. |
| AlarmScheduler.StoppedIsSilent | software/usb_kb_bsp/HAL/src/alt_tick.c:66-73 | After a stop there is no callback until the next start. |
| AlarmScheduler.UnmentionedPlan | software/usb_kb_bsp/HAL/src/alt_tick.c:115-137 | The schedule of an alarm that is left alone, in closed form. |
| AlarmScheduler.Scheduler.Tick | software/usb_kb_bsp/HAL/src/alt_tick.c:87-141 | One tick visits each alarm registered at its start exactly once, also when alarms leave the list during the walk; it calls back exactly those whose due tick the unbounded clock has reached; what is left is the old list without those that ended, in order, still a well-formed circular list. |
| AlarmScheduler.Scheduler.Visit | software/usb_kb_bsp/HAL/src/alt_tick.c:109-137 | The body of the walk: a callback iff due now; a returned period re-arms exactly, a zero unlinks. |
| AlarmScheduler.Scheduler.Rearm | software/usb_kb_bsp/HAL/src/alt_tick.c:126-138 | In the due tick the next due tick is exactly one period ahead; a late alarm adds the period to its old time. |
| AlarmScheduler.Scheduler.VisitAndStep | software/usb_kb_bsp/HAL/src/alt_tick.c:102-140 | Reading next first makes the walk go on at the following alarm although the present one may unlink itself; the alarms behind are done with, those ahead untouched. |
| AlarmScheduler.Scheduler.Start | software/usb_kb_bsp/HAL/src/alt_alarm_start.c:71-112 | The alarm is put first in the list; it is due delay + 1 ticks ahead exactly if the delay is not 0xFFFFFFFF or the counter is about to wrap; the error returns change nothing. |
| AlarmScheduler.Scheduler.Stop | software/usb_kb_bsp/HAL/src/alt_tick.c:66-73 | The alarm leaves the list; stopping one that has left already is harmless. |
| AlarmScheduler.Insert | software/usb_kb_bsp/HAL/inc/sys/alt_llist.h:90-98 | Insertion behind the head yields a well-formed circular doubly linked list. |
| AlarmScheduler.Remove | software/usb_kb_bsp/HAL/inc/sys/alt_llist.h:105-117 | Removal yields the list without the entry, which then points to itself; a second removal changes no list. |
| AlarmScheduler.Bypassed | software/usb_kb_bsp/HAL/inc/sys/alt_llist.h:107-108 | Links that go round an entry form the circular list without it. |
| AlarmScheduler.NextInWalk | software/usb_kb_bsp/HAL/src/alt_tick.c:100-102 | Where the walk goes after alarms behind it have left. |
| AlarmTime.TickKeepsDue | software/usb_kb_bsp/HAL/src/alt_tick.c:96-115 | The 32-bit test with its rollover flag passes at exactly the due tick of the unbounded clock, and until then the due tick does not change. |
| AlarmTime.StartIsDue | software/usb_kb_bsp/HAL/src/alt_alarm_start.c:82-96 | Starting is exact iff the delay is not 0xFFFFFFFF or the counter stands at its last value; otherwise the alarm goes off at the next tick. |
| AlarmTime.RearmIsDue | software/usb_kb_bsp/HAL/src/alt_tick.c:126-137 | Re-arming in the due tick keeps every period from 1 to 0xFFFFFFFF exactly. |
| AlarmTime.RolloverMeansNextWrap | software/usb_kb_bsp/HAL/src/alt_alarm_start.c:89-96 | The flag is set only if the due tick lies in the next wrap of the counter; except in the last tick of a wrap it is set exactly then. |
| AlarmTime.OneMoreTick | software/usb_kb_bsp/HAL/src/alt_tick.c:96-137 | One tick of the unbounded schedule. |
| FdSpec.AtMostOneHolder | software/usb_kb_bsp/HAL/src/alt_fd_lock.c:61-69 | In every run of open, close, ioctl, fcntl and redirection, at most one descriptor of a device carries the lock. |
| FdSpec.StepKeeps | software/usb_kb_bsp/HAL/src/alt_fd_lock.c:54-75 | The inductive fact: any other user of a locked device has a larger index than the holder and no lock; every operation keeps it. |
| FdSpec.LockKeeps | software/usb_kb_bsp/HAL/src/alt_fd_lock.c:61-71 | Granting a lock keeps it, although the scan skips the descriptor at the high-water mark. |
| FdSpec.LockTestIsComplete | software/usb_kb_bsp/HAL/src/alt_open.c:79-92 | The lock test of open finds a holder of the device wherever it is. |
| FdSpec.LockTestIsSound | software/usb_kb_bsp/HAL/src/alt_open.c:79-92 | It takes nothing else for a lock on the device. |
| FdSpec.OpenEffect | software/usb_kb_bsp/HAL/src/alt_open.c:105-171 | A successful open takes one free descriptor above the stdio ones, on a device that nobody has locked; a failing one moves no device pointer and clears at most the flags of the first free descriptor. |
| FdSpec.OpenAnswers | software/usb_kb_bsp/HAL/src/alt_open.c:118-166 | What open answers: ENODEV, EMFILE, EACCES exactly if somebody has locked the device, the refusal of the driver, or the lowest free descriptor. |
| FdSpec.OpenSucceeds | software/usb_kb_bsp/HAL/src/alt_open.c:118-166 | An open succeeds exactly if there is such a name, a free descriptor, no lock on the device, and no refusal. |
| FdSpec.OpenedFields | software/usb_kb_bsp/HAL/src/alt_open.c:132-150 | The device, flags and private pointer of a new descriptor, and the high-water mark. |
| FdSpec.OpenKeeps | software/usb_kb_bsp/HAL/src/alt_open.c:105-171 | Open keeps the inductive fact in all its cases. |
| FdSpec.RedirectKeeps | software/usb_kb_bsp/HAL/src/alt_io_redirect.c:58-72 | So does moving a temporary descriptor over a stdio one. |
| FdSpec.ReleaseKeeps | software/usb_kb_bsp/HAL/src/alt_release_fd.c:44-51 | So does releasing a descriptor. |
| FdSpec.FcntlKeeps | software/usb_kb_bsp/HAL/src/alt_fcntl.c:66-101 | So does fcntl, whatever flags it is given. |
| FdSpec.IoctlKeeps | software/usb_kb_bsp/HAL/src/alt_ioctl.c:106-168 | So do the lock and unlock requests. |
| FdSpec.LockFreezesUsersInRun | software/usb_kb_bsp/HAL/src/alt_fd_lock.c:38-50 | While a device stays locked, the set of descriptors open on it never grows. |
| FdSpec.LockFreezesUsers | software/usb_kb_bsp/HAL/src/alt_open.c:143-166 | No single operation adds a user of a device that is locked. |
| FdSpec.GrantMeansSole | software/usb_kb_bsp/HAL/src/alt_fd_lock.c:61-71 | A sole user always gets the lock; a grant means sole user exactly if the descriptor at the high-water mark is the applicant or is on another device. |
| FdSpec.GrantToOneOfTwo | software/usb_kb_bsp/HAL/src/alt_fd_lock.c:61-71 | The run that shows the difference: two opens of one device and a lock on the first, granted. |
| FdSpec.FailedOpenRestores | software/usb_kb_bsp/HAL/src/alt_open.c:161-166 | A failing open leaves devices and flags of the table as they were exactly if no descriptor was claimed or the claimed one had no stale flags. |
| FdSpec.FailedOpenLeavesTable | software/usb_kb_bsp/HAL/src/alt_open.c:130-166 | In every run from the initial pool in which fcntl sets flags of open descriptors only, every failing open leaves all devices and flags as they were. |
| FdSpec.RunKeepsClean | software/usb_kb_bsp/HAL/src/alt_release_fd.c:44-51 | In such runs free descriptors have no flags. |
| FdSpec.FailedOpenChangesFlags | software/usb_kb_bsp/HAL/src/alt_fcntl.c:86-92 | The run that shows the difference: fcntl on closed descriptor 3, then an open that the driver refuses. |
| FdSpec.FailedOpenFlags | software/usb_kb_bsp/HAL/src/alt_open.c:161-166 | In any case it leaves no device mark and no lock that was not there. |
| FdSpec.CloseReleasesLock | software/usb_kb_bsp/HAL/src/alt_release_fd.c:44-51 | Close releases the lock of its descriptor exactly for descriptors above 2. |
| FdSpec.StdioLockOutlivesClose | software/usb_kb_bsp/HAL/src/alt_release_fd.c:44-51 | The run that shows it: standard input redirected, locked and closed, and still locked. |
| FdSpec.UnlockUndoesLock | software/usb_kb_bsp/HAL/src/alt_fd_lock.c:54-75 | A granted lock is held by the applicant alone; unlocking always releases, and undoes a grant completely. |
| FdSpec.IoctlLocks | software/usb_kb_bsp/HAL/src/alt_ioctl.c:127-132 | TIOCEXCL is refused exactly if another descriptor below the high-water mark is on the device; otherwise only the lock bit is set. |
| FdSpec.IoctlUnlocks | software/usb_kb_bsp/HAL/src/alt_ioctl.c:134-138 | TIOCNXCL answers 0 and clears the lock bit only. |
| FdSpec.RequestsUndo | software/usb_kb_bsp/HAL/src/alt_ioctl.c:127-138 | A granted TIOCEXCL followed by TIOCNXCL gives the table back. |
| FdSpec.IoctlAnswers | software/usb_kb_bsp/HAL/src/alt_ioctl.c:117-166 | All other requests go to the driver, or are ENOTTY; they change nothing. |
| FdSpec.CloseUndoesOpen | software/usb_kb_bsp/HAL/src/alt_close.c:64-101 | Closing what was just opened gives every descriptor its device and flags back, but for stale flags of the one taken. |
| FdSpec.CloseAnswers | software/usb_kb_bsp/HAL/src/alt_close.c:75-100 | Close answers what the driver does, and frees the descriptor either way. |
| FdSpec.RedirectEffect | software/usb_kb_bsp/HAL/src/alt_io_redirect.c:58-94 | Redirection moves the device to the stdio slot, unlocked, and leaves no descriptor behind; a failing one moves nothing. |
| FdSpec.FcntlShowsWhatItSet | software/usb_kb_bsp/HAL/src/alt_fcntl.c:80-95 | F_GETFL shows the settable flags that F_SETFL set and the others as they were, never the lock and device bits; nothing else changes. |
| FdSpec.FcntlAnswers | software/usb_kb_bsp/HAL/src/alt_fcntl.c:78-100 | The answers of fcntl, its errors included. |
| FdSpec.Initial | software/usb_kb_bsp/HAL/src/alt_dev.c:118-149 | The initial pool satisfies the invariant. |
| FdSpec.FirstFree | software/usb_kb_bsp/HAL/src/alt_get_fd.c:77-95 | The first free descriptor, if there is one. |
| FdTable.Pool.GetFd | software/usb_kb_bsp/HAL/src/alt_get_fd.c:54-101 | The loop claims the first free descriptor and raises the high-water mark, or reports EMFILE and changes nothing. |
| FdTable.Pool.FileLocked | software/usb_kb_bsp/HAL/src/alt_open.c:64-92 | The scan answers whether another descriptor up to the high-water mark holds the lock of the same device, and marks the descriptor as a device. |
| FdTable.Pool.Open | software/usb_kb_bsp/HAL/src/alt_open.c:105-171 | In place, open does to the table exactly what its specification does, keeps the invariant and sets errno exactly on failure. |
| FdTable.Pool.FdLock | software/usb_kb_bsp/HAL/src/alt_fd_lock.c:54-75 | The scan refuses exactly if a descriptor below the high-water mark shares the device; otherwise only the lock bit changes. |
| FdTable.Pool.FdUnlock | software/usb_kb_bsp/HAL/src/alt_fd_unlock.c:52-56 | Only the lock bit of the descriptor changes. |
| FdTable.Pool.Ioctl | software/usb_kb_bsp/HAL/src/alt_ioctl.c:106-168 | In place, ioctl refines its specification. |
| FdTable.Pool.Close | software/usb_kb_bsp/HAL/src/alt_close.c:64-101 | In place, close refines its specification; the descriptor is freed even if the driver fails. |
| FdTable.Pool.Fcntl | software/usb_kb_bsp/HAL/src/alt_fcntl.c:66-101 | In place, fcntl refines its specification. |
| FdTable.Pool.ReleaseFd | software/usb_kb_bsp/HAL/src/alt_release_fd.c:44-51 | Device and flags are cleared above descriptor 2 only. |
| FdTable.Pool.OpenFd | software/usb_kb_bsp/HAL/src/alt_io_redirect.c:58-72 | In place, redirection of one slot refines its specification. |
| FdTable.Pool.IoRedirect | software/usb_kb_bsp/HAL/src/alt_io_redirect.c:85-94 | The three redirections, in the order output, input, error. |
| TimeOfDay.ClockRunsTrue | software/usb_kb_bsp/HAL/src/alt_gettod.c:89-112 | After settimeofday(t) at tick n, gettimeofday d ticks later shows exactly t + d * 10^6 / rate microseconds if and only if the two residues agree and the seconds fit in 32 bits both before and after the carry, or the time to be shown is zero and is clamped to zero; if the rate divides 10^6 and the counter has not wrapped. It is always normalised. |
| TimeOfDay.ClockRunsTrueAtFirst | software/usb_kb_bsp/HAL/src/alt_settod.c:83-84 | As long as the 32-bit product has not wrapped, it does so if and only if the seconds fit. |
| TimeOfDay.ClockFalls | software/usb_kb_bsp/HAL/src/alt_gettod.c:89-112 | An input that shows the limit: the time to be shown still fits, but zero is shown. |
| TimeOfDay.RoundTrip | software/usb_kb_bsp/HAL/src/alt_settod.c:80-87 | At d = 0 the time read is the time set exactly if the two residues agree, or the time is zero and is clamped to zero. |
| TimeOfDay.ResiduesAgree | software/usb_kb_bsp/HAL/src/alt_settod.c:83-84 | They agree exactly if the number of times the 32-bit product wrapped is a multiple of 15625. |
| TimeOfDay.RoundTripFails | software/usb_kb_bsp/HAL/src/alt_settod.c:83-84 | An input that shows it: 4294968 ticks after boot at 1000 a second. |
| TimeOfDay.Clock.GetTimeOfDay | software/usb_kb_bsp/HAL/src/alt_gettod.c:71-124 | The time shown is the calibrated sum of seconds and microseconds, each in 32 bits, normalised; without a system clock it is an error. |
| TimeOfDay.Normalise | software/usb_kb_bsp/HAL/src/alt_gettod.c:95-112 | The two loops compute the quotient and remainder of the microseconds; a time before zero becomes zero, and the seconds wrap. |
| TimeOfDay.Clock.SetTimeOfDay | software/usb_kb_bsp/HAL/src/alt_settod.c:72-96 | The calibration with its 32-bit product and conversions to signed 32 bits. |
| TimeOfDay.Normalised | software/usb_kb_bsp/HAL/src/alt_gettod.c:95-112 | The total number of microseconds is kept up to a wrap of the seconds, and the microseconds end up below one second. |
| TimeOfDay.WholeMicros | software/usb_kb_bsp/HAL/src/alt_gettod.c:90-93 | A rate that divides 10^6 loses no microseconds between seconds and residue. |
| TimeOfDay.ShownFromBoot | software/usb_kb_bsp/HAL/src/alt_gettod.c:89-94 | What a clock that was never set shows, for every rate. |
| TimeOfDay.UnevenRate | software/usb_kb_bsp/HAL/src/alt_gettod.c:89-94 | A rate that does not divide a second makes it jump ahead and back. |
| Nesting.NestingIsBounded | software/usb_kb_bsp/HAL/inc/priv/alt_legacy_irq.h:118-149 | From boot, in every run in which handlers pair the two calls: at most 32 invocations at once, and each has a strictly lower line number than those it preempted. |
| Nesting.InterruptIsTransparent | software/usb_kb_bsp/HAL/inc/priv/alt_legacy_irq.h:118-149 | However handlers nest, when an interrupt returns the preempted code finds its own stack of invocations, its priority mask, PIE set, and IENABLE equal to the active lines under the mask. |
| Nesting.PreemptionIsTransparent | software/usb_kb_bsp/HAL/inc/priv/alt_legacy_irq.h:139-149 | The same from alt_irq_interruptible to its alt_irq_non_interruptible. |
| Nesting.RunKeeps | software/usb_kb_bsp/HAL/inc/priv/alt_legacy_irq.h:118-149 | The control registers are always a function of alt_irq_active and the stack of invocations. |
| Nesting.StepKeeps | software/usb_kb_bsp/HAL/inc/priv/alt_legacy_irq.h:118-149 | ... kept by each step. |
| Nesting.OutermostStays | software/usb_kb_bsp/HAL/src/alt_irq_handler.c:128-159 | Nothing that runs above an invocation changes the invocations below. |
| Nesting.Preemption | software/usb_kb_bsp/HAL/inc/priv/alt_legacy_irq.h:126-128 | Lines fall strictly with depth, and the mask admits only lines below the innermost interruptible one. |
| Nesting.DepthAndLine | software/usb_kb_bsp/HAL/inc/priv/alt_legacy_irq.h:126-128 | Depth plus line number never exceeds 32. |
| Nesting.TakenIf | software/usb_kb_bsp/HAL/inc/priv/alt_legacy_irq.h:126-130 | A request is taken exactly of a line that is active and below the innermost interruptible one. |
| Nesting.ServedIf | software/usb_kb_bsp/HAL/src/alt_irq_handler.c:128-155 | The line served is the lowest one requested, active and not masked. |
| Nesting.ExitsIf | software/usb_kb_bsp/HAL/src/alt_irq_handler.c:157-159 | The dispatch loop ends exactly when there is none. |
| Nesting.LinesSwitched | software/usb_kb_bsp/HAL/inc/priv/alt_legacy_irq.h:68-99 | Enabling and disabling change the one line. |
| Nesting.StaysDisabled | software/usb_kb_bsp/HAL/inc/priv/alt_legacy_irq.h:68-81 | A line that is not active is not served in any run until it is enabled again. |
| Nesting.WriteActiveIsSafe | software/usb_kb_bsp/HAL/inc/priv/alt_legacy_irq.h:75-76 | Writing alt_irq_active to IENABLE without regard to the mask respects the mask exactly when no active line is masked. |
| Nesting.EnableKeepsOrder | software/usb_kb_bsp/HAL/inc/priv/alt_legacy_irq.h:68-99 | After an enable or disable at any point, no run lets a line preempt one of the same or higher priority, if and only if no line active afterwards is masked at that point. |
| Nesting.LowerPriorityPreempts | software/usb_kb_bsp/HAL/inc/priv/alt_legacy_irq.h:86-99 | A run from boot that shows it: the handler of line 1, open to preemption, enables line 2, which preempts it. |
| Interrupts.Controller.Register | software/usb_kb_bsp/HAL/src/alt_iic_isr_register.c:75-101 | Handler and enable bit change together: afterwards every line enabled in IENABLE has a handler; an id from 32 on changes nothing. |
| Interrupts.Controller.Dispatch | software/usb_kb_bsp/HAL/src/alt_irq_handler.c:128-159 | Entered with a pending line, each pass ends and calls the non-null handler of the lowest-numbered line pending then, whatever handlers have registered or unregistered before, until none is pending. |
| Interrupts.LowestIsEnabled | software/usb_kb_bsp/HAL/src/alt_irq_handler.c:143-150 | A pending line is enabled and requested. |
| Nesting.PendingBits | software/usb_kb_bsp/HAL/inc/sys/alt_irq.h:231-238 | A line is pending exactly if it is requested and enabled. |
| Words.FindLowest | software/usb_kb_bsp/HAL/src/alt_irq_handler.c:132-155 | The bit scan ends within the word and finds the lowest set bit. |
| Words.ScanStep | software/usb_kb_bsp/HAL/src/alt_irq_handler.c:143-153 | A step of the scan: as long as the bits seen are clear, the line is below 31 and the mask does not vanish. |
| Words.LowestIsLowest | software/usb_kb_bsp/HAL/src/alt_irq_handler.c:130-153 | No pending line has a smaller number. |
| Words.ScanNeedsPending | software/usb_kb_bsp/HAL/src/alt_irq_handler.c:130-155 | Without a pending line no shifted mask ever meets a bit, so the scan would not end. |
| Interrupts.Controller.IrqEnable | software/usb_kb_bsp/HAL/inc/priv/alt_legacy_irq.h:86-99 | The line becomes active, IENABLE is alt_irq_active, PIE and mask are as before; every enabled line still has a handler exactly if this one has. |
| Interrupts.Controller.IrqDisable | software/usb_kb_bsp/HAL/inc/priv/alt_legacy_irq.h:68-81 | The same for disabling, also while the table entry of that line is null. |
| Interrupts.Controller.AllowPreemption | software/usb_kb_bsp/HAL/inc/priv/alt_legacy_irq.h:118-133 | Mask and IENABLE admit only lines below the priority; the old mask is returned. |
| Interrupts.Controller.ForbidPreemption | software/usb_kb_bsp/HAL/inc/priv/alt_legacy_irq.h:139-149 | The given mask is back in force and PIE is clear. |
| Interrupts.Controller.DisableAll | software/usb_kb_bsp/HAL/inc/sys/alt_irq.h:114-123 | PIE is clear and the former value is returned, so that sections nest. |
| Interrupts.Controller.EnableAll | software/usb_kb_bsp/HAL/inc/sys/alt_irq.h:144-159 | PIE is what the context says. |
| Profiler.Memories.Run | software/usb_kb_bsp/HAL/src/alt_gmon.c:159-207 | Any run of sbrk requests, client stores and profiled calls completes if the heap holds what it may need, with handlers anywhere in the searches and between load and store of a count. In 32 bits, each tally reachable from the hash heads falls short of the calls made by no more than the calls that handlers make of the same pair between a load and its store, so by none for a pair without such calls; and if no handler that interrupts a search is profiled, it falls short by exactly the calls that a function of the run gives, so it is right if and only if these are none (modulo 2^32). Nothing handed out or recorded is lost; each word of a client holds what clients last stored there; and if no handler that interrupts a search is profiled, there is one entry per function and one arc per caller. |
| Profiler.Memories.Mcount | software/usb_kb_bsp/HAL/src/alt_mcount.S:59-123 | The fast path counts an existing arc, the slow path records a new one. If the increment was interrupted, the tally of the pair grows by one only, so it is right if and only if no handler called the same pair in between (modulo 2^32); the tallies of all other pairs grow as the handlers call them. |
| ProfiledRuns.RunCounts | software/usb_kb_bsp/HAL/src/alt_mcount.S:59-123 | What a whole run says of the tally of each pair. |
| Profiler.Memories.InterruptedIncrement | software/usb_kb_bsp/HAL/src/alt_mcount.S:120-122 | A run that shows it, on a heap with room for six slabs: three calls of which two are counted. |
| Profiler.Memories.Increment | software/usb_kb_bsp/HAL/src/alt_mcount.S:118-123 | The fast path with its window: what has become of the count in between is stored over. |
| ProfiledRuns.WentTrans | software/usb_kb_bsp/HAL/src/alt_gmon.c:159-207 | What parts of a run do adds up to what the run does. |
| ProfiledRuns.WentFast | software/usb_kb_bsp/HAL/src/alt_mcount.S:118-123 | What an interrupted increment does to all tallies, counts and client words: only the increments of its arc in the window are lost, no more than the calls of its pair there. |
| ProfiledRuns.WentSlow | software/usb_kb_bsp/HAL/src/alt_gmon.c:182-206 | What a call that records a new arc does to them: nothing is lost. |
| ProfiledRuns.ExactFast | software/usb_kb_bsp/HAL/src/alt_mcount.S:118-123 | With one arc for each pair, an interrupted increment loses exactly the calls of its pair in the window. |
| ProfiledRuns.FastMoved | software/usb_kb_bsp/HAL/src/alt_mcount.S:118-123 | No count moves by more than the calls of its pair. |
| ProfiledRuns.WordsOfCall | software/usb_kb_bsp/HAL/src/alt_gmon.c:182-206 | The words of clients are those that the handlers left. |
| ProfiledRuns.LostIsLapse | software/usb_kb_bsp/HAL/src/alt_mcount.S:118-123 | The calls lost are among those made between a load and its store. |
| ProfiledRuns.AtomicHasNoLapses | software/usb_kb_bsp/HAL/src/alt_mcount.S:118-123 | There are none if no handler there is profiled. |
| Profiler.Memories.FindFn | software/usb_kb_bsp/HAL/src/alt_mcount.S:70-75 | The chain search ends although handlers add entries meanwhile, and finds an entry of the function; if no handler is profiled it returns null exactly if there is none. |
| Profiler.Memories.FindArc | software/usb_kb_bsp/HAL/src/alt_mcount.S:79-84 | The arc search, which reads the first arc without a test, never reads null, ends although handlers add arcs meanwhile, and finds an arc of the caller; if no handler is profiled it returns null exactly if there is none. |
| Profiler.Memories.Record | software/usb_kb_bsp/HAL/src/alt_gmon.c:182-206 | One more call is recorded, every earlier entry and arc is still reachable. |
| Profiler.Memories.NewFn | software/usb_kb_bsp/HAL/src/alt_gmon.c:184-194 | The new entry heads its chain. |
| Profiler.Memories.NewArc | software/usb_kb_bsp/HAL/src/alt_gmon.c:198-204 | The new arc, of count 1, heads the list of its entry. |
| Profiler.Memories.Allocate | software/usb_kb_bsp/HAL/src/alt_gmon.c:133-148 | A node is fresh, above every node before, in the slab or a new one; (void*)-1 is handed out exactly if the slab is used up and the heap has no room for another. |
| Profiler.Memories.Sbrk | software/usb_kb_bsp/HAL/src/alt_sbrk.c:68-136 | The request gets the word-aligned heap end exactly if it fits below the limit; a refused one only aligns. |
| Heap.AlignUpIs | software/usb_kb_bsp/HAL/src/alt_sbrk.c:76 | The heap end is moved to the next multiple of 4. |
| Profiler.Memories.Grant | software/usb_kb_bsp/HAL/src/alt_sbrk.c:68-136 | A region given to a client overlaps nothing given out before; it is refused exactly if it does not fit. |
| Profiler.Memories.ClientWrite | software/usb_kb_bsp/HAL/src/alt_sbrk.c:95-135 | A store of a word into one region changes no other word of any region and no part of the call graph. |
| Heap.GrantClient | software/usb_kb_bsp/HAL/src/alt_sbrk.c:73-95 | Regions, nodes and slab stay aligned, pairwise disjoint and in the heap when a client is served. |
| Heap.GrantSlab | software/usb_kb_bsp/HAL/src/alt_gmon.c:137-141 | ... when a slab is taken ... |
| Heap.CutNode | software/usb_kb_bsp/HAL/src/alt_gmon.c:143-147 | ... and when a node is cut from it. |
| CallGraph.SetCountAt | software/usb_kb_bsp/HAL/src/alt_mcount.S:120-122 | The store of a count changes the chain in just that arc. |
| CallGraph.AddArcAt | software/usb_kb_bsp/HAL/src/alt_gmon.c:200-204 | The stores of a new arc change the chain in just that entry. |
| GraphStores.GraphSetCount | software/usb_kb_bsp/HAL/src/alt_mcount.S:120-122 | ... and leave the other 63 chains as they are. |
| GraphStores.GraphAddArc | software/usb_kb_bsp/HAL/src/alt_gmon.c:200-204 | ... and leave the other 63 chains as they are. |
| GraphStores.GraphNewFn | software/usb_kb_bsp/HAL/src/alt_gmon.c:189-193 | The stores of a new entry put it at the head of its chain and leave the others as they are. |
| CallGraph.SetCountCounts | software/usb_kb_bsp/HAL/src/alt_mcount.S:120-122 | Storing a count takes the old one off one tally and adds the new one; no other tally changes. |
| CallGraph.AddArcCounts | software/usb_kb_bsp/HAL/src/alt_gmon.c:198-204 | So does a new arc, also when it is a second copy. |
| CallGraph.HeadIsIt | software/usb_kb_bsp/HAL/src/alt_mcount.S:70-75 | Addresses fall along a chain, so that an arc belongs to one entry of one chain. |
| CallGraph.HeadOffset | software/usb_kb_bsp/HAL/src/alt_mcount.S:57-63 | The hash head of a function is where the assembler looks for it. |
| NumberPrinting.PrintInteger | software/usb_kb_bsp/HAL/src/alt_log_printf.c:208-297 | The printed text is the sign and the numeral of the magnitude, right-aligned and filled with zeros after the sign or blanks before it, for every 32-bit word and base, the most negative integer included. |
| NumberPrinting.CountDigits | software/usb_kb_bsp/HAL/src/alt_log_printf.c:248-255 | The place value found is the power of the base for the leading digit, and its 32-bit product never overflows. |
| NumberPrinting.PrintDigits | software/usb_kb_bsp/HAL/src/alt_log_printf.c:282-296 | The loop from the leading place value down prints the digits of the value, leading one first. |
| NumberPrinting.PrintLead | software/usb_kb_bsp/HAL/src/alt_log_printf.c:258-279 | Fill and sign. |
| NumberPrinting.RepChar | software/usb_kb_bsp/HAL/src/alt_log_printf.c:106-110 | A character repeated, not at all for a count that is not positive. |
| NumberPrinting.PrintedRoundTrip | software/usb_kb_bsp/HAL/src/alt_log_printf.c:238-297 | The text reads back as the number. |
| NumberPrinting.PrintedWidth | software/usb_kb_bsp/HAL/src/alt_log_printf.c:258-279 | Its width is the larger of the requested width and digits plus sign. |
| NumberPrinting.PrintedZeros | software/usb_kb_bsp/HAL/src/alt_log_printf.c:259-267 | With the zero flag the text is the sign, zeros and the digits; the first digit is a zero only for zero. |
| NumberPrinting.PrintedBlanks | software/usb_kb_bsp/HAL/src/alt_log_printf.c:268-279 | Without it, blanks, the sign and the digits. |
| NumberPrinting.PrintedCase | software/usb_kb_bsp/HAL/src/alt_log_printf.c:286-292 | No capital letter under %x, no small one under %X. |
| NumberPrinting.GlyphIs | software/usb_kb_bsp/HAL/src/alt_log_printf.c:286-292 | The sixteen digits in either case. |
| NumberPrinting.SignedIs | software/usb_kb_bsp/HAL/src/alt_log_printf.c:241-245 | The signed reading of a word. |
| Numerals.NumeralValue | software/usb_kb_bsp/HAL/src/alt_log_printf.c:282-297 | A numeral evaluates to its value, with no superfluous leading digit. |
| Numerals.NumeralUnique | software/usb_kb_bsp/HAL/src/alt_log_printf.c:282-297 | It is the only digit sequence that does. |
| Numerals.NumeralIsLow | software/usb_kb_bsp/HAL/src/alt_log_printf.c:248-255 | With the right number of places, counting down from the leading place yields the numeral. |
| Numerals.LowSplit | software/usb_kb_bsp/HAL/src/alt_log_printf.c:284-296 | Taking off the leading digit leaves the digits of the remainder. |
| NumberPrinting.PrintHex | software/usb_kb_bsp/HAL/src/alt_printf.c:82-111 | The shift-based %x prints what the division-based one does without a width. |
| LogFormat.FormatIsRead | software/usb_kb_bsp/HAL/src/alt_log_printf.c:114-341 | Every format string written in the grammar of directives prints what its directives mean, with the arguments in order, up to its terminator. |
| LogFormat.LogPrintf | software/usb_kb_bsp/HAL/src/alt_log_printf.c:114-341 | The loop computes the state machine on the string up to its terminator. |
| LogFormat.FeedDirective | software/usb_kb_bsp/HAL/src/alt_log_printf.c:134-337 | A directive takes the machine from text to text and prints the next argument with its flag and width. |
| LogFormat.FeedWidth | software/usb_kb_bsp/HAL/src/alt_log_printf.c:170-196 | The digits of a width accumulate to its value, unless the first is the zero flag. |
| LogFormat.PrintDirective | software/usb_kb_bsp/HAL/src/alt_log_printf.c:202-335 | What each type letter prints. |
| LogFormat.NumberLetters | software/usb_kb_bsp/HAL/src/alt_log_printf.c:204-317 | Base, sign and case of each numeric letter. |
| LogFormat.OtherLetters | software/usb_kb_bsp/HAL/src/alt_log_printf.c:319-335 | What c, s and all other letters print, and which letters take an argument. |
| Vga.ClosedForm | VGA_controller.sv:61-109 | After n pixel clocks the counters are n mod 800 and n / 800 mod 525; hs is low exactly on columns 656 to 751; vs, registered one pixel late, is low exactly one pixel after lines 489 and 490. |
| Vga.Position | VGA_controller.sv:61-119 | The pixel after n clocks is at column n mod 800 and row n / 800 mod 525, and is displayed exactly within 640 by 480. |
| Vga.FrameContents | VGA_controller.sv:61-119 | Any 420000 consecutive pixel clocks after the first contain exactly 307200 displayed pixels, 50400 with hs low and 1600 with vs low. |
| Vga.SyncsAreBlanked | VGA_controller.sv:87-119 | Neither sync is low on a displayed pixel, except at reset. |
| Vga.Controller.Clock | VGA_controller.sv:52-109 | Every second edge of the 50 MHz clock is a pixel clock; the registers are those of the closed form. |
| Vga.Controller.PixelClock | VGA_controller.sv:61-109 | All registers take their values from before the edge. |
| Vga.Controller.Reset | VGA_controller.sv:52-109 | Reset restarts the frame. |
| Vga.CountBox | VGA_controller.sv:110-119 | A box of columns and rows is met once per frame for each of its pixels, wherever the frame is cut. |
| Vga.CountWindow | VGA_controller.sv:61-80 | What has the period of a frame occurs equally often in every window of that length. |

## Left out

- UartDriver.Driver.Run: one foreground caller at a time, since the semaphores expand to nothing in this single-threaded HAL; a run that never ends is covered by its finite beginnings.
- UartDriver.Driver.Timeout: the shipped configuration has no system clock, so its alarm never starts there; both cases are modelled.
- AlarmScheduler.Scheduler.Start: starting an alarm that is already registered, which corrupts the list in the source too.
- AlarmScheduler.Scheduler.Tick: callbacks that start or stop other alarms; one that stops the saved next alarm makes the walk of the source spin.
- FdSpec.AtMostOneHolder: descriptor numbers at or above the table size, and close or ioctl of a descriptor that is not open, which the source does not check.
- FdTable.Pool.Fcntl: the two settable flags have the values of newlib, whose headers are not part of this model.
- Nesting.NestingIsBounded: critical sections inside handlers, software exceptions, and devices that withdraw a request between the entry test and the scan.
- Interrupts.Controller.Dispatch: handlers that open themselves to preemption (what nested ones do is in Nesting), and an entry without a pending line, which the exception entry has ruled out.
- Interrupts.Controller.Register: identifiers of 2^31 and more, which the source turns into negative table indices.
- Profiler.Memories.Grant: negative requests, which let the heap shrink under nodes already handed out; client stores are whole words.
- Profiler.Memories.constructor: heap limits that are not word-aligned or lie above 2^31; the linker script sets 0x10000000.
- Profiler.Memories.Allocate: sizes other than that of a node (12 bytes), which the source never asks for.
- NumberPrinting.PrintHex: masking and shifting a 32-bit word are stated as the nibble v / 16^k mod 16.
- LogFormat.FormatIsRead: argument lists that do not match the directives, and widths that overflow an int.
- The polled small UART driver, the uC/OS-II branches, ALT_USE_DIRECT_DRIVERS, IGNORE_FIFO_FULL, ALT_CI_INTERRUPT_VECTOR and ALT_STACK_CHECK: not selected.
- The %s, %c and %% cases of alt_printf, character output and variadic reading: straight-line glue.
- PC sampling, cache handling, boot code, exception entry in assembly, system-call stubs: little state of their own.
- USB enumeration, the game logic, the colour mapper, sine table and ROMs: constants, or files that are missing.
- The composite sync output, blank and pixel_clk of the VGA controller: direct assignments.
