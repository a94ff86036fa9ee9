# BlastIt: models of the gauge firmware, its board support package and its BCD hardware

This project models the stateful cores of the BlastIt gauge controller and proves what they keep over
whole runs. `dafny verify dfyconfig.toml` checks all of it.

| file | subject |
|---|---|
| `Ring.dfy`, `JtagUart.dfy` | the interrupt-driven JTAG UART driver: two lock-free rings shared by main code and an interrupt routine |
| `Basics.dfy` | types that several modules share |
| `AlarmTiming.dfy`, `AlarmList.dfy`, `AlarmWalk.dfy`, `AlarmService.dfy` | alarms on a circular doubly linked list, driven by a wrapping 32-bit tick counter |
| `Arithmetic.dfy`, `Bin2Bcd.dfy`, `Readout.dfy` | the shift-and-add-3 converter, parametric in its widths, and the readouts drawn from its digits |
| `Framing.dfy`, `LineReader.dfy` | the resumable line reader on the OBD2 serial port |
| `FileDescriptors.dfy` | descriptor allocation, exclusive locks and redirection |
| `TimeOfDay.dfy` | setting and reading the wall clock |
| `IntegerPrint.dfy` | integer conversions of the two small printfs |
| `IrqDispatch.dfy` | the interrupt dispatcher |
| `Heap.dfy` | the heap and the profiler's slab allocator on top of it |
| `Blinker.dfy`, `Obd2.dfy` | the blinker element and the OBD2 polling schedule |

Objects that the source updates in place are classes with the same fields; loops of the source are loops
here. Ghost fields record histories (bytes accepted and delivered, callbacks made, blocks handed out), so
that a class invariant is a statement about every run since construction. Integer widths are written out.

## How concurrency is modelled

Main code of the JTAG UART driver calls `Preempt` between any two accesses to shared state, including
between any two bytes copied; `Preempt` runs any number of interrupts, one-second timeouts and device
steps in any order. The device and the host also move inside the interrupt routine. Sections between
`alt_irq_disable_all` and `alt_irq_enable_all` have no such points. The frame of each method says what
the interrupt side can touch.

The device is taken to behave as its interface says: an interrupt bit is set exactly if it is enabled,
there is a byte to read or room to write, and the device's own condition holds (a FIFO threshold, a read
timeout), which may change at any time; a read of the data register without a valid byte reports
nothing remaining. The length of the rings is a parameter.

## Where the code is not what its documentation says

- An alarm with the largest delay goes off at once unless the counter is about to wrap
  (`AlarmTiming.StartFiresOnTime`).
- A granted exclusive lock need not be exclusive: the scan leaves out the topmost descriptor
  (`FileDescriptors.GrantedIsExclusive`, reached by `FileDescriptors.LockShared`).
- Redirecting a standard stream that holds a lock drops the lock without a close; only start-up code
  redirects (`FileDescriptors.Table.OpenFd`).
- A get right after a set does not return the time set once the 32-bit product has wrapped
  (`TimeOfDay.SameTick`, `TimeOfDay.LateSetIsMisread`), and time jumps at every second if the tick rate does
  not divide a million (`TimeOfDay.ElapsedIsLinear`).
- The converter is right for every operand only with four digits or more (`Bin2Bcd.ConvertsAll`; with fewer,
  `Bin2Bcd.OneIsLost`), and shows the magnitude of a negative number only if its input is wide enough
  (`Bin2Bcd.NegativeShowsMagnitude`).
- The profiler hands out the error pointer when the heap is exhausted (`Heap.CarveFromNothing`), and a granted
  request may wrap the address space if the heap lies high in it (`Heap.GrantWrapped`).
- A callback that takes off the list the alarm remembered as the next to visit strands the tick, unless
  something links that alarm again (`AlarmService.StrandedTick`); any other may be taken off
  (`AlarmService.Service.Tick`).
- A blinker started at full duty with divisor 1 leaves the range (`Blinker.StaysInRange`); the divisor is
  documented as greater than 1.
- A readout of a negative value shows no tenths, and magnitudes from 8192 on are shown modulo 8192,
  negated first if bit 14 is set (`Readout.Panel.ReadoutUpdate`, `Readout.ShownModular`).

## Model

| member | source | states |
|---|---|---|
| Ring.FreeRunIsSafe | FPGA/software/controller_bsp/drivers/src/altera_avalon_jtag_uart_write.c:109-117 | The room formula is zero exactly when the ring is full; a piece of that size neither crosses the array end nor makes a full ring look empty, wherever the two indices are. |
| Ring.StoreFree | FPGA/software/controller_bsp/drivers/src/altera_avalon_jtag_uart_write.c:122 | Copying into the free part never disturbs an unsent byte, also where the unsent stretch wraps. |
| Ring.Publish | FPGA/software/controller_bsp/drivers/src/altera_avalon_jtag_uart_write.c:122-126 | A copied piece becomes visible as a whole, appended behind what was there, by the one store to `tx_in`. |
| Ring.Release | FPGA/software/controller_bsp/drivers/src/altera_avalon_jtag_uart_read.c:125-140 | A piece taken by the ready formula is the oldest part of the ring, in order, and the one store to `rx_out` removes exactly that part. |
| Ring.PublishOne | FPGA/software/controller_bsp/drivers/src/altera_avalon_jtag_uart_init.c:149-150 | One byte stored by the interrupt routine is appended, unless the ring was full. |
| Ring.ReleaseOne | FPGA/software/controller_bsp/drivers/src/altera_avalon_jtag_uart_init.c:176-178 | One byte taken by the interrupt routine is the oldest one and is removed. |
| Ring.FullTest | FPGA/software/controller_bsp/drivers/src/altera_avalon_jtag_uart_init.c:137-139 | Advancing the index would make the ring look empty exactly when it holds one element less than its length. |
| JtagUart.Driver.constructor | FPGA/software/controller_bsp/drivers/src/altera_avalon_jtag_uart_init.c:66-100 | The driver starts out with nothing in either direction, receive interrupts on, and a host timeout of ten seconds, or none if the alarm could not be started. |
| JtagUart.Driver.Conservation | FPGA/software/controller_bsp/drivers/src/altera_avalon_jtag_uart_write.c:100-139 | In every state an interruption or a caller can see: bytes accepted = bytes the host has got, then those in the device, then those in the transmit ring, in order; bytes sent by the host = bytes handed to readers, then those in the receive ring, then those in the device. |
| JtagUart.Driver.NoStall | FPGA/software/controller_bsp/drivers/src/altera_avalon_jtag_uart_init.c:156-194 | No lost wakeup: between calls, if the device asserts no interrupt, then everything accepted is with the device (or its FIFO is full), and everything that arrived is in the receive ring (or it is full), unless the device itself holds the interrupt back. |
| JtagUart.Driver.DeviceStep | FPGA/software/controller_bsp/drivers/src/altera_avalon_jtag_uart_init.c:119 | The host takes a byte from the device or sends one, or the conditions of the device for an interrupt change; history only grows. |
| JtagUart.Driver.ReadControl | FPGA/software/controller_bsp/drivers/src/altera_avalon_jtag_uart_init.c:119-125 | The interrupt bits are set if and only if the interrupt is enabled, the condition of the device for it holds, and there is a byte to read or room to write; the space is exactly the room. |
| JtagUart.Driver.Irq | FPGA/software/controller_bsp/drivers/src/altera_avalon_jtag_uart_init.c:117-196 | The interrupt routine ends whatever the host does meanwhile, and only when the device asserts no interrupt any more; it keeps the driver invariant, and at most drains the transmit ring and adds to the receive ring. |
| JtagUart.Driver.IrqPass | FPGA/software/controller_bsp/drivers/src/altera_avalon_jtag_uart_init.c:119-195 | A pass that finds nothing to do leaves no interrupt asserted; any other either disables an interrupt, stores a byte or sends one. |
| JtagUart.Driver.IrqReceive | FPGA/software/controller_bsp/drivers/src/altera_avalon_jtag_uart_init.c:125-167 | RE is turned off only when the ring is full; otherwise at least one byte has been stored. |
| JtagUart.Driver.ReceiveByte | FPGA/software/controller_bsp/drivers/src/altera_avalon_jtag_uart_init.c:132-154 | A byte is popped only once a slot is free; the loop stops with bytes remaining only on a full ring. |
| JtagUart.Driver.PopByte | FPGA/software/controller_bsp/drivers/src/altera_avalon_jtag_uart_init.c:144-150 | The popped byte, and no other, goes to the end of the receive ring. |
| JtagUart.Driver.IrqTransmit | FPGA/software/controller_bsp/drivers/src/altera_avalon_jtag_uart_init.c:169-195 | WE is turned off only when the transmit ring is empty; otherwise at least one byte has been sent. The space read at the start is never exceeded although the host moves meanwhile. |
| JtagUart.Driver.PushByte | FPGA/software/controller_bsp/drivers/src/altera_avalon_jtag_uart_init.c:176-178 | The oldest byte of the ring, and no other, goes to the device. |
| JtagUart.Driver.Timeout | FPGA/software/controller_bsp/drivers/src/altera_avalon_jtag_uart_init.c:203-225 | Activity clears the inactivity count and a second without it adds one, up to a ceiling; nothing else changes, and the count reaching the timeout is what counts as an inactive host. |
| JtagUart.Driver.HostGone | FPGA/software/controller_bsp/drivers/src/altera_avalon_jtag_uart_write.c:183 | A wait is given up only on a host that was found inactive, and is given up if the count has reached the timeout. |
| JtagUart.Driver.Preempt | FPGA/software/controller_bsp/drivers/src/altera_avalon_jtag_uart_init.c:105-225 | Any number of interrupts, timeouts and device steps in any order keeps the invariant and leaves alone everything main code owns. |
| JtagUart.Driver.Write | FPGA/software/controller_bsp/drivers/src/altera_avalon_jtag_uart_write.c:83-215 | A result r > 0 means exactly the first r bytes of the data were appended to the accepted stream; a negative result means none were. All room there was on entry is used; a blocking call comes back short only if the host was found inactive during the call, and is left waiting only with a full ring and a host taken to be active; holds under any interleaving with the interrupt routine. |
| JtagUart.Driver.SendAll | FPGA/software/controller_bsp/drivers/src/altera_avalon_jtag_uart_write.c:100-191 | The bytes taken so far are a prefix of the data over any number of rounds of filling, kicking and waiting. |
| JtagUart.Driver.SendRound | FPGA/software/controller_bsp/drivers/src/altera_avalon_jtag_uart_write.c:100-190 | Another round follows whenever there are bytes left and room for one; a round that is left waiting has a full ring and a host taken to be active. |
| JtagUart.Driver.FillRing | FPGA/software/controller_bsp/drivers/src/altera_avalon_jtag_uart_write.c:103-127 | Stops short only when the ring is full as seen through the last value of `tx_out` read; what it took is the next stretch of the data. |
| JtagUart.Driver.MeasureRoom | FPGA/software/controller_bsp/drivers/src/altera_avalon_jtag_uart_write.c:106-117 | Stale-index safety: the room computed from a value of `tx_out` that is out of date by the time it is used is still free. |
| JtagUart.Driver.CopyPiece | FPGA/software/controller_bsp/drivers/src/altera_avalon_jtag_uart_write.c:122-126 | Although the interrupt routine runs between any two bytes copied, the piece arrives whole and nothing unsent is overwritten. |
| JtagUart.Driver.PublishPiece | FPGA/software/controller_bsp/drivers/src/altera_avalon_jtag_uart_write.c:123-126 | The accepted stream and the ring grow by the piece at the same moment. |
| JtagUart.Driver.KickTransmit | FPGA/software/controller_bsp/drivers/src/altera_avalon_jtag_uart_write.c:136-139 | The enable bit in memory and the one in the device are set together, which ends the window in which the interrupt may be off with bytes waiting. |
| JtagUart.Driver.StartTransmit | FPGA/software/controller_bsp/drivers/src/altera_avalon_jtag_uart_write.c:126-146 | The same with the interrupt routine running right before and right afterwards. |
| JtagUart.Driver.WaitForRoom | FPGA/software/controller_bsp/drivers/src/altera_avalon_jtag_uart_write.c:183-188 | The wait goes on only while the ring is full and the host taken to be active, and ends without room only if the host was found inactive; the comparison of indices tells a full ring from one with room. |
| JtagUart.Driver.Read | FPGA/software/controller_bsp/drivers/src/altera_avalon_jtag_uart_read.c:100-203 | A result r > 0 means exactly r bytes, the next ones of the stream, are in the first r places of the buffer and the rest of the buffer is as before; a negative result means none. Everything there on entry that fits is delivered; an empty result of a blocking call means the host was found inactive during the call, and a call is left waiting only with an empty ring and a host taken to be active. |
| JtagUart.Driver.DrainRing | FPGA/software/controller_bsp/drivers/src/altera_avalon_jtag_uart_read.c:120-142 | Stops short only when the ring is empty as seen through the last value of `rx_in` read, and has then delivered all that was there on entry. |
| JtagUart.Driver.MeasureReady | FPGA/software/controller_bsp/drivers/src/altera_avalon_jtag_uart_read.c:122-131 | Stale-index safety: what a stale `rx_in` shows as ready is there. |
| JtagUart.Driver.TakePiece | FPGA/software/controller_bsp/drivers/src/altera_avalon_jtag_uart_read.c:136-140 | Although bytes are added between any two bytes copied, the piece handed over is the next stretch of the stream. |
| JtagUart.Driver.ReleasePiece | FPGA/software/controller_bsp/drivers/src/altera_avalon_jtag_uart_read.c:140 | The stream of returned bytes grows by exactly what leaves the ring. |
| JtagUart.Driver.KickReceive | FPGA/software/controller_bsp/drivers/src/altera_avalon_jtag_uart_read.c:188-195 | RE is on in memory and in the device after every read that took something. |
| JtagUart.Driver.WaitForByte | FPGA/software/controller_bsp/drivers/src/altera_avalon_jtag_uart_read.c:173-178 | The wait goes on only while the ring is empty and the host taken to be active, and ends without a byte only if the host was found inactive. |
| JtagUart.Driver.Close | FPGA/software/controller_bsp/drivers/src/altera_avalon_jtag_uart_init.c:241-254 | Returning 0 with a host that was not inactive during the call means that everything ever accepted has left the ring; a non-blocking close fails only if something was left, and a blocking one waits only while something is and the host is taken to be active. |
| AlarmTiming.TickKeepsFireTick | FPGA/software/controller_bsp/HAL/src/alt_tick.c:96-115 | A tick sets an alarm off exactly when its deadline, on a clock without bound, has come, and otherwise does not move that deadline; this is where 32-bit time and rollover flag are shown to represent it. |
| AlarmTiming.FireTickIsFirst | FPGA/software/controller_bsp/HAL/src/alt_tick.c:96-138 | The closed form for the firing tick is the first tick at which the code, run tick by tick, goes off, and no other tick is. |
| AlarmTiming.StartFiresOnTime | FPGA/software/controller_bsp/HAL/src/alt_alarm_start.c:82-96 | An alarm started at T0 with delay n goes off exactly at T0 + n + 1 if and only if n < 2^32 - 1 or the counter is about to wrap; with the largest delay it goes off at the very next tick otherwise. |
| AlarmTiming.LargestDelayIsMissed | FPGA/software/controller_bsp/HAL/src/alt_alarm_start.c:82-96 | The input that fails: delay 2^32 - 1 started at tick 0 goes off at tick 1. |
| AlarmTiming.RearmFiresOnTime | FPGA/software/controller_bsp/HAL/src/alt_tick.c:127-137 | Re-arming an alarm that fired on time makes it go off exactly the returned period later, for every non-zero 32-bit period and counter value. |
| AlarmTiming.TickedFiresOnTime | FPGA/software/controller_bsp/HAL/src/alt_tick.c:109-138 | One tick on one alarm, in terms of the unbounded deadline: fires when due, keeps it otherwise, moves it by the period when re-armed. |
| AlarmTiming.RunsOnTime | FPGA/software/controller_bsp/HAL/src/alt_tick.c:87-141 | Over any number of ticks and counter wraps, an alarm that is on time fires exactly at its first deadline and then exactly at each firing plus the period returned. |
| AlarmTiming.StartedAlarmRunsOnTime | FPGA/software/controller_bsp/HAL/src/alt_alarm_start.c:64-112 | The same from the start of the alarm: first at T0 + n + 1. |
| AlarmList.Insert | FPGA/software/controller_bsp/HAL/inc/sys/alt_llist.h:90-98 | On a well-formed ring of any length the result is the well-formed ring with the entry right behind the head. |
| AlarmList.Remove | FPGA/software/controller_bsp/HAL/inc/sys/alt_llist.h:105-117 | The rest of the ring is well-formed and in order, and the entry is a ring by itself. |
| AlarmList.Standing | FPGA/software/controller_bsp/HAL/src/alt_tick.c:102 | Where an alarm stands on the list when others have been put in front and some taken off, and which one follows it. |
| AlarmList.NextStays | FPGA/software/controller_bsp/HAL/src/alt_tick.c:100-140 | The entry that the walk has remembered stays the next one to visit, whatever else is taken off. |
| AlarmWalk.DueMembers | FPGA/software/controller_bsp/HAL/src/alt_tick.c:115 | An alarm is among those called exactly if it was on the list, its unbounded deadline is this tick, and no callback took it off before its turn. |
| AlarmWalk.Walk.CallOn | FPGA/software/controller_bsp/HAL/src/alt_tick.c:115-138 | One more call in list order, of an alarm that is due; the alarms its callback takes off are skipped if and only if they come later. |
| AlarmWalk.Walk.PassOn | FPGA/software/controller_bsp/HAL/src/alt_tick.c:115 | An alarm that is not due is passed without a call. |
| AlarmWalk.Walk.NotYet | FPGA/software/controller_bsp/HAL/src/alt_tick.c:100-141 | An alarm ahead of the walk has not been called, and is off the list exactly if an earlier callback took it off. |
| AlarmService.Service.constructor | FPGA/software/controller_bsp/HAL/src/alt_tick.c:44-58 | An empty list and tick zero. |
| AlarmService.Service.Start | FPGA/software/controller_bsp/HAL/src/alt_alarm_start.c:64-112 | Without a clock or an alarm it fails and changes nothing; otherwise the alarm is first on the list with its deadline set and no other alarm is touched. |
| AlarmService.Service.Stop | FPGA/software/controller_bsp/HAL/src/alt_tick.c:66-73 | Takes exactly that alarm off the list and links it to itself; for one already off the list nothing changes. |
| AlarmService.Service.WalkEnds | FPGA/software/controller_bsp/HAL/src/alt_tick.c:100-140 | A walk that has gone on to an alarm comes back to the head of the list if and only if the alarm is on the list. |
| AlarmService.StrandedTick | FPGA/software/controller_bsp/HAL/src/alt_tick.c:102-140 | The input that fails: a callback takes off the alarm remembered as next, and no number of steps leads from there to the head. |
| AlarmService.Service.Callback | FPGA/software/controller_bsp/HAL/src/alt_tick.c:117 | What a callback is allowed: return any 32-bit period, start idle alarms, which go to the front of the list with deadlines in the future, and take off any alarms, its own included, but the one the walk has remembered. |
| AlarmService.Service.CallbackStep | FPGA/software/controller_bsp/HAL/src/alt_tick.c:117 | Starts and stops in any order: the list is what was started and what there was, in order, without what was taken off. |
| AlarmService.Service.Visit | FPGA/software/controller_bsp/HAL/src/alt_tick.c:109-139 | An alarm is called exactly if it goes off at this tick, its timing becomes what one tick makes of it, and it leaves the list if its callback returned 0 or took it off. |
| AlarmService.Service.Fire | FPGA/software/controller_bsp/HAL/src/alt_tick.c:117-138 | A callback that starts and stops alarms changes neither which alarm is dropped nor how it is re-armed. |
| AlarmService.Service.WalkOn | FPGA/software/controller_bsp/HAL/src/alt_tick.c:100-141 | The next alarm, remembered before the callback, is the next one of the list as it was at the start of the tick that is still on it, although the list is changed meanwhile. |
| AlarmService.Service.SkipTo | FPGA/software/controller_bsp/HAL/src/alt_tick.c:100-141 | The alarms between two stops of the walk are those that callbacks took off before their turn. |
| AlarmService.Service.Tick | FPGA/software/controller_bsp/HAL/src/alt_tick.c:87-148 | One tick ends, visits each alarm present at its start exactly once in list order, but for those that a callback took off before their turn, calls exactly those that are due, and leaves a well-formed ring: those started meanwhile, then those that stay. |
| AlarmService.Service.TickOutcome | FPGA/software/controller_bsp/HAL/src/alt_tick.c:87-148 | For each alarm: called if and only if its unbounded deadline is this tick and no callback of an earlier alarm took it off; afterwards its deadline is unchanged, or later by the period its callback returned. |
| AlarmWalk.CalledOnce | FPGA/software/controller_bsp/HAL/src/alt_tick.c:115-117 | A tick makes exactly one call to each alarm it has a result from, and none to any other. |
| AlarmService.Service.WhereTickLeaves | FPGA/software/controller_bsp/HAL/src/alt_tick.c:119-138 | After a tick an alarm is on the list if and only if it was before, did not return 0 and was not taken off. |
| AlarmService.Service.TickOnSchedule | FPGA/software/controller_bsp/HAL/src/alt_tick.c:87-148 | A tick keeps an alarm on schedule: all its calls so far at the ticks they were due, and its next deadline, or its absence from the list, following from the last result and from what callbacks took off. |
| AlarmService.Service.OtherOnSchedule | FPGA/software/controller_bsp/HAL/src/alt_alarm_start.c:64-112 | Starting or stopping another alarm keeps it on schedule too. |
| AlarmService.Service.Run | FPGA/software/controller_bsp/HAL/src/alt_tick.c:87-148 | Whole runs of the service, with ticks, starts and stops of any other alarms in any order, and any results: an alarm on time is called exactly at its deadline and then at each call plus the period that call returned, misses none across counter wraps, and is off the list for good after a call that returned 0 or once a callback took it off. |
| Bin2Bcd.DigitsUnique | FPGA/bin2bcd.v:108-113 | Decimal digits are determined by the value: no other digits in the same places have it. |
| Bin2Bcd.DigitsValue | FPGA/bin2bcd.v:108-113 | The digits of a number that fits are decimal and have its value. |
| Bin2Bcd.AddThree | FPGA/bin2bcd.v:111 | Adding 3 from 5 on makes a doubled digit carry at ten instead of at sixteen. |
| Bin2Bcd.ShiftedValue | FPGA/bin2bcd.v:84-90 | A shift step keeps every digit at most 9 and makes the value twice the old one plus the bit shifted in; only what exceeds the places is lost. |
| Bin2Bcd.DigitsSuffice | FPGA/bin2bcd.v:22-24 | 2^(3 BCD_N + 1) <= 10^BCD_N for every BCD_N >= 4, so no step loses anything. |
| Bin2Bcd.CountFits | FPGA/bin2bcd.v:67 | The step count fits its BCD_N-bit register if and only if BCD_N >= 4. |
| Bin2Bcd.ConvertsAll | FPGA/bin2bcd.v:59-95 | Every operand of 3 BCD_N + 1 bits is converted to its decimal digits if and only if BCD_N >= 4. |
| Bin2Bcd.ConvertsFromFour | FPGA/bin2bcd.v:59-95 | For BCD_N >= 4 the shift steps end with the decimal expansion of the operand. |
| Bin2Bcd.OneIsLost | FPGA/bin2bcd.v:67 | The input that fails below that: the operand 1 ends as all zeros, because the cut step count stops the shifts early. |
| Bin2Bcd.ShiftingConverts | FPGA/bin2bcd.v:75-95 | A conversion in progress, with any number of bits left, ends with the digits of its operand. |
| Bin2Bcd.LoadedIsModular | FPGA/bin2bcd.v:68-71 | What is loaded is `bin`, or with `sign` its negation, modulo 2^(3 BCD_N + 1), for all widths. |
| Bin2Bcd.NegativeShowsMagnitude | FPGA/bin2bcd.v:68-69 | For a negative number in two's complement the magnitude is loaded if and only if BIN_N >= 3 BCD_N + 1. |
| Bin2Bcd.StepInProgress | FPGA/bin2bcd.v:75-95 | The loop invariant of the conversion: the digits hold the bits shifted in so far and the shift register the rest, for every width. |
| Bin2Bcd.Finished | FPGA/bin2bcd.v:93-94 | When no bits are left the digits are the decimal expansion of the operand. |
| Bin2Bcd.Converter.constructor | FPGA/bin2bcd.v:31-38 | The registers after a reset, for any parameters. |
| Bin2Bcd.Converter.Load | FPGA/bin2bcd.v:62-73 | A start loads the operand and the count at register width and leaves a conversion on track. |
| Bin2Bcd.Converter.Step | FPGA/bin2bcd.v:75-95 | One shift at register width keeps the conversion on track and brings the ready state one clock nearer; it is done exactly when the count reaches zero. |
| Bin2Bcd.Converter.Clock | FPGA/bin2bcd.v:30-104 | Every clock edge, with any inputs, keeps the registers in range and the conversion on track. |
| Bin2Bcd.Converter.Convert | FPGA/software/controller/controller_system.c:68-76 | However long start is held, the digits are those of a whole conversion of the operand modulo 2^(3 BCD_N + 1), for every BCD_N; for BCD_N >= 4 they are its decimal expansion. A conversion takes one load, the steps (3 BCD_N + 1 for BCD_N >= 4) and the done state. |
| Readout.CommandFields | FPGA/software/controller/controller_system.c:161-168 | A write command reaches the cell it addresses with the flags and value it was packed from. |
| Readout.LayoutReadsBack | FPGA/software/controller/display.c:384-414 | Read from left to right, the cells show the digits in tenths, or behind a minus sign the whole units, with the point on the units. |
| Readout.OnlyLeadingZerosBlank | FPGA/software/controller/display.c:398-402 | Hundreds and tens are blank exactly if the number is below 100 and 10 units; units and what follows never are. |
| Readout.ReadDigitCell | FPGA/sseg.v:9-37 | A blanked leading zero reads like the zero itself. |
| Readout.ReadUnits | FPGA/software/controller/display.c:399-414 | The cells up to the point read back as the whole units, after a sign or none. |
| Readout.ReadGlyph | FPGA/sseg.v:16-33 | Each digit's segments are told apart from the others. |
| Readout.Segments | FPGA/sseg.v:16-33 | Segment by segment, the digits that light it. |
| Readout.DarkOrBar | FPGA/sseg.v:11-14 | A disabled cell is dark, its point included; a sign is the middle bar. |
| Readout.ShownIsExact | FPGA/software/controller/display.c:384-385 | The display is exact for a magnitude if and only if it is below 8192. |
| Readout.ShownModular | FPGA/blastit_main.v:237-238 | Every 32-bit magnitude is shown modulo 8192, negated first if bit 14 is set. |
| Readout.SignBitShown | FPGA/blastit_main.v:237-238 | An input: 16385 is shown as 8191. |
| Readout.PortLoadsShown | FPGA/blastit_main.v:237-238 | The 15-bit port, its top bit taken as sign, loads the converter with the number shown, for every 32-bit argument. |
| Readout.Unpacked | FPGA/software/controller/controller_system.c:76-80 | Masking and shifting the output word gives back the four digits. |
| Readout.FourDigits | FPGA/software/controller/controller_system.c:76-80 | Four digits stand for the number, the first three for its whole units. |
| Readout.Panel.RunConverter | FPGA/software/controller/controller_system.c:68-76 | The output word packs the decimal digits of the number the hardware converts. |
| Readout.Panel.BcdConvert | FPGA/software/controller/controller_system.c:65-81 | The caller's array gets the decimal digits, most significant first, of the number the hardware converts. |
| Readout.Panel.SetBcd | FPGA/software/controller/controller_system.c:161-168 | Exactly the addressed cell changes. |
| Readout.Panel.ReadoutUpdate | FPGA/software/controller/display.c:384-414 | End to end: the cells read back as the magnitude in tenths, or as minus its whole units; only leading zeros are blank; no cell outside the readout's own changes. |
| Readout.Panel.Draw | FPGA/software/controller/display.c:386-414 | Both drawing loops together write every cell behind the code cell, and no other. |
| Framing.CutIsStable | FPGA/software/controller/uart.c:217-237 | A complete first line stays the first line however the stream goes on. |
| Framing.FramedGrows | FPGA/software/controller/uart.c:227-233 | Bytes that arrive later do not change the lines delivered. |
| Framing.FramedNext | FPGA/software/controller/uart.c:195-216 | The line in the buffer is the next line of the stream. |
| Framing.FramedIsPrefix | FPGA/software/controller/uart.c:195-216 | Lines delivered followed by the remainder are the stream; they are its first lines, each ending at the first EOL or after 1024 bytes without one. |
| Framing.LinesAreLines | FPGA/software/controller/uart.c:217-237 | Every line delivered ends at its only EOL, or has exactly 1024 bytes without one; no line is complete if and only if what is pending has no EOL and at most 1024 bytes. |
| Framing.SameStreamSameLines | FPGA/software/controller/uart.c:181-262 | Two readers of the same bytes, however these were split over calls, deliver the same lines: one list is a prefix of the other, and they are equal once neither has a complete line pending. |
| LineReader.IsCopied | FPGA/software/controller/uart.c:206-207 | What clearing and copying leave in the caller's buffer: the line up to its first zero byte or the size, then zeros. |
| LineReader.CutFull | FPGA/software/controller/uart.c:219-223 | A full buffer without EOL is a whole line once a further byte is there. |
| LineReader.CutAtEol | FPGA/software/controller/uart.c:228-237 | An EOL within the buffer ends the line there. |
| LineReader.Reader.constructor | FPGA/software/controller/uart.c:42-50 | Nothing buffered and nothing delivered. |
| LineReader.Reader.Arrive | FPGA/software/controller/uart.c:217 | Arriving bytes join the stream and what is pending, and nothing else. |
| LineReader.Reader.Take | FPGA/software/controller/uart.c:217-237 | A byte moves from the port to the buffer without changing what is pending; the flag is set exactly when the buffer holds a complete line. |
| LineReader.Reader.Deliver | FPGA/software/controller/uart.c:195-216 | The line handed out is what the buffer held, and the result its length. |
| LineReader.Copied | FPGA/software/controller/uart.c:199-207 | The line as far as it fits before the terminator, and zeros. |
| LineReader.Reader.Look | FPGA/software/controller/uart.c:217-253 | One look takes a byte if there is one; otherwise it is a timeout exactly if the counter is above the timeout. |
| LineReader.Reader.Readline | FPGA/software/controller/uart.c:181-262 | Positive exactly if a line was delivered, and then its length; otherwise no complete line is pending and the buffer of the caller untouched; 0 means nothing was consumed, busy that something was. Without a line it returns at the first look that finds the port empty and the timeout passed, or the port empty and no wait asked for, and with a timeout if and only if the counter was above it. Every call keeps lines plus remainder equal to the stream. It waits for ever only with a timeout that the counter cannot exceed. |
| LineReader.Reader.NoLine | FPGA/software/controller/uart.c:242-253 | An empty port leaves no complete line behind. |
| TimeOfDay.ElapsedIsLinear | FPGA/software/controller_bsp/HAL/src/alt_gettod.c:91-93 | The time a get attributes to n ticks is n times the microseconds per tick, for all n, if and only if the tick rate divides a million. |
| TimeOfDay.ElapsedExact | FPGA/software/controller_bsp/HAL/src/alt_gettod.c:91-93 | For such a rate, seconds and sub-second part add up to the product for every tick count. |
| TimeOfDay.ElapsedJumps | FPGA/software/controller_bsp/HAL/src/alt_gettod.c:91-93 | For any other rate, one second's worth of ticks already disagrees. |
| TimeOfDay.PartsAgree | FPGA/software/controller_bsp/HAL/src/alt_settod.c:83-84 | The 32-bit product of the set and the 64-bit one of the get agree if and only if the number of wraps is a multiple of 15625, in particular without a wrap. |
| TimeOfDay.ReadBack | FPGA/software/controller_bsp/HAL/src/alt_gettod.c:89-112 | A reading at any later tick, in microseconds, or zero where the clamp applies. |
| TimeOfDay.SameTick | FPGA/software/controller_bsp/HAL/src/alt_settod.c:80-84 | A get at the tick of the set returns the time set if and only if the two products agree, or the epoch was set and the reading is clamped to it. |
| TimeOfDay.LateSetIsMisread | FPGA/software/controller_bsp/HAL/src/alt_settod.c:83-84 | An input that fails: at 1000 ticks a second and tick 4294968, a set of 100 seconds. |
| TimeOfDay.Advances | FPGA/software/controller_bsp/HAL/src/alt_gettod.c:91-112 | With a dividing rate and no wrap at the set, a get k ticks later returns the time set plus k times the microseconds per tick, normalised and never clamped. |
| TimeOfDay.Clock.SetTimeOfDay | FPGA/software/controller_bsp/HAL/src/alt_settod.c:72-96 | Without a clock it fails and changes nothing; otherwise the offset is stored in 32-bit arithmetic, for any time given. |
| TimeOfDay.Clock.GetTimeOfDay | FPGA/software/controller_bsp/HAL/src/alt_gettod.c:79-124 | The reading for the stored offset, or an error without a clock. |
| TimeOfDay.Clock.Normalise | FPGA/software/controller_bsp/HAL/src/alt_gettod.c:95-112 | Both loops end with the same time in normal form, or zero if it would lie before the epoch. |
| IntegerPrint.NumeralParses | FPGA/software/controller_bsp/HAL/src/alt_log_printf.c:281-296 | A numeral in either case reads back as its value, in every base. |
| IntegerPrint.NoLeadingZero | FPGA/software/controller_bsp/HAL/src/alt_log_printf.c:247-255 | Only zero starts with the digit zero. |
| IntegerPrint.TopDownIsNumeral | FPGA/software/controller_bsp/HAL/src/alt_log_printf.c:281-296 | Dividing by falling powers of the base gives the same digits as repeated division by the base. |
| IntegerPrint.Magnitude | FPGA/software/controller_bsp/HAL/src/alt_log_printf.c:238-245 | The number printed behind the sign is the absolute value, including the most negative one. |
| IntegerPrint.FieldWidth | FPGA/software/controller_bsp/HAL/src/alt_log_printf.c:257-279 | The text is as long as the width asked for or as digits and sign need, whichever is more. |
| IntegerPrint.FieldParses | FPGA/software/controller_bsp/HAL/src/alt_log_printf.c:238-296 | Whatever the padding, the text reads back as the argument under the conversion. |
| IntegerPrint.FieldReads | FPGA/software/controller_bsp/HAL/src/alt_log_printf.c:204-321 | d and u read back in base 10, d as a signed number, o in base 8, x and X in base 16; X has no lower-case letter and the others no upper-case one. |
| IntegerPrint.FieldPadding | FPGA/software/controller_bsp/HAL/src/alt_log_printf.c:257-279 | With zero padding there is no space; without it no zero stands before the first other digit of a non-zero number. |
| IntegerPrint.DigitTable | FPGA/software/controller_bsp/HAL/src/alt_log_printf.c:286-292 | The sixteen digits in either case. |
| IntegerPrint.CountDigits | FPGA/software/controller_bsp/HAL/src/alt_log_printf.c:247-255 | The loop finds the number of digits and the largest power of the base not above the value, without wrapping at 32 bits. |
| IntegerPrint.OneMoreDigit | FPGA/software/controller_bsp/HAL/src/alt_log_printf.c:251-255 | As long as the division leaves something, the next power fits in 32 bits and is not above the value. |
| IntegerPrint.PrintInteger | FPGA/software/controller_bsp/HAL/src/alt_log_printf.c:204-321 | The text printed for every 32-bit value, width and padding reads back as the value, d in base 10 and signed, u in base 10, o in base 8, x and X in base 16 with letters of their case; it is at least as wide as asked for, padded with zeros or with spaces. |
| IntegerPrint.PrintField | FPGA/software/controller_bsp/HAL/src/alt_log_printf.c:238-297 | The leading characters, the sign and the digits make up that text. |
| IntegerPrint.PrintLead | FPGA/software/controller_bsp/HAL/src/alt_log_printf.c:257-279 | Zeros go between sign and digits, spaces before the sign, as many as the width leaves. |
| IntegerPrint.PrintDigits | FPGA/software/controller_bsp/HAL/src/alt_log_printf.c:282-296 | The digit loop ends and prints every digit, also inner zeros. |
| IntegerPrint.PrintHex | FPGA/software/controller_bsp/HAL/src/alt_printf.c:82-111 | Shifting and masking prints the hexadecimal numeral of every 32-bit value: it reads back in base 16, has no upper-case letter, and starts with a zero only for zero. |
| IntegerPrint.PrintNibbles | FPGA/software/controller_bsp/HAL/src/alt_printf.c:102-110 | The digits from the first non-zero one down to the last. |
| IntegerPrint.HexPlaces | FPGA/software/controller_bsp/HAL/src/alt_printf.c:97-99 | The search for the first non-zero digit ends, and finds the number of digits. |
| IntegerPrint.BothPrintfsAgree | FPGA/software/controller_bsp/HAL/src/alt_printf.c:82-111 | On plain x the log printf and the small one print the same. |
| FileDescriptors.ScanFindsHolder | FPGA/software/controller_bsp/HAL/src/alt_open.c:79-87 | For a slot just allocated, the scan up to the high-water mark finds a holder if and only if any slot of the whole table holds the device. |
| FileDescriptors.GrantedIsExclusive | FPGA/software/controller_bsp/HAL/src/alt_fd_lock.c:61-69 | A granted lock is the only reference to its device if and only if the topmost slot, which the scan leaves out, is not another one. |
| FileDescriptors.GrantedWhileShared | FPGA/software/controller_bsp/HAL/src/alt_fd_lock.c:61-69 | A table where it is not. |
| FileDescriptors.LockShared | FPGA/software/controller_bsp/HAL/src/alt_fd_lock.c:61-69 | That table is reached from the initial one by opening a device twice and locking the first descriptor. |
| FileDescriptors.LockKeepsExclusive | FPGA/software/controller_bsp/HAL/src/alt_fd_lock.c:61-69 | Even so, a grant never makes a second holder of a device. |
| FileDescriptors.OpenKeepsExclusive | FPGA/software/controller_bsp/HAL/src/alt_open.c:130-153 | Opening a device nobody holds keeps every holder the only one. |
| FileDescriptors.MoveKeepsExclusive | FPGA/software/controller_bsp/HAL/src/alt_io_redirect.c:66-70 | So does moving a descriptor into a standard slot. |
| FileDescriptors.HeldThroughoutRun | FPGA/software/controller_bsp/HAL/src/alt_open.c:72-91 | Over any run of opens, closes, locks, unlocks and redirections with any arguments, of which none unlocks, closes or redirects the descriptor that holds a device, it goes on holding it and every attempt to open the device fails. |
| FileDescriptors.Make | FPGA/software/controller_bsp/HAL/src/alt_open.c:72-91 | The same of one call. |
| FileDescriptors.Table.constructor | FPGA/software/controller_bsp/HAL/src/alt_dev.c:118-149 | The initial table: three standard slots, everything else free. |
| FileDescriptors.Table.GetFd | FPGA/software/controller_bsp/HAL/src/alt_get_fd.c:54-101 | Fails if and only if no slot is free, and then changes nothing; otherwise takes the lowest free slot and raises the mark to it. |
| FileDescriptors.Table.FileLocked | FPGA/software/controller_bsp/HAL/src/alt_open.c:64-92 | Marks the descriptor as a device, and fails exactly if another slot within reach holds the device. |
| FileDescriptors.Table.ReleaseFd | FPGA/software/controller_bsp/HAL/src/alt_release_fd.c:44-51 | Slots 0 to 2 are never freed. |
| FileDescriptors.Table.Open | FPGA/software/controller_bsp/HAL/src/alt_open.c:105-171 | Success is the lowest free slot and changes no other; any failure leaves every slot as it was; which failure, in order: unknown name, full table, device held, the own error of the device. Held means exactly that some slot has the same device and the exclusive flag. |
| FileDescriptors.Table.Close | FPGA/software/controller_bsp/HAL/src/alt_close.c:64-101 | Frees the slot even if the device reports an error, except for slots 0 to 2. |
| FileDescriptors.Table.Lock | FPGA/software/controller_bsp/HAL/src/alt_fd_lock.c:54-75 | Refused if and only if another slot below the mark has the same device, so never for the only reference; refused, it changes nothing. |
| FileDescriptors.Table.Unlock | FPGA/software/controller_bsp/HAL/src/alt_fd_unlock.c:52-56 | Takes the lock from this descriptor and from no other. |
| FileDescriptors.Table.OpenFd | FPGA/software/controller_bsp/HAL/src/alt_io_redirect.c:58-72 | A standard stream points at the device afterwards, and no other slot changes; if the open fails, which it does exactly for an unknown name, a full table, a device that some slot holds or an error of the device, it stays as it was. |
| IrqDispatch.PendingIsDue | FPGA/software/controller_bsp/HAL/src/alt_irq_handler.c:128-159 | An interrupt is pending after k calls if and only if it was pending or raised before and has not been served since. |
| IrqDispatch.NothingLost | FPGA/software/controller_bsp/HAL/src/alt_irq_handler.c:128-159 | Every interrupt pending at the start or raised during a call is served after it, and nothing is served that was not due. |
| IrqDispatch.QuietRun | FPGA/software/controller_bsp/HAL/src/alt_irq_handler.c:128-159 | If nothing new arrives, the calls are exactly the initially pending ids, once each, in ascending order. |
| IrqDispatch.OneMoreCall | FPGA/software/controller_bsp/HAL/src/alt_irq_handler.c:141-157 | Serving the lowest pending id extends a lowest-first run. |
| IrqDispatch.Dispatcher.Handle | FPGA/software/controller_bsp/HAL/src/alt_irq_handler.c:148 | A handler clears its own interrupt while others are raised. |
| IrqDispatch.Dispatcher.Dispatch | FPGA/software/controller_bsp/HAL/src/alt_irq_handler.c:128-159 | Entered with something pending, each scan looks at no more than 32 bits and ends on the lowest pending id, the calls are lowest first, and the dispatcher ends with nothing pending, for any finite arrivals. |
| Heap.MovesByIncrement | FPGA/software/controller_bsp/HAL/src/alt_sbrk.c:88-95 | The new end is the aligned old one plus the increment if and only if that stays in the address space. |
| Heap.GrantKeepsSound | FPGA/software/controller_bsp/HAL/src/alt_sbrk.c:76-95 | A block from the end of the heap is apart from all others and inside the heap if and only if it ends within the limit. |
| Heap.LowerKeepsSound | FPGA/software/controller_bsp/HAL/src/alt_sbrk.c:88-95 | Moving the end of the heap down keeps things as they are if and only if nothing in use is above it. |
| Heap.SlabKeepsSound | FPGA/software/controller_bsp/HAL/src/alt_gmon.c:137-141 | A slab is apart from everything handed out, and may replace what is left of the last one. |
| Heap.CarveKeepsSound | FPGA/software/controller_bsp/HAL/src/alt_gmon.c:143-145 | A piece from the front of the slab is apart from the rest of it and from everything handed out before. |
| Heap.OverrunNotSound | FPGA/software/controller_bsp/HAL/src/alt_gmon.c:137-147 | A record larger than a slab, or carved from the error pointer, overruns the heap or leaves a rest that does. |
| Heap.WrappedNotSound | FPGA/software/controller_bsp/HAL/src/alt_sbrk.c:88 | A block whose end wraps at 32 bits is never inside the heap. |
| Heap.Allocator.constructor | FPGA/software/controller_bsp/HAL/src/alt_sbrk.c:60 | The heap is empty and ends where it starts. |
| Heap.Allocator.Sbrk | FPGA/software/controller_bsp/HAL/src/alt_sbrk.c:68-95 | Over any run of requests, blocks are disjoint, inside the heap and word-aligned; a granted request breaks this if and only if its end wraps at 32 bits, or it gives back memory that is still in use. A refusal changes nothing but the alignment of the end. |
| Heap.GrantWrapped | FPGA/software/controller_bsp/HAL/src/alt_sbrk.c:88-95 | An input that wraps: the request is granted and the heap ends below its start. |
| Heap.Allocator.Carve | FPGA/software/controller_bsp/HAL/src/alt_gmon.c:133-148 | Records stay disjoint from each other and from all blocks, and inside the heap, if and only if the slab has room, or a new one of 1020 bytes is to be had for a record that fits it. A record comes from the slab if that has room, from the error pointer if no new slab is granted, and from the new slab otherwise. Word-aligned as long as all sizes were whole words. |
| Heap.CarveFromNothing | FPGA/software/controller_bsp/HAL/src/alt_gmon.c:137-147 | An input that fails: without room for a slab the first record is the error pointer. |
| Heap.CarveTooMuch | FPGA/software/controller_bsp/HAL/src/alt_gmon.c:137-147 | Another: a record of 2000 bytes gets an address inside the heap and overruns its slab. |
| Blinker.NextInWave | FPGA/software/controller/display.c:309-330 | One update moves one count along, or one step up or down the wave. |
| Blinker.FollowsTriangle | FPGA/software/controller/display.c:306-331 | After t updates the duty cycle is the triangle wave of (start + t / d) mod 200 and the count t mod d, where a zero divisor acts as 65536. |
| Blinker.StaysInRange | FPGA/software/controller/display.c:306-331 | Started at any duty up to 100, it stays within 0 to 100 for ever if and only if it is not started at 100 with divisor 1. |
| Blinker.Period | FPGA/software/controller/display.c:306-331 | A running element is in the same state again p updates later if and only if p is a multiple of 200 d. |
| Blinker.Element.Start | FPGA/software/controller/display.c:340-345 | Count and sign start over, the duty cycle stays. |
| Blinker.Element.Update | FPGA/software/controller/display.c:309-330 | One update at the widths of the fields. |
| Obd2.NextOnSchedule | FPGA/software/controller/obd2.c:177-273 | A good response takes the machine on schedule to the next entry of the schedule, any other one to the reset state. |
| Obd2.PollsOnSchedule | FPGA/software/controller/obd2.c:177-273 | Over any run after an initialisation: if all responses were good, state, counter and last command are those of k mod 13 (one CILBr, one Oil, eleven BA); if one was not, the state is reset, for good. The counter never exceeds 10. |
| Obd2.WhatIsPolled | FPGA/software/controller/obd2.c:177-273 | The schedule, its three commands and what makes a response good, spelled out. |
| Obd2.ResetIsSilent | FPGA/software/controller/obd2.c:193-205 | Nothing is sent in the reset state, and no response leaves it. |
| Obd2.Poller.Init | FPGA/software/controller/obd2.c:104-123 | From any state the schedule starts over. |
| Obd2.Poller.StateEntry | FPGA/software/controller/obd2.c:177-205 | The command of the state entered is sent, or the state is reset. |
| Obd2.Poller.StateExit | FPGA/software/controller/obd2.c:207-273 | The state that follows a response. |
| Obd2.Poller.Update | FPGA/software/controller/obd2.c:147-155 | The result says whether all responses so far were good. |

## Left out

- JtagUart.Driver.Write: the wait for room is cut off after `patience` looks and the call then reported as still waiting, at a moment when the ring is full and the host taken to be active; that such a wait ends is up to the host and not promised.
- JtagUart.Driver.Read: the wait for a byte is cut off in the same way.
- JtagUart.Driver.Close: the wait for the ring to drain is cut off in the same way.
- JtagUart.Driver.ReadControl: the control register's layout; only the two interrupt bits and the room are modelled, and the activity bit is an argument of Timeout.
- AlarmService.Service.Callback: callbacks that take off the one alarm that the walk has remembered as its next (see AlarmService.Service.WalkEnds for what follows), and callbacks that start again an alarm that has been on the list before.
- AlarmService.Service.Run: alarms that main code starts are new ones, and those it stops are on the list.
- AlarmService.Service.Tick: the operating system's own tick hook.
- Bin2Bcd.Converter.Clock: asynchronous reset between clock edges; ready and done_tick are read off the state.
- Readout.Panel.ReadoutUpdate: the value's scaling from floating point to tenths and its sign are arguments; warnings and the readout's code cell are not drawn.
- Readout.Panel.BcdConvert: waiting for ready is running the converter to its idle state; bus accesses take no time.
- LineReader.Reader.Readline: the EOL character does not change during the life of a reader; status LEDs and the status word are not modelled; a wait that no timeout ends is left with `waiting`; what the timeout counter shows is part of the schedule of arrivals.
- FileDescriptors.Table.Open: what a name resolves to and what the device's open callback returns are arguments; the private field of a descriptor and the descriptor-list semaphore are not modelled.
- FileDescriptors.Table.Lock: only descriptors of devices get here, as ioctl sees to.
- FileDescriptors.Table.Close: closing a free slot, where the source follows a null pointer.
- TimeOfDay.Advances: seconds at or beyond 2^31 - 1, where the source's normalising increment would overflow a signed field.
- TimeOfDay.Clock.Normalise: the same overflow.
- IntegerPrint.PrintInteger: parsing of the format string, precision, and the c and s conversions; the width is an argument.
- IrqDispatch.Dispatcher.Dispatch: a mask is the set of its bits; the vector custom instruction and entering with nothing pending, where the source's scan has no end.
- Heap.Allocator.Sbrk: stack-limit checks and the optional byte limit.
- Heap.Allocator.constructor: a heap whose limit lies in the last two words of the address space.
- Blinker.Element.Update: the task list elements are linked on.
- Obd2.Poller.Update: whether a response parses, the load it reports and whether a command is sent are arguments; the codes of the line reader, the AT commands and their responses, and LEDs.
- Decoding of OBD2 responses, gauge scaling, warnings, LED bars, brightness and panel demonstrations.
- The small JTAG UART driver, the multi-threaded builds and their semaphores and event flags, and the build that ignores a full FIFO.
- Flash and DMA drivers, boot code, cache flushes, constructors and generated constants.
