# monitor-latency-check: frame-locked trigger model

The system shows a full-screen stimulus once per display refresh period and signals it to a
small USB bridge board, which puts it on an output pin for recording equipment. This project
models the three pieces of sequential decision logic in that chain and proves properties of them.

- **Host scheduler** (`src/main.rs`, module `Host`, file `host.dfy`). On each `RedrawRequested`
  event the host picks a colour and a trigger command from the `u16` counter `count`. The
  stimulus and "high" are chosen only when `count == 0`. The counter then advances
  (`count += 1; count %= refresh_rate`) and the frame is rendered. The command byte is written
  only when rendering returned `Ok`. The serial wrapper `Gpio` writes one byte per command
  (0x01 for `set_high`, 0x00 for `set_low`). A failed or short write panics. A flush error is
  returned as `Err`, and the caller's `expect` then panics. `State::resize` ignores zero-area
  sizes. The event-loop closure's state is the class `Scheduler`. Its `trace` records every
  presented frame and every byte written, in program order.
- **Bridge firmware, wio terminal** (`wio-terminal/src/main.rs`, module `WioTerminal`). `poll_usb`
  acts only on a read of exactly one byte that is `b'0'` or `b'1'`. It drives D0 and then the
  LED to the same level. The `static mut` globals are the fields of class `Board`. `main`'s
  initialisation is split into one method per assignment, called in source order.
- **Bridge firmware, xiao** (`xiao/src/main.rs`, module `Xiao`). The protocol is the same, but
  the LED is inverted. D0 is driven through `Option::map`, so only the LED is unwrapped.
  `main` drives D0 high and the LED low before arming the USB bus.
- **Shared firmware vocabulary** (module `Bridge`). This holds the levels, read outcomes, the
  one-byte command guard `Decode` and the globals snapshot `Globals`.
- **Host and firmware together** (module `Protocol`). The host writes the raw bytes 0x00 and
  0x01 (src/main.rs:147-164). Both firmwares act only on the ASCII digits `'0'` and `'1'`
  (0x30 and 0x31). The model proves that everything the host sends leaves the pins of either
  board unchanged.

Two further facts of the code that the model states:
- On the xiao, `main` drives D0 high and the LED low before arming USB. That is exactly the
  state an accepted `'1'` leaves. The wio sets no level; see "Left out".
- On the host, every write or flush failure after `Ok` panics (`Scheduler.Redraw`).

Rust panics are modelled as outcomes (`LinkPanic`, `Scheduler.panicked`, `Outcome.Halted`,
`Board.halted`), not as preconditions. The exceptions are the `unwrap`s in the firmwares'
`main` (the LED in `Xiao.Board.DriveBootLevels`, and the pins that `InitUsbBus` needs on both
boards). The source order of `main` guarantees that these succeed, so they are preconditions. The render result, the serial write and flush results,
and each `serial.read` outcome are parameters.

## Model

| member | source | states |
|---|---|---|
| `Host.SelectFrame` | src/main.rs:242-246 | `set_high` is chosen iff `count == 0`, and the stimulus colour iff `set_high` |
| `Host.CheckedIncrement` | src/main.rs:247 | `count += 1` on a `u16` succeeds iff `count < 65535` (a debug build panics otherwise), and then gives exactly `count + 1` |
| `Host.WrappingIncrement` | src/main.rs:247 | the release-build `count += 1` is `count + 1` below 65535 and wraps to 0 at 65535 |
| `Host.Remainder` | src/main.rs:248 | `count %= refresh_rate` panics iff the rate is 0; otherwise the result is below the rate, is `count` when `count < rate`, and is 0 when `count == rate` |
| `Host.NextCount` | src/main.rs:247-248 | the update panics iff `count` is 65535 or the rate is 0; otherwise the result is below the rate; while `count < refresh_rate` it is `count + 1`, wrapping to 0 exactly after `rate - 1` |
| `Host.DebugMatchesRelease` | src/main.rs:247-248 | wherever the debug-build increment does not overflow, the update equals the release build's wrapping increment followed by the remainder |
| `Host.CountAfter` | src/main.rs:247-248 | the counter after any number of redraws stays below the refresh rate |
| `Host.CountAfterStep` | src/main.rs:247-248 | counting `k + 1` redraws is one counter update after counting `k` |
| `Host.CountAfterWithinPeriod` | src/main.rs:247-248 | within one period the counter is `c + k`, or `c + k - rate` once past `rate - 1` |
| `Host.CountAfterAdd` | src/main.rs:247-248 | counting `j` then `k` redraws is counting `j + k` |
| `Host.CountAfterPeriodic` | src/main.rs:247-248 | the counter has period exactly `refresh_rate`: it returns after `rate` redraws and not before |
| `Host.OneStimulusPerPeriod` | src/main.rs:242-248 | in any `refresh_rate` consecutive redraws, from any counter value, exactly one selects the stimulus and `set_high`, and it is at offset `rate - c` (0 when `c == 0`) |
| `Host.Dispatch` | src/main.rs:250-264 | a serial write happens iff render returned `Ok`, and it writes the command chosen before rendering; exit iff `OutOfMemory`; continue without writing iff `Lost`, `Outdated` or `Timeout` |
| `Host.TriggerByte` | src/main.rs:252-256 | the command byte is 0x01 iff `set_high`, and always a host command byte |
| `Host.WriteCommand` | src/main.rs:147-164 | the byte leaves iff the write reports exactly 1; any other count or a write error panics, sends nothing and skips the flush; a flush error after a good write is returned as an error |
| `Host.Gpio.constructor` | src/main.rs:138-146 | a freshly opened port has carried no bytes |
| `Host.Gpio.SetHigh` | src/main.rs:147-155 | appends exactly the byte 0x01 when the write reports 1 byte and nothing otherwise; returns the panic/error/ok outcome of `WriteCommand` |
| `Host.Gpio.SetLow` | src/main.rs:156-164 | the same as `SetHigh`, for the byte 0x00 |
| `Host.ResizedConfig` | src/main.rs:76-82 | width and height are taken over only when both are > 0, otherwise the configuration is unchanged; format and present mode are never touched |
| `Host.ResizeIdempotent` | src/main.rs:76-82 | resizing twice to the same size is resizing once |
| `Host.ResizeKeepsNonZeroArea` | src/main.rs:76-82 | a surface with non-zero area keeps a non-zero area through any resize |
| `Host.State.constructor` | src/main.rs:59-66 | the initial configuration is applied to the surface once |
| `Host.State.Resize` | src/main.rs:76-82 | the configuration becomes `ResizedConfig` of the old one; `surface.configure` is called, with the new configuration, only for a non-zero-area size |
| `Host.SetControl` | src/main.rs:219 | the control flow is `Exit` iff it already was or `Exit` is requested (winit keeps `Exit`) |
| `Host.RedrawObservations` | src/main.rs:250-257 | a redraw is observed iff render returned `Ok`: first the frame, then its command byte iff the write reported 1 byte |
| `Host.RedrawKeepsTraceMatchingPort` | src/main.rs:241-264 | after any redraw, the port still holds exactly the trace's signals, all of them host bytes, each right after the frame it announces |
| `Host.FirstSignalIsStartup` | src/main.rs:178 | the startup `set_low` byte is the first byte the host ever writes |
| `Host.Scheduler.constructor` | src/main.rs:177-216 | startup writes 0x00 before anything else, and panics iff that write or flush fails; the surface is then built and its initial configuration applied once; the counter starts at 0 |
| `Host.Scheduler.Redraw` | src/main.rs:241-264 | the counter advances by exactly one, wrapping at the rate, whatever the render result; the frame is chosen from the old count; the trace and port grow by `RedrawObservations`; the process panics iff a write after `Ok` fails in any way; exit iff `OutOfMemory`; rate 0 panics |
| `Host.Scheduler.React` | src/main.rs:250-264 | a presented frame is recorded before its byte is written; nothing is written unless render returned `Ok` |
| `Host.EventsHandled` | src/main.rs:218-277 | the events a running loop hands to the closure: all of them, or up to and including the first close, Escape, `OutOfMemory`, failed write or flush after `Ok`, or redraw with a rate of 0; no earlier event is one of these |
| `Host.Scheduler.OnEvent` | src/main.rs:218-277 | close and Escape exit; a redraw does exactly what `Redraw` does (counter, redraw count, trace, port, panic, exit) and never reconfigures the surface; a resize changes only the surface configuration, calls `configure` only for a non-zero area, and leaves the control flow alone; only a redraw changes the counter, the trace or the port; `Exit` is never undone; from a running state, the event ends the run iff `Stops` holds |
| `Host.Scheduler.Run` | src/main.rs:218-277 | handles exactly `EventsHandled` events, so it stops right after the first event that panics or exits (none if it starts at `Exit`); with a non-zero rate, the counter has advanced once per handled redraw, and the trace and the port have grown by exactly `RunObservations` of the handled events; the port always starts with the startup 0x00 |
| `Host.RunStep` | src/main.rs:218-277 | handling one more event advances the counter iff it is a redraw, and extends the observations and the bytes by that event's share alone |
| `Bridge.Decode` | wio-terminal/src/main.rs:96-107 | a read is the `b'0'` command iff it is `Ok` with exactly the byte 0x30, and the `b'1'` command iff exactly 0x31; every command is a one-byte read |
| `Bridge.MalformedReadsIgnored` | wio-terminal/src/main.rs:96-110 | a read error, a count other than 1, or any other byte is no command |
| `Bridge.LastCommand` | wio-terminal/src/main.rs:101-107 | a run of reads has a last command iff one of its reads is a command, and that command is the one of a read after which no read is a command |
| `WioTerminal.Driven` | wio-terminal/src/main.rs:101-106 | after a command, D0 and the LED both exist at the command's level and the USB globals are untouched |
| `WioTerminal.Poll` | wio-terminal/src/main.rs:89-114 | `poll_usb` never changes the USB globals |
| `WioTerminal.PollEffect` | wio-terminal/src/main.rs:89-114 | once the pins exist before the bus, `poll_usb` never halts, applies an accepted command to D0 and the LED, and otherwise changes nothing |
| `WioTerminal.ZeroDrivesBothLow` | wio-terminal/src/main.rs:97-103 | a one-byte read of `b'0'` drives D0 and the LED low |
| `WioTerminal.OneDrivesBothHigh` | wio-terminal/src/main.rs:104-106 | a one-byte read of `b'1'` drives D0 and the LED high |
| `WioTerminal.UnarmedPollIsNoop` | wio-terminal/src/main.rs:91-92 | while `USB_BUS` or `USB_SERIAL` is `None`, `poll_usb` changes nothing |
| `WioTerminal.MissingPinHalts` | wio-terminal/src/main.rs:102-106 | without D0 or the LED, an accepted command would hit a failing `unwrap` |
| `WioTerminal.LedFollowsD0` | wio-terminal/src/main.rs:101-106 | after any accepted command the LED level equals the D0 level |
| `WioTerminal.LedFollowsD0Preserved` | wio-terminal/src/main.rs:101-106 | once LED and D0 agree, every `poll_usb` keeps them equal |
| `WioTerminal.PollIdempotent` | wio-terminal/src/main.rs:89-114 | repeating a read has the effect of doing it once, from any globals, halts included |
| `WioTerminal.PollAll` | wio-terminal/src/main.rs:116-129 | the interrupt handlers' repeated `poll_usb` calls never change the USB globals, and change nothing until both `USB_BUS` and `USB_SERIAL` exist |
| `WioTerminal.LastCommandWins` | wio-terminal/src/main.rs:89-114 | after any run of reads, D0 and the LED show the last accepted command, or are unchanged if there was none, and the board never halts |
| `WioTerminal.Board.constructor` | wio-terminal/src/main.rs:83-87 | every global starts as `None` |
| `WioTerminal.Board.ConfigureD0` | wio-terminal/src/main.rs:50-52 | `D0` becomes `Some`; nothing else changes |
| `WioTerminal.Board.ConfigureLed` | wio-terminal/src/main.rs:54-55 | `LED` becomes `Some`; nothing else changes |
| `WioTerminal.Board.InitUsbAllocator` | wio-terminal/src/main.rs:63-67 | `USB_ALLOCATOR` becomes `Some` |
| `WioTerminal.Board.InitUsbSerial` | wio-terminal/src/main.rs:68-69 | `USB_SERIAL` becomes `Some`, after the allocator |
| `WioTerminal.Board.InitUsbBus` | wio-terminal/src/main.rs:70-77 | `USB_BUS` becomes `Some` only once D0 and the LED exist, so the `unwrap`s in `poll_usb` cannot fail |
| `WioTerminal.Board.Boot` | wio-terminal/src/main.rs:50-80 | in source order, the steps leave every global set and keep the pins-before-bus invariant after each step |
| `WioTerminal.Board.PollUsb` | wio-terminal/src/main.rs:89-114 | the globals become `Poll` of the old ones; the board halts iff an `unwrap` fails, which cannot happen while the invariant holds |
| `Xiao.DriveIfPresent` | xiao/src/main.rs:94 | `Option::map` drives the pin iff it exists |
| `Xiao.Driven` | xiao/src/main.rs:93-98 | after a command, D0 (if present) is at the command's level and the LED exists at the opposite level |
| `Xiao.Poll` | xiao/src/main.rs:81-106 | `poll_usb` never changes the USB globals |
| `Xiao.PollEffect` | xiao/src/main.rs:81-106 | once the LED exists before the bus, `poll_usb` never halts, applies an accepted command, and otherwise changes nothing |
| `Xiao.ZeroDrivesD0LowLedHigh` | xiao/src/main.rs:89-95 | a one-byte read of `b'0'` drives D0 low and the LED high |
| `Xiao.OneDrivesD0HighLedLow` | xiao/src/main.rs:96-98 | a one-byte read of `b'1'` drives D0 high and the LED low |
| `Xiao.UnarmedPollIsNoop` | xiao/src/main.rs:83-84 | while `USB_BUS` or `USB_SERIAL` is `None`, `poll_usb` changes nothing |
| `Xiao.MissingLedHalts` | xiao/src/main.rs:94-98 | a missing D0 is skipped, but a missing LED halts the board on an accepted command |
| `Xiao.BootLevelsAreAsserted` | xiao/src/main.rs:44-45 | the boot levels (D0 high, LED low) are exactly what an accepted `b'1'` leaves, and have the LED opposite to D0 |
| `Xiao.InversionPreserved` | xiao/src/main.rs:93-98 | LED == not D0 is preserved by every `poll_usb`, which then never halts |
| `Xiao.PollIdempotent` | xiao/src/main.rs:81-106 | repeating a read has the effect of doing it once, from any globals, halts included |
| `Xiao.PollAll` | xiao/src/main.rs:108-111 | the interrupt handler's repeated `poll_usb` calls never change the USB globals, and change nothing until both `USB_BUS` and `USB_SERIAL` exist |
| `Xiao.LastCommandWins` | xiao/src/main.rs:81-106 | after any run of reads, the pins show the last accepted command, or are unchanged if there was none, and the board never halts |
| `Xiao.Board.constructor` | xiao/src/main.rs:75-79 | every global starts as `None` |
| `Xiao.Board.ConfigureD0` | xiao/src/main.rs:38-39 | `D0` becomes `Some`; nothing else changes |
| `Xiao.Board.ConfigureLed` | xiao/src/main.rs:41-42 | `LED` becomes `Some`; nothing else changes |
| `Xiao.Board.DriveBootLevels` | xiao/src/main.rs:43-46 | D0 (if present) is driven high and the LED low |
| `Xiao.Board.InitUsbAllocator` | xiao/src/main.rs:49-58 | `USB_ALLOCATOR` becomes `Some` |
| `Xiao.Board.InitUsbSerial` | xiao/src/main.rs:60-61 | `USB_SERIAL` becomes `Some`, after the allocator |
| `Xiao.Board.InitUsbBus` | xiao/src/main.rs:62-69 | `USB_BUS` becomes `Some` only once the LED exists opposite to D0, so the LED `unwrap` in `poll_usb` cannot fail |
| `Xiao.Board.Boot` | xiao/src/main.rs:38-72 | in source order, the steps end with every global set, D0 high and the LED low, and keep the invariant after each step |
| `Xiao.Board.PollUsb` | xiao/src/main.rs:81-106 | the globals become `Poll` of the old ones; the board halts iff the LED `unwrap` fails, which cannot happen while the invariant holds |
| `Protocol.HostBytesAreNotCommands` | src/main.rs:147-164 | 0x01 is not `b'1'` and 0x00 is not `b'0'`, so no read of host bytes is a firmware command |
| `Protocol.HostStreamIgnored` | wio-terminal/src/main.rs:101-106 | any run of reads made of host bytes leaves both boards' globals unchanged and never halts them |
| `Protocol.HostOutputMovesNoPin` | xiao/src/main.rs:93-98 | everything a running host has written, delivered one byte per read, moves no pin on either board |

## Left out

- GPU and windowing: the internals of `State::new` (the initial configuration is a constructor parameter) and of `State::render` (its result is an input), `prompt_for_monitor`, the first video mode's `unwrap`, fullscreen and cursor set-up. These are calls into wgpu and winit.
- Colours: the `f64` intensities and `wgpu::Color` values are floating point. Colours are the tags `Background` and `Stimulus`.
- The skipped-frame log (src/main.rs:213, src/main.rs:266-269) depends on the wall clock and only logs.
- Argument parsing and logger set-up.
- Opening the serial port (`Gpio::new`) and its timeout: the model starts from an open port. A failure to open is not modelled.
- `window.request_redraw()` on `MainEventsCleared` has no state the model tracks. Events for other windows are the `Ignored` event.
- Host.Scheduler.Run: winit delivers events in loop iterations and exits only after the iteration in which `Exit` was set. The model treats each event as its own iteration, so it delivers nothing after the event that set `Exit`. A redraw handled after `Exit` within the same iteration is still covered by `OnEvent`, which accepts any control flow.
- Host.Scheduler.Redraw: when `refresh_rate` is 0, Rust has already stored `count + 1` when `%=` panics. The model leaves `count` unchanged, because the process aborts and nothing can read it.
- Host.Gpio.SetHigh, Host.Gpio.SetLow: a write reporting more than one byte for a one-byte buffer breaks the `io::Write` contract. The model treats it like a short write (nothing sent, panic).
- Board bring-up: clocks, NVIC priorities and unmasking, the wio power-rail pins (wio-terminal/src/main.rs:33-39), USB descriptors and VID/PID, `usb_dev.poll`, and `panic_halt` beyond "the board stops".
- The 32-byte read buffer: a read of more than 32 bytes cannot happen, and any count other than 1 is ignored anyway, so reads are not bounded.
- The level a pin drives right after `into_push_pull_output()` is set by the HAL, not by this code. It is a parameter of `ConfigureD0`/`ConfigureLed`. The wio never sets it before the first command.
- Pin `set_low`/`set_high` cannot fail (their error type is infallible), so those `unwrap`s are not modelled as halting.
- Interrupt concurrency: each `poll_usb` call is one atomic step. Interrupts can fire during `main`, between the initialisation steps. The model covers them because every step and every `PollUsb` keeps `Board.Valid()`.
- wio-terminal/src/drivers.rs is not part of this model. It is not compiled into the firmware.
- Host.Scheduler.constructor: after a failed startup `set_low` the source never builds the surface. The model still creates it, after the write, because every field of the object must be set. Nothing runs once `panicked` is set.
