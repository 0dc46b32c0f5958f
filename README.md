# Kosmos kernel core in Dafny

A model of the small, sequential pieces of the Kosmos x86-64 hobby kernel,
with proofs of what each piece does:

- **Boot frame allocator** (`allocator.dfy`, module `Allocator`):
  - the forward-only cursor `(next_region, current_frame)` over the
    bootloader's memory regions;
  - `init_heap`'s page loop, which draws one frame per heap page and maps
    it through an abstract mapper;
  - the heap statistics.

  `Next` is one call of `next_usable_frame` step for step. `AllFrames`
  lists every frame the allocator will ever hand out. `NextConsumesRemaining`
  proves that each call hands out exactly the first frame still to come.
- **Keyboard bridge** (`keyboard.dfy`, module `Keyboard`):
  - the two 100-byte scancode queues, their waker slots and the
    `USB_ACTIVE` arbitration flag;
  - the merged `poll_next`;
  - whole runs of interrupt and poll events;
  - the `get_line` editor over decoded keys.
- **VGA text buffer** (`vga.dfy`, module `Vga`): the 80x25 cell array
  written in place, the software cursor, the attribute byte, and
  `update_cursor`'s CRT-controller port writes, stated against a reference
  model of the controller.
- **PIT timer** (`timer.dfy`, module `Timer`): the divisor, the three-write
  programming sequence (checked against a reference model of channel 0),
  the wrapping `u64` tick counter and `uptime_seconds`.
- **Shell helpers** (`shell.dfy`, module `Shell`):
  - `trim_after_ghz`, `str::trim` and `parse_command`;
  - the statistics lines;
  - the fetch table and the header, as sequences of coloured and plain
    output events;
  - the reply to one entered line.
- **Hex encoder** (`serial.dfy`, module `Serial`): `serial_print_hex_u64`'s
  in-place buffer loop, its send loop, and its round trip.
- Shared: `base.dfy` (`Base`: fixed-width integers, `Option`, port writes)
  and `fmt.dfy` (`Fmt`: the `{}` and `{:02}` renderings with their
  read-back).

Each stateful global of the kernel is a class whose fields are the statics:
`BootInfoFrameAllocator`, `LockedHeap`, `KeyboardBridge`, `VgaText`, `Pit`
and `SerialPort`. Each method is tied to a function on a value snapshot
(`State()`), and the lemmas are about those functions. A kernel panic is an
explicit outcome (`NoMoreFrames`, `QueueFull`, `QueueUninitialized`, a
`Halted` run). It is not a halt.

Where the code and its comments or design disagree, the model follows the
code:

- The allocator hands out a frame only while `frame + 4096 < region.end`,
  so when a region's end is page-aligned its last frame is never handed
  out. The usable region `[0x1000, 0x5000)` yields three frames, not four.
- A usable region is entered at its start rounded down to a page
  (`containing_address`), so when the start is not page-aligned the first
  frame begins below the region and may overlap the memory before it. The
  region `[0x1800, 0x5000)` yields `0x1000` first. Frames therefore do not
  always lie fully within a usable region.
- `USB_ACTIVE` starts `true` and is never set back to `false`, so every
  PS/2 byte is discarded. The initial value is a parameter (`Boot`, the
  `KeyboardBridge` constructor), and both settings are proved about.
- The uptime line's third field is the total number of seconds, not
  `seconds % 60`.
- `print_fetch` pads to column 25 (`art_width + 3`), although its comment
  speaks of `+ 10`.
- `clear` does not move the hardware cursor.

## Model

| member | source | states |
|---|---|---|
| Base.ByteSplitRoundTrip | src/timer.rs:20-21 | a 16-bit value is recovered from the low and high bytes written to a port |
| Fmt.Decimal | src/allocator.rs:131 | `{}` yields at least one decimal digit, with a leading zero only for 0 |
| Fmt.DecimalRoundTrip | src/allocator.rs:131 | reading the rendered digits back gives the number |
| Fmt.ZeroPad2 | src/task/shell.rs:70-75 | `{:02}` yields at least two digits and leaves numbers of two or more digits unpadded |
| Fmt.ZeroPad2RoundTrip | src/task/shell.rs:70-75 | the zero-padded field still reads back as the number |
| Allocator.AlignDownIsFrameStart | src/allocator.rs:51 | `containing_address` gives the page-aligned start of the frame holding the address |
| Allocator.InitCursor | src/allocator.rs:33-39 | the fresh cursor is `(0, None)`, which is valid for every region list |
| Allocator.InitRemaining | src/allocator.rs:33-39 | a fresh allocator has every frame of `AllFrames` still to hand out, from region 0 on |
| Allocator.Next | src/allocator.rs:42-74 | defines one call of `next_usable_frame`; the cursor stays valid, its region index never decreases, `None` leaves it past the last region, and a handed-out frame is page-aligned, followed by the next open frame 4096 bytes on, and strictly below its region's last frame |
| Allocator.NextHandsOutOpenFrame | src/allocator.rs:45-52 | an open frame that is not its region's last is handed out, and the cursor moves 4096 bytes on |
| Allocator.NextPastLastRegion | src/allocator.rs:59-62 | with no open frame past the last region, the call reports exhaustion |
| Allocator.NextEntersRegion | src/allocator.rs:63-71 | from a closed cursor the loop opens a usable region at its rounded-down start or skips a reserved one, without changing the frames to come |
| Allocator.NextConsumesRemaining | src/allocator.rs:42-74 | every call hands out exactly the first frame still to come, or reports `None` exactly when none is left; the region index never decreases, and an exhausted cursor sits past the last region |
| Allocator.ExhaustedStaysExhausted | src/allocator.rs:60-62 | once `next_region >= len`, every call returns `None` and leaves the cursor as it is |
| Allocator.ReservedRegionsYieldNothing | src/allocator.rs:68-71 | a reserved region contributes no frame wherever it sits in the list |
| Allocator.AllFramesAppend | src/allocator.rs:42-74 | the frames of two region lists one after the other are those of their concatenation |
| Allocator.FramesFromShape | src/allocator.rs:46-52 | within a region, frame `k` is `start + 4096 k`, and there are `(end - start - 1) / 4096` of them |
| Allocator.FramesFromBelong | src/allocator.rs:46-52 | every frame of an open region is page-aligned, at or above the rounded-down start, and followed by more of the region |
| Allocator.AllFramesBelong | src/allocator.rs:46-71 | every frame handed out belongs to a usable region `r`: page-aligned, at or above `r`'s rounded-down start, with `f + 4096 < r.end` |
| Allocator.ReservedThenUsableExample | src/allocator.rs:49 | a reserved page then `[0x1000, 0x5000)` yields `0x1000, 0x2000, 0x3000` |
| Allocator.BootInfoFrameAllocator.Init | src/allocator.rs:33-39 | the allocator keeps the region list and starts at `(0, None)` with all of `AllFrames` to come |
| Allocator.BootInfoFrameAllocator.NextUsableFrame | src/allocator.rs:42-74 | the field-mutating loop returns what `Next` returns and leaves the cursor `Next` leaves |
| Allocator.BootInfoFrameAllocator.AllocateFrame | src/allocator.rs:78-80 | hands out the first frame still to come and removes it, or returns `None` exactly when none is left; `next_region` never decreases |
| Allocator.HeapPages | src/allocator.rs:88-94 | the inclusive page range of the heap is 250 consecutive pages from `HEAP_START` to its end |
| Allocator.MapPages | src/allocator.rs:96-104 | the page loop never draws more frames than there are pages or frames available |
| Allocator.MappedPrefixCons | src/allocator.rs:96-104 | the first `n + 1` pages map exactly when the first page maps and the next `n` do |
| Allocator.MapPagesOk | src/allocator.rs:96-110 | the loop succeeds exactly when there are enough frames and every page maps, and then page `i` is mapped to the `i`-th frame, one frame per page |
| Allocator.MapPagesNoFrames | src/allocator.rs:97-99 | it panics with "No more frames!" exactly when frames run out before pages and every page that got a frame mapped, and then every frame is drawn |
| Allocator.MapPagesErr | src/allocator.rs:102 | a mapping error comes from the first page that fails to map, after every page before it has mapped |
| Allocator.MapPagesAfterPrefix | src/allocator.rs:96-104 | once the first `n` pages have mapped, the rest of the result comes from the remaining pages and frames |
| Allocator.MapPagesNoFrameAt | src/allocator.rs:97-99 | the loop's exit when the allocator is empty at page `n` |
| Allocator.MapPagesFailAt | src/allocator.rs:102 | the loop's exit when page `n` fails to map |
| Allocator.MapPagesAllMapped | src/allocator.rs:96-110 | the loop's exit once every page has mapped |
| Allocator.MapEachPage | src/allocator.rs:96-104 | the loop ends as `MapPages` says, and the allocator loses exactly the frames drawn |
| Allocator.InitHeap | src/allocator.rs:84-111 | `init_heap` draws and maps as `MapPages` says for the heap's pages, and gives the global allocator the heap range only on success |
| Allocator.HeapFree | src/allocator.rs:122-124 | free plus used is the heap size |
| Allocator.HeapKibOf | src/allocator.rs:128-130 | used KiB is `used / 1024` rounded down, total KiB is 1000, and used never exceeds total while `used <= HEAP_SIZE` |
| Allocator.HeapStat | src/allocator.rs:128-131 | defines `heap_stat`; the line starts with "Heap: " and ends with " KiB" |
| Allocator.HeapStatReadsBack | src/allocator.rs:128-131 | the summary is "Heap: ", " / " and " KiB" around two digit strings, which read back as the used KiB (rounded down) and the total 1000 KiB |
| Keyboard.InitStream | src/task/keyboard.rs:25-28 | defines `init_keyboard_stream`; both queues exist afterwards, an existing one is kept as it was, and nothing else changes |
| Keyboard.AddPs2 | src/task/keyboard.rs:33-47 | defines `add_ps2_scancode`; the byte is ignored exactly while `USB_ACTIVE` is set, queued exactly when the flag is clear and the queue exists with room, any other outcome leaves the statics as they were, and the USB side is never touched |
| Keyboard.AddUsb | src/task/keyboard.rs:49-64 | defines `add_usb_scancode`; the byte only activates exactly while the flag is clear, the flag is set afterwards, a panic leaves the statics as they were, the byte is queued exactly when the flag was set and the queue exists with room, and the PS/2 side is never touched |
| Keyboard.PollNext | src/task/keyboard.rs:80-98 | defines `poll_next`; it never changes the flag or wakes anything, and a pending poll leaves both queues as they were |
| Keyboard.InitStreamIdempotent | src/task/keyboard.rs:25-28 | a second init changes nothing, both queues then exist, an existing queue keeps its bytes, and nothing else changes |
| Keyboard.Ps2IgnoredWhileUsbActive | src/task/keyboard.rs:34-36 | a PS/2 byte while `USB_ACTIVE` is set changes nothing and wakes nothing |
| Keyboard.PushContract | src/task/keyboard.rs:38-46 | a push onto a missing or full queue is fatal and changes nothing; otherwise the byte goes to the back and the length grows by one; the registered waker is woken and its slot emptied; nothing else changes (both producers) |
| Keyboard.UsbByteWhileInactiveOnlyActivates | src/task/keyboard.rs:50-53 | a USB byte while the flag is clear only sets the flag |
| Keyboard.PollPrefersPs2 | src/task/keyboard.rs:82-85 | a non-empty PS/2 queue gives up its front and nothing else changes, the USB queue included |
| Keyboard.PollContract | src/task/keyboard.rs:80-98 | the poll is pending exactly when every initialised queue is empty, after registering the task on each; otherwise it pops the USB front after registering on an empty PS/2 queue |
| Keyboard.RunAppend | src/task/keyboard.rs:33-98 | running two event batches in turn is running their concatenation |
| Keyboard.UsbModeStep | src/task/keyboard.rs:49-98 | with the flag set, one event keeps the mode, and the USB queue works as a FIFO: deliveries come off its front, pushes go on its back |
| Keyboard.ActiveRunIsUsbFifo | src/task/keyboard.rs:21-98 | with the flag set, a whole run delivers exactly the queued and newly pushed USB bytes in order, and the PS/2 queue stays empty |
| Keyboard.Ps2ModeStep | src/task/keyboard.rs:33-98 | with the flag clear and the USB source silent, one event keeps that mode and the PS/2 queue works as a FIFO |
| Keyboard.InactiveRunIsPs2Fifo | src/task/keyboard.rs:33-98 | while the flag is clear and the USB source produces nothing, a whole run delivers exactly the queued and newly pushed PS/2 bytes in arrival order |
| Keyboard.ApplyWithinCapacity | src/task/keyboard.rs:38-46 | no event that does not panic takes a queue past 100 bytes |
| Keyboard.RunWithinCapacity | src/task/keyboard.rs:33-98 | a run that does not panic keeps both queues within 100 bytes |
| Keyboard.BootWithinCapacity | src/task/keyboard.rs:13-98 | from boot, for either initial `USB_ACTIVE`, no queue ever holds more than 100 bytes |
| Keyboard.AsWrittenDeliversOnlyUsb | src/task/keyboard.rs:21-36 | as the kernel boots (`USB_ACTIVE` true), the consumer receives only USB bytes, in push order |
| Keyboard.PushesQueue | src/task/keyboard.rs:55-60 | within capacity, a batch of USB bytes is queued in order without a panic |
| Keyboard.PollsDrain | src/task/keyboard.rs:90-93 | as many polls as there are queued USB bytes hand all of them over in order |
| Keyboard.UsbPushesThenPolls | src/task/keyboard.rs:49-98 | pushing up to 100 USB bytes and then polling hands every byte to the consumer in push order |
| Keyboard.OverflowIsFatal | src/task/keyboard.rs:56-57 | pushing onto a queue holding 100 bytes halts the kernel |
| Keyboard.InactiveBootExamples | src/task/keyboard.rs:34-53 | with the flag clear, a PS/2 byte reaches the next poll; a first USB byte is swallowed, and PS/2 bytes are ignored after it |
| Keyboard.KeyboardBridge.constructor | src/task/keyboard.rs:13-21 | the statics at boot: no queues, empty waker slots, the given `USB_ACTIVE` |
| Keyboard.KeyboardBridge.InitKeyboardStream | src/task/keyboard.rs:25-28 | creates each missing queue and keeps existing ones |
| Keyboard.KeyboardBridge.WakePs2 | src/task/keyboard.rs:42 | wakes the PS/2 waker's task and empties its slot |
| Keyboard.KeyboardBridge.WakeUsb | src/task/keyboard.rs:59 | wakes the USB waker's task and empties its slot |
| Keyboard.KeyboardBridge.AddPs2Scancode | src/task/keyboard.rs:33-47 | does to the statics what `AddPs2` does |
| Keyboard.KeyboardBridge.AddUsbScancode | src/task/keyboard.rs:49-64 | does to the statics what `AddUsb` does |
| Keyboard.KeyboardBridge.PollNextByte | src/task/keyboard.rs:80-98 | does to the statics what `PollNext` does |
| Keyboard.FirstTerminator | src/task/keyboard.rs:119-122 | finds the first Enter (`'\n'` or `'\r'`), or reports that there is none |
| Keyboard.GetLine | src/task/keyboard.rs:102-140 | returns the line edited from the keys before the first terminator, having read exactly the keys up to and including it; the echo is the edits then a newline |
| Keyboard.EchoReplaysLine | src/task/keyboard.rs:123-132 | replaying what the editor echoed (characters, backspaces) rebuilds the line it holds |
| Keyboard.TypedTextIsLine | src/task/keyboard.rs:112-139 | typing a text without control characters and then Enter returns exactly that text |
| Keyboard.BackspaceRemovesLast | src/task/keyboard.rs:123-128 | Backspace removes the last character and is a no-op on an empty line |
| Keyboard.TypeThenEraseCancels | src/task/keyboard.rs:123-131 | a character then Backspace leaves the line as it was |
| Keyboard.IgnoredKeysDropOut | src/task/keyboard.rs:115-134 | an undecoded or raw key leaves the line and echo unchanged wherever it comes |
| Keyboard.LineHasNoControl | src/task/keyboard.rs:118-132 | the returned line never holds a terminator or a backspace |
| Vga.ColorCode | src/vga.rs:38-56 | every colour code is a 4-bit value |
| Vga.ColorCodeRoundTrip | src/vga.rs:38-56 | the sixteen colours and the sixteen 4-bit codes correspond one to one |
| Vga.Attr | src/vga.rs:96-98 | the attribute is `bg * 16 + fg`: background in the high nibble, foreground in the low nibble |
| Vga.AttrDecodes | src/vga.rs:96-98 | both colours are recovered from the attribute |
| Vga.CharUnit | src/vga.rs:60 | `c as u16` keeps the code of a character below 256 |
| Vga.MakeEntry | src/vga.rs:59-61 | the cell's low byte is the character's low byte; for a character below 256 the cell is exactly (attribute, character) |
| Vga.CursorWrites | src/vga.rs:12-34 | defines `update_cursor`'s writes; four of them, select 0x0F then data, select 0x0E then data, the two data bytes recombining to `y*80 + x` when it fits 16 bits |
| Vga.CursorRegistersHoldPosition | src/vga.rs:12-34 | after `update_cursor`'s four writes, the controller's registers 0x0E and 0x0F hold the high and low bytes of `y*80 + x` |
| Vga.PutCharSpec | src/vga.rs:64-87 | a newline moves to the next row's start and writes no cell; any other character writes only the cell `y*80 + x` and advances one cell, wrapping at column 80; the cursor is then written to the ports |
| Vga.PrintSpec | src/vga.rs:90-94 | printing characters in bounds keeps the screen well formed and the attribute unchanged |
| Vga.PrintAppend | src/vga.rs:90-94 | printing two strings in turn is printing their concatenation |
| Vga.PrintPrefix | src/vga.rs:90-94 | a string that prints in bounds has every prefix printing in bounds |
| Vga.PrintPlainCursor | src/vga.rs:73-94 | newline-free text that fits below the cursor prints in bounds, leaving the cursor just after it |
| Vga.Painted | src/vga.rs:73-74 | painting characters keeps the buffer's size |
| Vga.PaintedShows | src/vga.rs:73-74 | painting changes exactly the cells from `p` on, the `k`-th to the `k`-th character |
| Vga.PrintPaints | src/vga.rs:90-94 | printing such text paints it from the cursor on |
| Vga.PrintPlainText | src/vga.rs:73-94 | such text lands in the cells after the cursor in order, and every other cell is unchanged |
| Vga.ClearSpec | src/vga.rs:100-106 | clearing resets the cursor to (0, 0), keeps the attribute, and writes no port |
| Vga.ClearShowsBlanks | src/vga.rs:100-103 | after `clear` every cell is a space (0x20) in the current attribute |
| Vga.ClearThenPrint | src/vga.rs:90-106 | clearing then printing up to 2000 characters without newlines shows exactly that text from the top left, with blanks after it |
| Vga.VgaText.constructor | src/vga.rs:4-36 | the boot state: the buffer as given, the cursor at (0, 0), attribute 0x0F, no port written |
| Vga.VgaText.UpdateCursor | src/vga.rs:12-34 | appends the four cursor writes and changes nothing else |
| Vga.VgaText.PutChar | src/vga.rs:64-87 | changes the buffer and cursor as `PutCharSpec` says |
| Vga.VgaText.Print | src/vga.rs:90-94 | `print` is `put_char` on each character in order |
| Vga.VgaText.PrintColor | src/vga.rs:96-98 | sets the attribute to `Attr(fg, bg)` and changes nothing else |
| Vga.VgaText.Clear | src/vga.rs:100-106 | fills all 2000 cells and resets the cursor as `ClearSpec` says |
| Timer.Divisor | src/timer.rs:6-12 | the divisor is 1193182 / 100 = 11931 = 0x2E9B, so the `u16` cast loses nothing |
| Timer.InitWrites | src/timer.rs:15-21 | defines `init`'s writes; three of them, the command 0x36 to 0x43, then two bytes to 0x40 that recombine, high after low, to the divisor |
| Timer.InitWriteValues | src/timer.rs:19-21 | `init` writes 0x43←0x36, then 0x40←0x9B, then 0x40←0x2E |
| Timer.InitProgramsHundredHz | src/timer.rs:11-23 | after those writes, channel 0 is in mode 3, binary, low/high access, with reload 11931, which gives 100 Hz |
| Timer.TickSpec | src/timer.rs:27-29 | a tick adds exactly one, wrapping to 0 only at 2^64 - 1 |
| Timer.TicksCountExactly | src/timer.rs:27-29 | below 2^64 ticks the counter equals the number of ticks |
| Timer.TicksMonotone | src/timer.rs:27-29 | short of wrapping, the counter never decreases |
| Timer.UptimeSeconds | src/timer.rs:33-35 | uptime is the whole seconds elapsed, rounded down |
| Timer.UptimeMonotone | src/timer.rs:33-35 | uptime never goes back, and one tick adds at most one second |
| Timer.Pit.constructor | src/timer.rs:4 | the counter starts at 0 with no port written |
| Timer.Pit.Init | src/timer.rs:11-23 | appends the three programming writes and leaves the counter |
| Timer.Pit.Tick | src/timer.rs:27-29 | increments the counter as `TickSpec` says |
| Timer.Pit.Uptime | src/timer.rs:33-35 | returns `UptimeSeconds` of the counter |
| Serial.HexValue | src/serial.rs:49-53 | an upper-case hex digit's value is below 16 and maps back to that digit |
| Serial.Nibble | src/serial.rs:48-54 | the nibble printed at position `i` is below 16 |
| Serial.NibbleDigit | src/serial.rs:49-53 | a nibble is printed as '0'-'9' or 'A'-'F', never through the '?' arm |
| Serial.HexDigits | src/serial.rs:45-55 | exactly 16 bytes, each an upper-case hex digit |
| Serial.Pow16Width | src/serial.rs:45-47 | sixteen hex digits span exactly the `u64` range |
| Serial.PrefixReadsBack | src/serial.rs:47-55 | the first `k` digits read back as `n` shifted right by `4 (16 - k)` bits, most significant first |
| Serial.HexRoundTrip | src/serial.rs:43-60 | reading the sixteen digits back gives `n` |
| Serial.HexInjective | src/serial.rs:43-60 | different numbers print differently |
| Serial.EncodeHex | src/serial.rs:45-55 | the reversed fill loop leaves digit `i` of `n` (most significant first) at `buf[i]` |
| Serial.SerialPort.constructor | src/serial.rs:5-10 | the port starts with nothing sent |
| Serial.SerialPort.Send | src/serial.rs:59 | appends one byte to what was sent |
| Serial.SerialPrintHexU64 | src/serial.rs:43-61 | sends exactly the sixteen hex digits of `n`, in buffer order |
| Shell.FindFrom | src/task/shell.rs:40 | `find` returns the first occurrence of the pattern, or none when it does not occur |
| Shell.TrimAfterGhz | src/task/shell.rs:39-45 | returns the prefix up to and including the first "GHz", or the whole string when there is none |
| Shell.TrimAfterGhzIdempotent | src/task/shell.rs:39-45 | trimming twice is trimming once |
| Shell.TrimStart | src/task/shell.rs:150 | what is removed from the front is whitespace, and what is left starts with non-whitespace |
| Shell.TrimEnd | src/task/shell.rs:150 | what is removed from the back is whitespace, and what is left ends with non-whitespace |
| Shell.Trim | src/task/shell.rs:150 | `trim` keeps a contiguous piece with non-whitespace ends and removes only whitespace around it |
| Shell.TrimStartOfPadded | src/task/shell.rs:150 | leading whitespace before a text is exactly what the front trim removes |
| Shell.TrimEndOfPadded | src/task/shell.rs:150 | trailing whitespace after a text is exactly what the back trim removes |
| Shell.TrimOfPadded | src/task/shell.rs:150 | whitespace around a text is exactly what `trim` removes |
| Shell.TrimIdempotent | src/task/shell.rs:150 | trimming twice is trimming once |
| Shell.ParseCommand | src/task/shell.rs:135-142 | defines `parse_command`; a recognised input has five characters, and one recognised as `Clear` is not "fetch" in any case |
| Shell.ParseIgnoresCase | src/task/shell.rs:135-142 | inputs equal up to ASCII case parse to the same command |
| Shell.ParseCommandCases | src/task/shell.rs:137-138 | "fetch" and "clear" are recognised in any case |
| Shell.ParseCommandRejects | src/task/shell.rs:135-142 | every input whose length is not five (an untrimmed space included) is unknown, and an input is known exactly when it equals "fetch" or "clear" up to ASCII case |
| Shell.AdvertisedCommandsParse | src/task/shell.rs:33-36 | both advertised commands parse, to `Fetch` and `Clear` in that order |
| Shell.ShellCommandIgnoresPadding | src/task/shell.rs:150 | whitespace around the entered line never changes the command |
| Shell.UptimeFields | src/task/shell.rs:67-75 | the hours and minutes below 60 cover the uptime to the minute, and the third field is the total seconds |
| Shell.UptimeLine | src/task/shell.rs:70-75 | defines the uptime line; it starts with "Uptime: " and ends with "s" |
| Shell.UptimeShowsTotalSeconds | src/task/shell.rs:70-75 | 125 seconds shows as "Uptime: 00h 02m 125s" |
| Shell.UptimeUnderAMinute | src/task/shell.rs:70-75 | 59 seconds shows as "Uptime: 00h 00m 59s" |
| Shell.UptimeLineReadsBack | src/task/shell.rs:67-75 | the hour and minute fields read back as the whole minutes of uptime, and the last field as the total seconds |
| Shell.CpuLine | src/task/shell.rs:47-58 | defines `cpuinfo`'s line; it starts with "CPU: " followed by a prefix of the brand string |
| Shell.CpuLineWithoutBrand | src/task/shell.rs:50-57 | without a brand string the line is "CPU: Unknown CPU" |
| Shell.FindAbsentChar | src/task/shell.rs:40 | a pattern whose first character does not occur in the string is never found |
| Shell.GetStats | src/task/shell.rs:60-89 | exactly four lines, in the order OS, uptime, CPU, heap |
| Shell.ArtColor | src/task/shell.rs:104-109 | defines the colour match; every art character is white, yellow, light red or black |
| Shell.ArtColorClasses | src/task/shell.rs:104-109 | the core strokes `*`, `>`, `<`, backslash, `/` and `=` are white; the colon, `!`, the vertical bar, `-`, the apostrophe and `+` are yellow; `.` is light red; everything else is black |
| Shell.PadRight | src/task/shell.rs:115-119 | an art line is padded up to column 25 and never truncated |
| Shell.PrintFetchRow | src/task/shell.rs:98-122 | one pass of the outer loop prints the coloured art, the black padding, then the statistic line |
| Shell.PrintFetch | src/task/shell.rs:92-124 | prints `max(art lines, stats)` rows, a missing entry on either side standing for "" |
| Shell.TextOfAppend | src/task/shell.rs:111-122 | the text of two outputs one after the other is their texts concatenated |
| Shell.FetchRowText | src/task/shell.rs:98-122 | without colours, a row is the art padded to column 25, then the statistic and a newline |
| Shell.FetchRowColours | src/task/shell.rs:103-122 | each art character is drawn on black in its class colour, the padding is black on black, and the statistic ends the row |
| Shell.LinesAppend | src/task/shell.rs:122 | the lines of two outputs one after the other add up |
| Shell.ColoredHaveNoLines | src/task/shell.rs:111-117 | the coloured art and padding end no line |
| Shell.FetchRowLines | src/task/shell.rs:98-122 | each row of the table is one line |
| Shell.FetchLineCount | src/task/shell.rs:94-123 | the first `n` rows print exactly `n` lines |
| Shell.StarFitsArtWidth | src/task/shell.rs:20-31 | the star has 10 lines, none wider than 22, so every statistic starts at column 25 |
| Shell.FetchOfStats | src/task/shell.rs:92-99 | with the kernel's four statistics, the table has the star's ten lines, the last six with no statistic |
| Shell.PrintHeader | src/task/shell.rs:126-133 | the banner, the "COMMANDS: " label, each command in `COMMANDS` order in yellow on black, then a newline |
| Shell.HeaderText | src/task/shell.rs:126-133 | the header reads "--- Kosmos ---", a blank line, then "COMMANDS: FETCH CLEAR " |
| Shell.Respond | src/task/shell.rs:150-166 | defines one iteration's dispatch; every reply ends with a newline, "clear" starts by clearing the screen, and an unknown line gets two outputs, the first starting with the trimmed line |
| Shell.RespondClear | src/task/shell.rs:150-161 | "CLEAR" with any surrounding whitespace clears the screen and redraws the header |
| Shell.RespondUnknown | src/task/shell.rs:150-165 | every unknown line, with any surrounding whitespace, is echoed back trimmed, flagged as unknown, and followed by a blank line |
| Shell.RespondUnknownExample | src/task/shell.rs:162-165 | "ls" with spaces around it gets "ls: unknown command" and a blank line |

## Left out

- `src/interrupts.rs` (the IDT, PIC end-of-interrupt and the fault
  handlers) is not part of this model: it is CPU and interrupt-controller
  behaviour. `TIMER_TICKS` is modelled as the `Pit` class's counter.
- The executor is not part of this model, nor `shell_task`'s endless
  async loop or `spawn_shell`. `Respond` models one iteration's dispatch
  after the line has been read.
- `src/kernel.rs` and `src/lib.rs` hold only an entry point that loops, a panic
  handler and module declarations. `src/shell.rs` is an older shell whose `print_header`
  clears the screen and prints a welcome banner through `vga`; it is not
  part of this model, since the kernel's shell is `src/task/shell.rs`.
- The `print!`, `println!`, `printcolor!` and `vgaclear!` macros are not
  defined in any file modelled here. They are modelled as `Out` events,
  not as calls into `Vga`.
- Concurrency: the atomicity of `ArrayQueue`, `AtomicWaker` and
  `AtomicBool`, memory orderings, and interrupts arriving mid-call. The
  bridge and the tick counter are modelled as sequential state.
- The `pc_keyboard` scancode decoder is foreign code. `GetLine` is given
  the decoded key of each scancode (`None` for none). The echo for a
  backspace (`WRITER.backspace()`) is left as an event, because that
  method is not among the source files.
- `Mapper::map_to` is an oracle `mapTo(page, frame)`. The model leaves out
  any frames `map_to` itself draws from the same allocator for new page
  tables, and the TLB flush.
- `linked_list_allocator::LockedHeap` is foreign. Only whether it has been
  given an arena and the byte count `used()` reports are modelled.
- Allocator.HeapFree: requires `used <= HEAP_SIZE`, the foreign heap's
  own guarantee. It does not model the `usize` underflow beyond that.
- Allocator.Next: frame addresses are unbounded. The `u64` overflow of
  `frame + 4096` near 2^64 is not modelled, nor `PhysAddr::new`'s panic
  on an address above 52 bits.
- Vga.PutCharSpec: requires the cursor to be on the screen (`y < 25`) for
  a non-newline character. The source has no scrolling and would write
  past the buffer; that undefined write is not modelled. `y` is
  unbounded, so its `usize` overflow is not modelled either.
- Vga.VgaText.constructor: the buffer's contents at boot are a parameter.
  The memory-mapped hardware is not modelled.
- Vga.CursorRegistersHoldPosition: requires the position to fit 16 bits,
  which it does while the cursor is on the screen. Beyond that the port
  bytes are the truncated ones.
- The UART: its initialisation, `_print`, the `serial_print!` macros and
  `SerialPort::send`'s line-status polling. Sending is appending to a log.
- `cpuinfo`'s `raw_cpuid` query is foreign, so the brand string is an
  input (`CpuLine`, `GetStats`). `get_stats` is also given the tick
  counter and the heap's used bytes.
- Timer.Pit.constructor: the counter starts at 0. `TIMER_TICKS` is only
  imported by `src/timer.rs:4`, and its definition is not part of this
  model, so the initial 0 is assumed.
- Nothing in the model stands for I/O timing or the hardware's reaction
  to a port write beyond the reference models `Crtc` and `Channel0`.
