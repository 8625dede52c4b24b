# CHIP-8 machine state, modelled in Dafny

This project models the state containers of the eg-ayoub/chip-8 emulator (C++) and proves properties about them:

- the 64 x 32 monochrome framebuffer, with `clear` and XOR sprite drawing (`Display`);
- the 4 KB main memory with its font and program regions (`Memory`);
- the 16-entry call stack (`Stack`);
- the 16-key hexadecimal keypad and its scancode table (`Keypad`);
- the glyph table, either the built-in default or parsed from a text font file (`Font`);
- the machine start-up sequence and the timer thread (`Application`).

Each C++ class that updates its fields in place is a Dafny `class` over an `array`. Its methods are proved against pure specification functions on sequences, for example `Stack.PushStep`, `Memory.WithProgram` and `Display.Drawn`. Lemmas state what the source promises about those functions.

The C++ exceptions become values of `Types.Result`:

- `std::out_of_range`, which a checked `std::vector::at` throws, is `OutOfRange`;
- `std::runtime_error` is `RuntimeError(message)`.

Files, SDL events and the timer thread's stop flag become inputs:

- a ROM is its bytes;
- a font file is its lines;
- the event queue is a finite sequence of events;
- the stop flag is a count of loop iterations.

Memory bytes, registers and font bytes are `Types.byte`, an integer in [0, 256). Sprite rows passed to `Display` are `bv8`, so that the FLAGS masks apply to them as bit masks.

The model follows the code where it departs from the usual CHIP-8 conventions:

- Memory accesses are bounds-checked and throw `std::out_of_range`. They do not wrap modulo 4096.
- `load_program` does not check the ROM size.
- `draw` returns an `int` (0 or 1).
- A sprite bit past the right edge lands in the next row. It is not skipped.

## Model

| member | source | states |
|---|---|---|
| Display.FlagsAreSingleBits | src/display/display.hpp:25-33 | FLAGS has eight entries, and FLAGS[i] is the single-bit mask 1 << i |
| Display.Index | src/display/display.hpp:23 | `index(x, y)` with x < 64 addresses a slot of row y, between 64 * y and 64 * (y + 1); `IndexInGrid`, `IndexInjective` and `IndexCoversGrid` state the rest |
| Display.IndexInGrid | src/display/display.hpp:23 | every in-grid coordinate (x < 64, y < 32) addresses a slot below 64 * 32 |
| Display.IndexInjective | src/display/display.hpp:23 | distinct in-grid coordinates address distinct slots |
| Display.IndexCoversGrid | src/display/display.hpp:23 | every slot p of the pixel vector is the index of the cell (p % 64, p / 64) |
| Display.IndexSpillsIntoNextRow | src/display/display.hpp:23 | `index` does not wrap columns: column 64 + k of row y is the slot of column k of row y + 1 |
| Display.MarkUnique | src/display/display.cpp:105-112 | two bits of one sprite never address the same slot, so no pixel is flipped twice by a draw |
| Display.Display.Init | src/display/display.cpp:38-50 | the pixel vector has 64 * 32 slots, all off |
| Display.Display.Clear | src/display/display.cpp:54-65 | after `clear` every pixel of the framebuffer is off |
| Display.Display.Draw | src/display/display.cpp:98-125 | the new framebuffer is the old one with exactly the lit sprite bits (origin wrapped, slots past the vector skipped) flipped; returns 1 iff one of those flips turned a pixel off, else 0 |
| Display.Display.DrawColumn | src/display/display.cpp:105-122 | one pass of the outer loop flips exactly the lit bits of column rx and sets the result to 1 iff one of them was on |
| Display.DrawWrapsOrigin | src/display/display.cpp:101-102 | drawing at (x + 64, y + 32) is the same draw as at (x, y), with the same collision result |
| Display.DrawTogglesLitBit | src/display/display.cpp:109-114 | a lit sprite bit whose slot exists flips that pixel |
| Display.DrawKeepsUnlitPixels | src/display/display.cpp:105-122 | a pixel that no lit sprite bit addresses keeps its state |
| Display.DrawSpillsIntoNextRow | src/display/display.cpp:111 | a lit bit past the right edge flips the pixel at column x + rx - 64 of the next row |
| Display.NoVerticalWrap | src/display/display.cpp:101-113 | rows above the wrapped origin row are never touched |
| Display.DrawSkipsOutOfRange | src/display/display.cpp:112-120 | a draw keeps the vector size, and it collides iff some lit bit addresses an existing slot whose pixel is on |
| Display.DrawTwiceRestores | src/display/display.cpp:114 | the flip is an XOR: drawing the same sprite twice at the same place restores the framebuffer |
| Display.SecondDrawCollides | src/display/display.cpp:115-119 | when a draw turned a pixel on, drawing the same sprite again there reports a collision |
| Display.BlankSpriteDrawsNothing | src/display/display.cpp:109 | an empty or all-zero sprite changes nothing and never collides |
| Display.DrawOnBlankNeverCollides | src/display/display.cpp:115-119 | a draw onto a cleared framebuffer never reports a collision |
| Memory.ReadAt | src/memory/memory.cpp:67-70 | a read succeeds iff the address is below the memory size and then returns that cell; otherwise it throws `std::out_of_range` |
| Memory.WriteAt | src/memory/memory.cpp:72-75 | a write succeeds iff the address is below the memory size and keeps the size; otherwise it throws `std::out_of_range` |
| Memory.ReadAfterWrite | src/memory/memory.cpp:67-75 | a read after a write returns the byte written at that address, and any other address reads as before |
| Memory.FontRegion | src/memory/memory.cpp:24-30 | after `load_font` the glyphs occupy [0x50, 0xA0) and every other cell is unchanged |
| Memory.ProgramRegion | src/memory/memory.cpp:32-42 | after `load_program` ROM byte i sits at 0x200 + i and every other cell is unchanged |
| Memory.FontSurvivesProgramLoad | src/memory/memory.cpp:24-42 | loading the program after the font leaves all 80 glyph bytes in place |
| Memory.InRangeViewAccepted | src/memory/memory.cpp:54 | every chunk inside memory passes the `view_memory` bounds check |
| Memory.WrappedViewAccepted | src/memory/memory.cpp:54 | the `size_t` sum wraps: offset 16 with length 2^64 - 8 passes the check though the chunk is not inside memory |
| Memory.IntendedViewCheck | src/memory/memory.cpp:54-63 | the intended check accepts exactly the non-empty chunks whose every address can be read |
| Memory.Memory.Init | src/memory/memory.cpp:18-22 | memory is MEM_SIZE = 4096 zero bytes |
| Memory.Memory.Read | src/memory/memory.cpp:67-70 | `read` returns what `ReadAt` specifies and changes nothing |
| Memory.Memory.Write | src/memory/memory.cpp:72-75 | `write` changes exactly the addressed cell, or throws `std::out_of_range` and changes nothing |
| Memory.Memory.LoadFont | src/memory/memory.cpp:24-30 | memory becomes `WithFont` of the old memory and the font's 80 bytes |
| Memory.Memory.LoadProgram | src/memory/memory.cpp:32-50 | memory becomes `WithProgram` of the old memory and the ROM; throws "failed to load rom" iff no byte was read |
| Memory.Memory.ViewMemory | src/memory/memory.cpp:52-65 | succeeds iff the as-written check accepts; then yields the bytes from `offset` to the wrapped end; every in-range chunk yields exactly its bytes |
| Stack.PushStep | src/stack/stack.cpp:23-30 | a push keeps the stack's shape: 16 slots, `top` within [-1, 16] |
| Stack.PopStep | src/stack/stack.cpp:32-39 | a pop keeps the stack's shape: 16 slots, `top` within [-1, 16] |
| Stack.PushStepIntended | src/stack/stack.cpp:23-30 | the corrected push keeps the stack well formed, never throws `std::out_of_range`, and succeeds iff `top + 1 < 16`; `IntendedPushReportsOverflow` relates it to the code as written |
| Stack.PushAll | src/stack/stack.cpp:23-30 | pushing a sequence that succeeds leaves a well-formed stack |
| Stack.PopAll | src/stack/stack.cpp:32-39 | popping k times that succeeds leaves a well-formed stack |
| Stack.StepsOnLive | src/stack/stack.cpp:23-39 | a push succeeds iff `top + 1 < 16` and then appends its address to the live entries; a pop succeeds iff 0 <= `top` < 16 and then returns the topmost live entry and removes it |
| Stack.EmptyAfterInit | src/stack/stack.cpp:15-21 | after `init` there are 16 slots and no live entry, and a pop throws "empty stack" |
| Stack.PopEmptyFails | src/stack/stack.cpp:34-37 | a pop with `top < 0` throws "empty stack" and changes nothing |
| Stack.PushThenPop | src/stack/stack.cpp:23-39 | below capacity, a push followed by a pop returns the pushed address and restores `top` and the live entries |
| Stack.PushAllAppends | src/stack/stack.cpp:23-30 | pushing xs onto a stack with room appends xs to the live entries and raises `top` by |xs| |
| Stack.PopAllTakesTop | src/stack/stack.cpp:32-39 | k pops return the top k entries, topmost first, and lower `top` by k |
| Stack.PushesPopInReverse | src/stack/stack.cpp:23-39 | LIFO: pushing xs and popping |xs| times returns xs reversed and restores the stack |
| Stack.SixteenPushesFit | src/stack/stack.cpp:23-30 | sixteen pushes onto the empty stack all succeed, leaving `top` at 15 |
| Stack.SeventeenthPushOutOfRange | src/stack/stack.cpp:25-29 | at `top` == 15 the guard lets the push through, `at(16)` throws `std::out_of_range`, and `top` is left at 16 |
| Stack.OverflowGuardFiresOnlyAtSixteen | src/stack/stack.cpp:25-28 | the "stack overflow" guard fires iff `top` is 16 |
| Stack.PopAfterFailedPush | src/stack/stack.cpp:23-39 | after the failed 17th push, a pop also throws `std::out_of_range` and leaves `top` at 15 |
| Stack.IntendedPushReportsOverflow | src/stack/stack.cpp:25-28 | with the guard `top + 1 >= 16`, a push never throws `std::out_of_range`; it reports "stack overflow" iff the stack is full and then changes nothing; below capacity it agrees with the code |
| Stack.Stack.Init | src/stack/stack.cpp:15-21 | the stack is sixteen zeroed slots with `top` == -1 |
| Stack.Stack.Push | src/stack/stack.cpp:23-30 | `push` returns and leaves exactly what `PushStep` specifies |
| Stack.Stack.Pop | src/stack/stack.cpp:32-39 | `pop` returns and leaves exactly what `PopStep` specifies |
| Keypad.KeyOf | src/keypad/keypad.cpp:33-40 | the key found for a scancode has that scancode in SCANCODES, and none is found iff the scancode is not in the table |
| Keypad.FirstKeyPress | src/keypad/keypad.cpp:62-84 | the key returned is that of a key-down event with a known scancode, and every earlier event is not one; none iff no event is |
| Keypad.ScancodesDistinct | src/keypad/keypad.hpp:10-30 | the sixteen scancodes are pairwise distinct |
| Keypad.KeyOfExact | src/keypad/keypad.cpp:33-40 | a scancode stands for key k iff SCANCODES[k] is that scancode |
| Keypad.PressSetsOnlyItsKey | src/keypad/keypad.cpp:31-42 | `register_key` on SCANCODES[k] presses key k and changes no other key |
| Keypad.ReleaseClearsOnlyItsKey | src/keypad/keypad.cpp:44-55 | `release_key` on SCANCODES[k] releases key k and changes no other key |
| Keypad.UnknownScancodeIgnored | src/keypad/keypad.cpp:31-55 | a scancode outside the table changes no key |
| Keypad.PressThenRelease | src/keypad/keypad.cpp:31-55 | a release after a press of the same scancode leaves that key released and the others as before |
| Keypad.WaitSkipsOtherEvents | src/keypad/keypad.cpp:65-83 | key-up events, other events and unknown key-downs do not end the wait; the first known key-down does, with its key |
| Keypad.Keypad.Init | src/keypad/keypad.cpp:17-21 | sixteen keys, all released |
| Keypad.Keypad.Reset | src/keypad/keypad.cpp:23-29 | every key is released |
| Keypad.Keypad.RegisterKey | src/keypad/keypad.cpp:31-42 | the keys become `Pressed` of the old keys and the scancode |
| Keypad.Keypad.ReleaseKey | src/keypad/keypad.cpp:44-55 | the keys become `Released` of the old keys and the scancode |
| Keypad.Keypad.IsPressed | src/keypad/keypad.cpp:57-60 | returns the flag of a key below 16, and throws `std::out_of_range` for 16 to 255 |
| Keypad.Keypad.WaitForKey | src/keypad/keypad.cpp:62-84 | returns the key that `FirstKeyPress` specifies, always below 16 |
| Font.FirstMatch | src/font/font.cpp:31-37 | the position found is the leftmost match of `0b[01]{8}` at or after the start; none iff no position matches |
| Font.SearchByte | src/font/font.cpp:31-37 | the captured group is the eight binary digits after `0b` at the leftmost match; there is none iff the line has no match |
| Font.SearchByteLeftmost | src/font/font.cpp:37-39 | when the pattern matches at i and nowhere to its left, `match.str(1)` is the eight characters from i + 2 |
| Font.DecimalValueBound | src/font/font.cpp:39 | eight binary digits read by `std::stoi` give at most 11111111, so `stoi` never throws here |
| Font.DecimalValue | src/font/font.cpp:39 | `std::stoi` reads the digits in base 10, giving at most the number written with as many ones |
| Font.ParseByte | src/font/font.cpp:39 | the byte stored as written is the decimal reading modulo 256; its lowest bit agrees with the base-2 reading, and `DecimalReadingDiffers` shows the other bits need not |
| Font.LowestDigitAgrees | src/font/font.cpp:39 | the decimal and binary readings of the same digits have the same parity |
| Font.ParseByteIntended | src/font/font.cpp:31-39 | the intended byte is the digits read in base 2 |
| Font.IntendedParseRoundTrip | src/font/font.cpp:31-39 | every byte's eight-digit binary spelling reads back as that byte under the intended reading |
| Font.DecimalReadingDiffers | src/font/font.cpp:39 | as written, `0b00000001` gives 1 in both readings, but `0b11110000` gives 112 where 240 is meant |
| Font.MatchesCountsLines | src/font/font.cpp:34-47 | each matching line contributes exactly one byte |
| Font.FontFromLines | src/font/font.cpp:20-63 | the table the constructor ends with has 80 bytes, and its only exception is `std::out_of_range`; `FontFromLinesCases` states when each case arises |
| Font.MatchesAppend | src/font/font.cpp:34-47 | bytes are stored in line order: a file's bytes are those of its first part followed by those of the rest |
| Font.OneLine | src/font/font.cpp:37-46 | a line without a match contributes nothing; a line with one contributes its parsed byte |
| Font.FontFromLinesCases | src/font/font.cpp:34-62 | more than 80 matching lines throw `std::out_of_range`; exactly 80 keep the parsed bytes; fewer revert to DEFAULT_FONT |
| Font.Font.Data | src/font/font.cpp:65-68 | the table has FONT_DATA_SIZE = 80 bytes |
| Font.Font.Default | src/font/font.cpp:7-18 | the table is DEFAULT_FONT |
| Font.Font.Allocate | src/font/font.cpp:23 | a fresh table of 80 zero bytes |
| Font.Font.Revert | src/font/font.cpp:56-61 | the table becomes DEFAULT_FONT |
| Font.Font.FromLines | src/font/font.cpp:20-63 | throws `std::out_of_range` iff `FontFromLines` does; otherwise a fresh font whose table is what `FontFromLines` specifies |
| Application.TickTimer | src/application.cpp:143-151 | one iteration never raises a timer, and leaves it unchanged iff it is already zero; `TicksSaturate` states n iterations |
| Application.TickDecrementsNonZero | src/application.cpp:143-151 | a tick lowers a timer by one iff it is non-zero, never below zero |
| Application.TicksSaturate | src/application.cpp:141-152 | after n ticks a timer set to t reads t - n, saturating at zero |
| Application.TimerDrainsAndStays | src/application.cpp:141-152 | a timer set to N reads zero after N ticks and stays zero after further ticks |
| Application.StartupFontCases | src/application.cpp:24-50 | "nofont" or an unopenable font file gives DEFAULT_FONT; otherwise the font file decides, throwing iff more than 80 lines match |
| Application.Application.Make | src/application.cpp:41-62 | keeps the font and ROM, and creates the sixteen zeroed registers |
| Application.Application.Create | src/application.cpp:8-63 | throws "unable to load rom" when the ROM cannot be opened; otherwise throws iff the font file throws; else holds the start-up font and the ROM |
| Application.Application.Init | src/application.cpp:71-105 | memory is the zeroed 4 KB with the font at 0x50 and the ROM at 0x200; throws "failed to load rom" iff the ROM is empty; otherwise the stack is empty, V is zero, both timers are 0, PC = 0x200 and I = 0 |
| Application.Application.ResetRegisters | src/application.cpp:89-104 | V is zero, both timers are 0, PC = 0x200 and I = 0; the components are untouched |
| Application.Application.Tick | src/application.cpp:143-151 | each timer independently becomes `TickTimer` of its old value; nothing else changes |
| Application.Application.TimersThread | src/application.cpp:138-153 | after n loop iterations each timer is `Ticks` of its old value and n; nothing else changes |

## Left out

- The instruction interpreter: `interpret` is only declared in src/application.hpp, and `main_thread` is empty.
- Threads: `run`, the `stop_timers_thread` flag, and the unsynchronised sharing of the timers between threads. The timer thread is modelled sequentially by `Application.Application.TimersThread`, with an iteration count in place of the flag.
- SDL: the window, the renderer, pixel rectangles and colours, `Display::update`, and the renderer failure in `Display::init`. Only the on/off state of each pixel is modelled. The event queue is a sequence of `Keypad.Event`.
- Sound (src/beep), src/main.cpp and command-line parsing, all logging, and the destructors and `cleanup`.
- File I/O: opening, seeking and reading the ROM and font files. A ROM is given as its bytes. A font file is given as whether it opens and as its lines.
- DEFAULT_FONT and FONT_DATA_SIZE: src/font/font.hpp is not part of this model. The conventional 80-byte CHIP-8 glyph table is used, and no property depends on its contents.
- `timer::timer_t` and `reg::register_t`: their headers are not part of this model. The timers are `nat`, which is exact because they are only ever decremented when non-zero. The registers are bytes.
- Exception messages are modelled without their interpolated parts (file names, offsets).
- Memory.Memory.LoadProgram: requires a ROM of at most 3584 bytes. The source does not check the size, and a larger file overruns the vector. `Application.Valid` carries the same bound, so `Application.Application.Make` and `Application.Application.Create` require it too, although the C++ constructor accepts any ROM file that opens.
- Memory.Memory.ViewMemory: yields the bytes it would log instead of logging them, and requires `length` to be a `size_t` value.
- Keypad.Keypad.WaitForKey: returns `None` when the finite event sequence runs out. The source keeps polling forever.
- Application.Application.Make: promises nothing about the timers, PC and I, which the C++ constructor leaves uninitialised until `init`. It also requires a ROM of at most 3584 bytes, the bound `Memory.Memory.LoadProgram` needs.
- Application.Application.Create: the `clock` argument is only stored by the source and is left out. It requires a ROM of at most 3584 bytes, though the C++ constructor accepts any ROM file that opens.
- Each container's C++ constructor and its `init` are one Dafny constructor (`Init`), since the C++ constructors do nothing.
- Display.Display.DrawColumn and Application.Application.ResetRegisters are one loop pass of `draw` and the register part of `init`, split out so that each proof stays small.

## Findings

`Stack.Stack.Push`, `Font.Font.FromLines` and `Memory.Memory.ViewMemory` keep the behaviour as written. The corrected definitions stand beside them, with their intended properties proved.

| source | as written | input that shows it | evidently intended | confidence | as-written member | corrected member |
|---|---|---|---|---|---|---|
| src/stack/stack.cpp:25 | guard `top + 1 > STACK_SIZE` lets a push at `top` == 15 through; `at(16)` then throws `std::out_of_range` with `top` already 16 | sixteen pushes onto the empty stack, then a seventeenth | `top + 1 >= STACK_SIZE`: the seventeenth push throws "stack overflow" and changes nothing | high, not executed | Stack.SeventeenthPushOutOfRange | Stack.IntendedPushReportsOverflow |
| src/font/font.cpp:39 | `std::stoi(match.str(1))` reads the eight digits after `0b` in decimal, and the cast to `std::byte` keeps that value modulo 256 | the line `0b11110000` stores 112 | read the digits in base 2: `0b11110000` stores 240 | high, not executed | Font.DecimalReadingDiffers | Font.IntendedParseRoundTrip |
| src/memory/memory.cpp:54 | `offset + length` is a `size_t` sum and wraps, so a huge `length` passes the check | offset 16, length 2^64 - 8 | reject any chunk that does not lie inside memory | medium, not executed | Memory.WrappedViewAccepted | Memory.IntendedViewCheck |
