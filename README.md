# CHIP-8 instruction engine in Dafny

This project models the instruction engine of a small CHIP-8 emulator written in
C++. It covers the machine components (memory with the font table and program
counter, the sixteen V registers, the 32 x 64 framebuffer, the delay and sound
timers), the `fetch` / `decodeAndExecute` engine and every opcode handler. The
model follows the code as written, quirks included.

The project has six modules:

- `Bits` (bits.dfy): the C++ operators `&`, `|` and `^` on unsigned values, defined
  bit by bit. It also holds the lemmas about masks, single bits, XOR
  cancellation and modular offsets that the handlers rely on.
- `Components` (components.dfy): byte and word types and the font table.
  - The `Key` enum, `translateKeyToChar` and `uint8ToHex`.
  - The stateful classes `Memory`, `Display`, `Registers` and `Timer`. Their
    vectors become `seq` fields and the pixel matrix a two-dimensional array.
    Methods update these in place under `modifies` clauses.
- `Semantics` (semantics.dfy): the instruction set as functions of a `Machine`
  value. The `Machine` holds memory, PC, registers, index register, call stack,
  screen and timers.
  - `Execute` is one step of `decodeAndExecute`.
  - `Alu`, `Draw`, `FCode` and the other effect functions are the handlers.
- `Instructions` (instructions.dfy): the opcode handlers as methods on the
  component objects. Each one is proved to leave exactly the state the
  matching `Semantics` function describes.
  - `displaySprite` keeps its nested row and column loops.
  - `storeToMemory` and `loadFromMemory` keep their index loops.
- `Cpu` (cpu.dfy): `fetch` and `decodeAndExecute`, both proved equal to
  `Semantics`. Together they show that every top nibble reaches a handler, so
  the "opcode does not exist" exit is dead code.
- `Properties` (properties.dfy): the behaviour the emulator promises, stated
  over `Semantics.Execute` and proved. Examples:
  - call then return restores the machine;
  - drawing the same sprite twice (DXYN with neither X nor Y equal to F)
    restores the screen;
  - an FX65 run right after an FX55 whose block fits in memory changes nothing;
  - the flag conventions of the ALU;
  - the quirks of BNNN, FX1E and FX15.

How failures are modelled:

- Every `std::out_of_range` the engine can throw ends the emulator. The model
  returns it as `Fail(OutOfRange)` together with the state at the throw point.
  For example, a block write keeps the cells written before the failing
  address, and a sprite keeps the rows drawn before the failing read.
- The `exit(1)` of a return with an empty call stack is `Fail(EmptyStack)`, with
  the state unchanged.

Quirks of the code that the model keeps:

- In 8XY_, VX is written before VF, so with X = F the flag is what remains.
- BNNN computes `instruction & (0x0FFF + V0)`, because `+` binds tighter than `&`.
  It is not a jump to NNN + V0.
- FX15 loads the delay timer and then also runs the FX1E addition. The `else` only
  pairs with the FX18 test.
- FX1E sets VF to 1 on a 16-bit overflow but never clears it. It then reads VX
  again, so with X = F the index grows by 1 when the addition overflowed and
  by the old VF otherwise.
- F0N for any N other than 7 is the key wait. FX29 multiplies VX by 5 without
  masking it. Subcodes F4_ and F7_..FF_ do nothing.
- In family 0, every low byte other than E0 is a return.
- `Display::clear` loops over copies of the pixels. It leaves the framebuffer as
  it was and only raises `reprint`.
- 00E0 calls `setAllPixels(false)`. No engine path ever sets `reprint`.

DXYN follows the collision rule: after a complete draw, VF is 1 exactly when
some lit pixel went dark (`Properties.DrawFlagExactly`). On a blank screen the
first draw ends with VF 0, and the identical second draw, with neither X nor Y
equal to F and a sprite with a set bit, ends with VF 1
(`Properties.DrawOnBlankThenAgain`).

Some behaviour one might expect is not what the code does. The model follows
the code:

- One might expect the font glyph bytes at 0x000..0x04F never to change after
  construction. FX55 and FX33 write from I with no lower bound, so with I
  below 0x50 they overwrite glyph bytes. For example, F055 with I = 0 and
  V0 = 0 turns the 0xF0 at address 0 into 0. See
  `Properties.StoreOverwritesFont` and `Properties.FontStartsWithF0`.
- One might expect clearing and drawing to mark the display for redraw. No handler
  touches `reprint`. See `Cpu.DecodeAndExecute`, whose contract keeps the flag.
- One might expect an unknown opcode to be fatal. Every top nibble has a case, so
  that path cannot be reached.

## Model

| member | source | states |
|---|---|---|
| Bits.BitAnd | src/instructions/instructions.cpp:202 | `a & b` is no larger than either operand |
| Bits.ByteOps | src/instructions/instructions.cpp:150-158 | the three bitwise operators on bytes give bytes |
| Bits.XorZero | src/instructions/instructions.cpp:156-157 | XOR with 0 is the identity |
| Bits.XorCancel | src/instructions/instructions.cpp:156-157 | XOR-ing with the same value twice gives the original back |
| Bits.OrIdempotent | src/instructions/instructions.cpp:150-151 | OR-ing with the same value again changes nothing |
| Bits.AndIdempotent | src/instructions/instructions.cpp:153-154 | AND-ing with the same value again changes nothing |
| Bits.LowMask | src/instructions/instructions.cpp:202 | a mask of the k low bits is the value mod 2^k |
| Bits.SingleBit | src/instructions/instructions.cpp:88 | `a & 2^k` keeps bit k of a and nothing else |
| Bits.WrapInverse | src/instructions/instructions.cpp:85-86 | a cell lies d after s on a wrapping axis exactly when it is (s + d) mod m |
| Components.Uint8ToHex | src/components/components.cpp:12-38 | the result is two hexadecimal digits from the upper-case table |
| Components.HexRoundTrip | src/components/components.cpp:12-38 | parsing `uint8ToHex(v)` base 16 gives v back |
| Components.TwoDigitsAreByte | src/components/components.cpp:131-133 | a two-digit hexadecimal string parses to 16*high + low, which is below 256 |
| Components.HexPairValue | src/components/components.hpp:13-30 | each font entry's value is 16*high digit + low digit, a byte |
| Components.FontTableLayout | src/components/components.hpp:13-30 | the font vector has 80 entries, 16 glyphs of 5, and entry 5d + r is row r of glyph d |
| Components.FontImage | src/components/components.cpp:135-141 | the font bytes are the 80 parsed entries, in order |
| Components.FontByte | src/components/components.cpp:138 | storing a parsed entry as a byte leaves its value unchanged |
| Components.Ordinal | src/components/components.hpp:32-50 | Zero..F have ordinals 0..15, and Invalid alone is 16 |
| Components.HexToIndex | src/components/components.cpp:131-133 | an n-digit hexadecimal string parses to a value below 16^n |
| Components.TranslateKeyToChar | src/components/components.cpp:40-77 | each real key gives its enum ordinal, below 16, and Invalid gives 0xFF |
| Components.KeyTranslationRoundTrip | src/components/components.cpp:40-77 | on 0..15, casting to `Key` and `translateKeyToChar` are inverse, and 16 casts to Invalid |
| Components.Readable | src/components/components.cpp:85-90 | the cells a run of `getByte` calls returns before the first one out of range |
| Components.OverwriteStep | src/components/components.cpp:198-204 | writing one more byte of a block is one more `setByte` |
| Components.OverwriteTruncated | src/components/components.cpp:198-204 | bytes past the end of memory do not change what was written |
| Components.AsBytes | src/components/components.cpp:198-204 | each signed `char` of a program is stored as its value mod 256 |
| Components.Filled | src/components/components.cpp:223-229 | a 32 x 64 screen with every pixel set to the given value |
| Components.ScreenEquality | src/components/components.hpp:84-86 | two 32 x 64 screens with the same pixels are equal |
| Components.Memory.constructor | src/components/components.cpp:80-83 | 4096 cells: the font bytes at 0..79, zero elsewhere, and PC at 512 |
| Components.Memory.GetByte | src/components/components.cpp:85-90 | succeeds exactly when the index is below the size and returns that cell; otherwise `out_of_range` |
| Components.Memory.SetByte | src/components/components.cpp:96-102 | succeeds exactly when the index is in range. It writes that cell only, and a later `getByte` returns the value; otherwise it throws and nothing changes |
| Components.Memory.SetByteFromHex | src/components/components.cpp:104-106 | stores the byte the hexadecimal string parses to, with the same bounds check |
| Components.Memory.SetPC | src/components/components.cpp:112 | PC becomes the new value and memory is untouched |
| Components.Memory.LoadFonts | src/components/components.cpp:135-141 | cells 0..79 hold the font bytes; other cells and PC are unchanged |
| Components.Memory.LoadIntoMemory | src/components/components.cpp:198-204 | writes the program from PC on without moving PC. It fails exactly when the program overruns memory, after writing the in-range prefix |
| Components.Display.constructor | src/components/components.hpp:83-87 | every pixel is off and `reprint` is false |
| Components.Display.SetPixel | src/components/components.cpp:206-208 | sets pixel (row, col) and no other |
| Components.Display.SetAllPixels | src/components/components.cpp:223-229 | every pixel takes the given value |
| Components.Display.SetReprint | src/components/components.cpp:231 | `reprint` takes the given value |
| Components.Display.Clear | src/components/components.cpp:235-243 | raises `reprint` and leaves every pixel as it was |
| Components.Registers.constructor | src/components/components.cpp:253 | sixteen registers, all zero |
| Components.Registers.Sized | src/components/components.cpp:255 | the requested number of registers, all zero |
| Components.Registers.SetReg | src/components/components.cpp:257-262 | succeeds exactly when the register exists. It writes only that register, and a later `getReg` returns the value; otherwise it throws and nothing changes |
| Components.Registers.GetReg | src/components/components.cpp:264-269 | succeeds exactly when the register exists and returns its value; otherwise fails with `out_of_range` |
| Components.AfterTicksSaturates | src/components/components.cpp:277-278 | n ticks take v to v - n, stopping at 0 and never wrapping |
| Components.Timer.constructor | src/components/components.hpp:111-121 | a new timer holds 0 |
| Components.Timer.SetValue | src/components/components.cpp:291 | the timer holds the new value |
| Components.Timer.Tick | src/components/components.cpp:277-278 | a positive value drops by exactly 1, and 0 stays 0 |
| Semantics.FieldsRecompose | src/instructions/instructions.cpp:71-73 | the decoded nibbles X, Y, N, NN and NNN reassemble into the instruction |
| Semantics.FetchWord | src/cpu/cpu.cpp:6-12 | succeeds exactly when PC + 1 is a cell, else `out_of_range`; the word's high byte is memory[PC] and its low byte memory[PC + 1] |
| Semantics.AddImmediate | src/instructions/instructions.cpp:50-57 | subtracting NN from the new VX mod 256 gives the old VX; every other register is unchanged |
| Semantics.WriteThenFlag | src/instructions/instructions.cpp:159-194 | VF ends with the flag even when X is F; VX gets the value otherwise; all other registers are kept |
| Semantics.Alu | src/instructions/instructions.cpp:141-198 | only VX and VF can change |
| Semantics.Collision | src/instructions/instructions.cpp:88-101 | a collision needs a non-empty sprite and some lit pixel (the exact VF rule is CollisionTurnsPixelOff and PixelTurnedOffIsCollision) |
| Semantics.Draw | src/instructions/instructions.cpp:63-102 | DXYN changes no register but VF and leaves VF at 0 or 1. It fails with `out_of_range` exactly when N > 0 and I + N passes the end of memory, and then VF is 0 |
| Semantics.KeySkip | src/instructions/instructions.cpp:321-338 | only EX9E and EXA1 can skip (the two are complementary: KeySkipsComplementary) |
| Semantics.ModTimerEffect | src/instructions/instructions.cpp:218-227 | FX07 copies the timer into VX and keeps the timer; any other code loads the timer from VX and keeps the registers; no register but VX changes |
| Semantics.AddToIndexEffect | src/instructions/instructions.cpp:229-237 | no register but VF changes, and VF is kept or becomes 1, never cleared; I advances mod 2^16 by VX as read after the flag write |
| Semantics.Bcd | src/instructions/instructions.cpp:348-360 | three digits, each at most 9, with 100h + 10t + o equal to the byte |
| Semantics.WriteBlock | src/instructions/instructions.cpp:362-368 | a run of `setByte` calls from I: it succeeds exactly when the block fits. In-range cells get the data and every cell outside the block is unchanged |
| Semantics.ReadBlock | src/instructions/instructions.cpp:370-376 | a run of `setReg(k, getByte(I + k))` calls: it succeeds exactly when the block fits. In-range registers get the cells and the rest are unchanged |
| Semantics.FCode | src/instructions/instructions.cpp:378-419 | memory changes only for FX33 and FX55, I only for F1_ and FX29, the timers only for F1_; only FX33, FX55 and FX65 can fail; F4_ and F7_..FF_ change nothing |
| Semantics.Return | src/instructions/instructions.cpp:32-42 | succeeds exactly when the stack is non-empty. It pops the top into PC and changes nothing else; otherwise the machine is unchanged with an empty-stack failure |
| Semantics.Execute | src/cpu/cpu.cpp:14-71 | the machine keeps its shape: 4096 cells, 16 registers, 32 x 64 screen |
| Instructions.ClearScreen | src/instructions/instructions.cpp:19 | every pixel is off |
| Instructions.JumpTo | src/instructions/instructions.cpp:21-24 | PC becomes NNN and memory is untouched |
| Instructions.CallSubroutine | src/instructions/instructions.cpp:26-30 | the old PC is pushed and PC becomes NNN |
| Instructions.RetFromSubroutine | src/instructions/instructions.cpp:32-42 | pops the top of the stack into PC; an empty stack ends the program with PC unchanged |
| Instructions.SetRegister | src/instructions/instructions.cpp:44-48 | VX becomes NN and nothing else changes |
| Instructions.AddInRegister | src/instructions/instructions.cpp:50-57 | registers become `AddImmediate` of the old ones |
| Instructions.SetIndexRegister | src/instructions/instructions.cpp:59-61 | I becomes NNN |
| Instructions.FlipRow | src/instructions/instructions.cpp:84-96 | XORs one sprite row onto the screen: the drawn rows grow by one. It reports whether a lit pixel under a 1-bit of that row was hit |
| Instructions.DrawRows | src/instructions/instructions.cpp:81-97 | the row loop XORs the readable prefix of the N rows from I onto the screen, says whether all N were read, and reports exactly `Collision` with the old screen |
| Instructions.DisplaySprite | src/instructions/instructions.cpp:63-102 | screen, registers and outcome are exactly `Draw` of the old state |
| Instructions.Conditional | src/instructions/instructions.cpp:104-139 | PC becomes `SkipTarget` and memory is untouched |
| Instructions.Arithmetic | src/instructions/instructions.cpp:141-198 | registers become `Alu` of the old ones |
| Instructions.JumpOffset | src/instructions/instructions.cpp:200-204 | PC becomes `instruction & (0x0FFF + V0)` |
| Instructions.Random | src/instructions/instructions.cpp:206-216 | VX gets the drawn value, which is at most NN; nothing else changes |
| Instructions.SkipInst | src/instructions/instructions.cpp:321-338 | PC advances by 2 exactly when 9E sees the key down or A1 sees it up |
| Instructions.SetKeyPressed | src/instructions/instructions.cpp:306-319 | VX gets the waited key's value, below 16; nothing else changes |
| Instructions.ModTimer | src/instructions/instructions.cpp:218-227 | registers and timer become `ModTimerEffect` of the old ones |
| Instructions.AddToIndex | src/instructions/instructions.cpp:229-237 | registers and I become `AddToIndexEffect` of the old ones |
| Instructions.FontCharacter | src/instructions/instructions.cpp:340-346 | I becomes VX * 5 |
| Instructions.BinaryDecimalConv | src/instructions/instructions.cpp:348-360 | memory and outcome are `WriteBlock` of the BCD digits at I; PC is unchanged |
| Instructions.StoreToMemory | src/instructions/instructions.cpp:362-368 | memory and outcome are `WriteBlock` of V0..VX at I; PC is unchanged |
| Instructions.LoadFromMemory | src/instructions/instructions.cpp:370-376 | registers and outcome are `ReadBlock` of X + 1 cells at I |
| Instructions.ChooseFCodeFunc | src/instructions/instructions.cpp:378-419 | memory, registers, I, both timers and the outcome are `FCode` of the old ones |
| Cpu.Fetch | src/cpu/cpu.cpp:6-12 | returns `FetchWord`. PC advances by 2 in 16 bits on success and is unchanged on a throw; memory is untouched |
| Cpu.DecodeAndExecute | src/cpu/cpu.cpp:14-71 | the objects afterwards are `Execute` of the objects before, for every opcode, and `reprint` is kept |
| Properties.CallThenReturn | src/instructions/instructions.cpp:26-42 | 2NNN pushes PC and jumps to NNN; a following return restores the machine exactly |
| Properties.ReturnOnEmptyStack | src/instructions/instructions.cpp:32-37 | a return on an empty stack ends the program with nothing changed |
| Properties.ClearScreenClears | src/cpu/cpu.cpp:20-26 | 00E0 turns every pixel off and changes nothing else |
| Properties.SkipExactlyWhen | src/instructions/instructions.cpp:104-139 | 3XNN, 4XNN, 5XY0 and 9XY0 add 2 to PC exactly when their comparison holds, and change nothing else |
| Properties.KeySkipsComplementary | src/instructions/instructions.cpp:321-338 | EX9E and EXA1 on the same register skip on opposite key states; EX9E skips exactly when the key is down |
| Properties.SkipPairsComplementary | src/instructions/instructions.cpp:104-139 | 3XNN and 4XNN, and likewise 5XY0 and 9XY0, skip on opposite conditions |
| Properties.AddImmediateInverse | src/instructions/instructions.cpp:50-57 | adding NN and then 256 - NN to VX restores the registers |
| Properties.AddImmediateUndo | src/instructions/instructions.cpp:50-57 | 7XNN sets VX to VX + NN mod 256, leaves VF and the rest alone, and 7X(256-NN) undoes it |
| Properties.AddCarry | src/instructions/instructions.cpp:159-164 | VX + 256*VF is the true sum, with VF = 1 exactly when it exceeds 255 |
| Properties.SubtractBorrow | src/instructions/instructions.cpp:165-171 | VX - 256*(1 - VF) is VX - VY, with VF = 1 exactly when VX >= VY |
| Properties.ReverseSubtractBorrow | src/instructions/instructions.cpp:181-187 | VX - 256*(1 - VF) is VY - VX, with VF = 1 exactly when VY >= VX |
| Properties.ShiftsKeepShiftedOutBit | src/instructions/instructions.cpp:174-194 | 8XY6 keeps old VX as 2*VX + VF and 8XYE keeps 2*old VX as VX + 256*VF |
| Properties.ShiftsIgnoreY | src/instructions/instructions.cpp:174-194 | the shifts do not read VY |
| Properties.FlagWins | src/instructions/instructions.cpp:159-194 | with X = F, only VF changes and it holds the flag computed from the old operands |
| Properties.UnknownAluCodesDoNothing | src/instructions/instructions.cpp:195-196 | subcodes 8-D and F leave the registers unchanged |
| Properties.BitwiseOpsRepeat | src/instructions/instructions.cpp:150-158 | 8XY3 twice restores VX, and 8XY1 or 8XY2 twice is once; VF is untouched |
| Properties.AluExamples | src/instructions/instructions.cpp:159-171 | FF + 01 gives 00 with carry 1, and 05 - 0A gives FB with VF 0 |
| Properties.JumpOffsetQuirk | src/instructions/instructions.cpp:202 | the BNNN target never exceeds the instruction word, and with V0 = 0 it is NNN |
| Properties.JumpOffsetWithV0One | src/instructions/instructions.cpp:202 | with V0 = 1 every BNNN jumps to 0x1000, not to NNN + 1 |
| Properties.DrawFlipsExactly | src/instructions/instructions.cpp:81-97 | a pixel changes exactly when some 1-bit of the sprite lands on it at ((VY mod 32)+r) mod 32, ((VX mod 64)+c) mod 64, most significant bit first |
| Properties.CoveredCell | src/instructions/instructions.cpp:85-88 | the cell a sprite bit lands on is covered exactly by that bit |
| Properties.CollisionTurnsPixelOff | src/instructions/instructions.cpp:88-101 | when VF would be raised, some lit pixel goes dark |
| Properties.PixelTurnedOffIsCollision | src/instructions/instructions.cpp:88-101 | any lit pixel that goes dark raises VF |
| Properties.DrawSpriteTwice | src/instructions/instructions.cpp:81-97 | XOR-ing a sprite twice at the same place restores the screen |
| Properties.DrawTwiceRestoresScreen | src/instructions/instructions.cpp:63-102 | running the same DXYN twice, with neither X nor Y equal to F, restores every pixel |
| Properties.RedrawCollides | src/instructions/instructions.cpp:81-97 | on a blank screen there is no collision. Redrawing collides exactly when the sprite has a 1-bit |
| Properties.DrawOnBlankThenAgainEffect | src/instructions/instructions.cpp:63-102 | on a blank screen VF ends 0. The second draw of a fully read sprite with a 1-bit ends with VF 1 |
| Properties.DrawStep | src/cpu/cpu.cpp:57-59 | one DXYN step of the machine is `Draw` on its screen and registers |
| Properties.DrawFlagExactly | src/instructions/instructions.cpp:63-102 | after a DXYN that read all its rows, VF is 1 exactly when some lit pixel went dark, and 0 otherwise |
| Properties.DrawOnBlankThenAgain | src/instructions/instructions.cpp:63-102 | the same, for two whole DXYN steps of the machine |
| Properties.AddToIndexQuirk | src/instructions/instructions.cpp:229-237 | on overflow VF becomes 1, otherwise the registers are untouched; I wraps mod 2^16 and, for X = F with an overflow, grows by 1 |
| Properties.TimerLoadsAndIndex | src/instructions/instructions.cpp:392-402 | FX15 loads the delay timer and also adds VX to I; FX18 loads the sound timer; FX1E and other F1_ codes add to I |
| Properties.ReadDelayOrKey | src/instructions/instructions.cpp:384-391 | FX07 reads the delay timer into VX; every other F0_ code stores the waited key |
| Properties.UnknownFCodesDoNothing | src/instructions/instructions.cpp:378-419 | subcodes F4_ and F7_..FF_ change nothing |
| Properties.FontCharacterSetsIndex | src/instructions/instructions.cpp:340-346 | FX29 sets I to VX * 5, unmasked, and changes nothing else |
| Properties.GlyphAtFiveTimesDigit | src/components/components.hpp:13-30 | with the fonts loaded, glyph d's five rows are at 5d..5d+4 |
| Properties.BcdStoresDigits | src/instructions/instructions.cpp:348-360 | FX33 writes hundreds, tens and ones of VX at I..I+2. Each digit is at most 9 and together they make VX; I and every other cell are unchanged |
| Properties.StoreThenLoad | src/instructions/instructions.cpp:362-376 | FX55 copies V0..VX to I..I+X and keeps every other cell and field; an FX65 right after it changes nothing |
| Properties.StoreOverwritesFont | src/instructions/instructions.cpp:362-368 | with I inside the font area, FX55 puts V0 at I, so a glyph byte that differed from V0 changes |
| Properties.FontStartsWithF0 | src/components/components.hpp:14 | the first font byte is 0xF0, so F055 with I = 0 and V0 = 0 meets StoreOverwritesFont |
| Properties.JumpThenFetch | src/cpu/cpu.cpp:27-28 | after 1NNN, only PC changes, and fetch yields the word at NNN, NNN+1 (or throws at NNN = 0xFFF) |
| Properties.RandomWithinBound | src/instructions/instructions.cpp:206-216 | CXNN changes no register but VX; VX holds the draw, whose bound NN is assumed of the inputs rather than proved |

## Left out

- src/emu.cpp (SDL window, event loop, pacing sleep), the older root emu.cpp and src/8oLoader.cpp: I/O and timing only.
- `Timer::start` and `Timer::playBeep`: a detached thread, atomics, sleeps and SDL audio. Only one tick step is modelled (`Timer.Tick`, `AfterTicks`).
- Components.Timer.constructor: `Timer()` is declared at src/components/components.hpp:113 and defined nowhere. src/emu.cpp:58 constructs timers as `Timer(bool)`, which no file declares, and src/components/components.cpp:293 defines `Timer::playBeep`, which the class does not declare. The source gives no initial value, so starting a timer at 0 is the model's choice.
- CXNN draws from `std::mt19937`. The draw is a parameter of `Execute` (`Inputs.random`), constrained to [0, NN] as the code's distribution is.
- Keyboard handling: `skipInst`'s SDL keyboard lookup, `setKeyPressed`'s blocking wait, and `getKeyPressed` and `waitForKeyRelease`. The keypad state and the key the wait ends with are parameters. A V value with no key reads as not pressed.
- `Memory::loadBinary`, `findFirstBinaryFile`, `readBinaryFile`: filesystem access. `loadIntoMemory` takes the bytes directly.
- `print`, `printInHex`, `protoPrint`: console output.
- `Memory::setByte` with a hexadecimal address string (src/components/components.cpp:108-110) is not modelled. The engine always passes numeric addresses.
- Components.HexToIndex: parses well-formed hexadecimal digit strings only. The whitespace, sign and exception behaviour of `std::stoi` is not modelled.
- Components.Uint8ToHex: the 256-entry table is computed from the digit string `0123456789ABCDEF` rather than listed.
- The handlers require 16 registers and a 4096-byte memory, the shapes the emulator builds. With other sizes, `getReg`/`setReg` inside a handler could throw, and that path is not modelled.
- Display pixel access has no bounds check in the source. `SetPixel` and `GetPixel` require the cell to be on the screen.
- The bitwise operators are defined arithmetically on naturals (`Bits`), not on machine words. `&` with `0x0F00`-style masks and the shifts of field decoding are written as division and remainder.
- Getters without a property of their own (`GetPC`, `GetPixel`, `GetReprint`, `GetValue`, `GetByteAtHex`) read a field and have no row above.
