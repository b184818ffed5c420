/** The CHIP-8 instruction set as functions of the machine state: what each
    opcode handler does to the registers, memory, screen, PC, index register,
    call stack and timers, including the failures that end the run. The
    imperative handlers and the engine are proved against these functions. */
module Semantics {
  import opened Components
  import opened Bits

  /** VF, the flag register. */
  const Flag: nat := 15

  /** Columns of a sprite row. */
  const SpriteWidth: nat := 8

  // ---------------------------------------------------------------------
  // Instruction fields

  /** The top nibble, `(instruction >> 12) & 0x0F`. */
  function Family(i: Word): (f: nat)
    ensures f < 16
  {
    i / 0x1000
  }

  /** X, `(instruction & 0x0F00) >> 8`. */
  function RegX(i: Word): (x: nat)
    ensures x < 16
  {
    i / 0x100 % 0x10
  }

  /** Y, `(instruction & 0x00F0) >> 4`. */
  function RegY(i: Word): (y: nat)
    ensures y < 16
  {
    i / 0x10 % 0x10
  }

  /** N, `instruction & 0x000F`. */
  function Nibble(i: Word): (n: nat)
    ensures n < 16
  {
    i % 0x10
  }

  /** NN, `instruction & 0x00FF`. */
  function LowByte(i: Word): Byte
  {
    i % 0x100
  }

  /** NNN, `instruction & 0x0FFF`. */
  function Address(i: Word): (a: Word)
    ensures a < 0x1000
  {
    i % 0x1000
  }

  /** The fields are the instruction's nibbles: they reassemble into it. */
  lemma FieldsRecompose(i: Word)
    ensures i == 0x1000 * Family(i) + 0x100 * RegX(i) + 0x10 * RegY(i) + Nibble(i)
    ensures LowByte(i) == 0x10 * RegY(i) + Nibble(i)
    ensures Address(i) == 0x100 * RegX(i) + LowByte(i)
  {
    SplitDivMod(i, 0x10, 0x10);
    SplitDivMod(i, 0x100, 0x10);
  }

  // ---------------------------------------------------------------------
  // Machine state

  /** The whole emulator state the engine touches: memory and PC, V0..VF,
      the index register, the call stack (top last), the framebuffer and
      the two timers. */
  datatype Machine = Machine(
    memory: seq<Byte>,
    pc: Word,
    v: seq<Byte>,
    index: Word,
    stack: seq<Word>,
    screen: seq<seq<bool>>,
    delay: Byte,
    sound: Byte)

  /** The shapes the emulator builds: 4096 cells, 16 registers, 32 x 64. */
  ghost predicate Fits(m: Machine) {
    |m.memory| == MemorySize && |m.v| == RegisterCount && IsScreen(m.screen)
  }

  /** What the engine takes from outside: the value the random generator
      draws, the keypad state indexed by key value, and the key a key wait
      ends with. */
  datatype Inputs = Inputs(random: Byte, keypad: seq<bool>, waitedKey: Key)

  /** Inputs the outside world can supply for instruction `i`: sixteen keys,
      a key wait that ends on a real key, and a random draw within `[0, NN]`. */
  predicate Admissible(env: Inputs, i: Word) {
    |env.keypad| == 16 && env.waitedKey != Invalid &&
    (Family(i) == 0xC ==> env.random <= LowByte(i))
  }

  /** A machine state after one instruction, with how the instruction ended. */
  datatype Step = Step(m: Machine, outcome: Outcome)

  // ---------------------------------------------------------------------
  // Fetch

  /** `fetch`: the big-endian word `(high << 8) | low` at PC, or
      `out_of_range` when PC + 1 is not a cell. */
  function FetchWord(memory: seq<Byte>, pc: Word): (r: Result<Word>)
    ensures r.Ok? <==> pc + 1 < |memory|
    ensures r.Ok? ==> r.value / 0x100 == memory[pc] && r.value % 0x100 == memory[pc + 1]
    ensures r.Err? ==> r.fault == OutOfRange
  {
    if pc < |memory| && pc + 1 < |memory| then Ok(memory[pc] as int * 0x100 + memory[pc + 1])
    else Err(OutOfRange)
  }

  /** The PC after a fetch: advanced by 2 in 16 bits. */
  function NextPC(pc: Word): Word
  {
    (pc + 2) % 0x1_0000
  }

  // ---------------------------------------------------------------------
  // 3XNN, 4XNN, 5XY0, 9XY0

  /** The condition of `conditional`: the families it is dispatched for
      compare VX with NN or with VY; any other family returns at once. */
  predicate SkipCondition(i: Word, v: seq<Byte>)
    requires |v| == RegisterCount
  {
    var x, y, nn := RegX(i), RegY(i), LowByte(i);
    match Family(i)
    case 3 => v[x] == nn
    case 4 => v[x] != nn
    case 5 => v[x] == v[y]
    case 9 => v[x] != v[y]
    case _ => false
  }

  /** The PC after a conditional: `getPC() + 2` stored back in 16 bits when
      the condition holds. */
  function SkipTarget(pc: Word, i: Word, v: seq<Byte>): Word
    requires |v| == RegisterCount
  {
    if SkipCondition(i, v) then NextPC(pc) else pc
  }

  // ---------------------------------------------------------------------
  // 6XNN, 7XNN, 8XY_

  /** 7XNN: VX gets `VX + NN` truncated to a byte; nothing else changes. */
  function AddImmediate(v: seq<Byte>, i: Word): (r: seq<Byte>)
    requires |v| == RegisterCount
    ensures |r| == RegisterCount
    ensures (r[RegX(i)] + 0x100 - LowByte(i)) % 0x100 == v[RegX(i)]
    ensures forall k | 0 <= k < RegisterCount && k != RegX(i) :: r[k] == v[k]
  {
    v[RegX(i) := (v[RegX(i)] + LowByte(i)) % 0x100]
  }

  /** An 8XY_ result: VX is written, then VF, so VF wins when X is F. */
  function WriteThenFlag(v: seq<Byte>, x: nat, value: Byte, flag: Byte): (r: seq<Byte>)
    requires |v| == RegisterCount && x < RegisterCount
    ensures |r| == RegisterCount && r[Flag] == flag
    ensures x != Flag ==> r[x] == value
    ensures forall k | 0 <= k < RegisterCount && k != x && k != Flag :: r[k] == v[k]
  {
    v[x := value][Flag := flag]
  }

  /** `arithmetic`: the 8XY_ register operations; subcodes 8-D and F change
      nothing. */
  function Alu(v: seq<Byte>, i: Word): (r: seq<Byte>)
    requires |v| == RegisterCount
    ensures |r| == RegisterCount
    ensures forall k | 0 <= k < RegisterCount && k != RegX(i) && k != Flag :: r[k] == v[k]
  {
    var x, y := RegX(i), RegY(i);
    var vx, vy := v[x], v[y];
    ByteOps(vx, vy);
    match Nibble(i)
    case 0x0 => v[x := vy]
    case 0x1 => v[x := BitOr(vx, vy)]
    case 0x2 => v[x := BitAnd(vx, vy)]
    case 0x3 => v[x := BitXor(vx, vy)]
    case 0x4 => WriteThenFlag(v, x, (vx as int + vy) % 0x100, if vx as int + vy > 0xFF then 1 else 0)
    case 0x5 => WriteThenFlag(v, x, (vx as int - vy) % 0x100, if vx >= vy then 1 else 0)
    // `Vx >> 1` and `Vx & 0x1`
    case 0x6 => WriteThenFlag(v, x, vx / 2, vx % 2)
    case 0x7 => WriteThenFlag(v, x, (vy as int - vx) % 0x100, if vy >= vx then 1 else 0)
    // `(Vx << 1) & 0xFF` and `(Vx & 0x80) >> 7`
    case 0xE => WriteThenFlag(v, x, vx as int * 2 % 0x100, vx / 0x80)
    case _ => v
  }

  // ---------------------------------------------------------------------
  // BNNN

  /** `instruction & 0x0FFF + V0`: `+` binds tighter than `&`, so the mask
      is 0x0FFF + V0 rather than the jump adding V0. */
  function JumpOffsetTarget(i: Word, v0: Byte): (r: Word)
  {
    BitAnd(i, 0x0FFF + v0)
  }

  // ---------------------------------------------------------------------
  // DXYN

  /** Bit `col` of a sprite row, most significant first:
      `row & (0x80 >> col)`. */
  predicate SpriteBit(b: Byte, col: nat)
    requires col < SpriteWidth
  {
    BitAnd(b, Pow2(SpriteWidth - 1 - col)) != 0
  }

  /** Whether the sprite puts a 1-bit over screen cell (r, c) when drawn with
      its top-left corner at (sr, sc), wrapping on both axes. */
  predicate Covers(sprite: seq<Byte>, sr: nat, sc: nat, r: int, c: int)
  {
    var dr, dc := (r - sr) % Rows, (c - sc) % Cols;
    dr < |sprite| && dc < SpriteWidth && SpriteBit(sprite[dr], dc)
  }

  /** The screen after XOR-ing the sprite onto it. */
  function DrawSprite(screen: seq<seq<bool>>, sprite: seq<Byte>, sr: nat, sc: nat): (s: seq<seq<bool>>)
    requires IsScreen(screen)
    ensures IsScreen(s)
    ensures forall r, c | 0 <= r < Rows && 0 <= c < Cols ::
              s[r][c] == (screen[r][c] != Covers(sprite, sr, sc, r, c))
  {
    seq(Rows, r requires 0 <= r < Rows =>
      seq(Cols, c requires 0 <= c < Cols => screen[r][c] != Covers(sprite, sr, sc, r, c)))
  }

  /** Whether some 1-bit of the sprite lands on a pixel that is on: the
      condition under which the handler raises VF. */
  predicate Collision(screen: seq<seq<bool>>, sprite: seq<Byte>, sr: nat, sc: nat)
    requires IsScreen(screen) && sr < Rows && sc < Cols
    ensures Collision(screen, sprite, sr, sc) ==>
              0 < |sprite| && exists r, c | 0 <= r < Rows && 0 <= c < Cols :: screen[r][c]
  {
    exists dr, dc | 0 <= dr < |sprite| && 0 <= dc < SpriteWidth ::
      SpriteBit(sprite[dr], dc) && screen[(sr + dr) % Rows][(sc + dc) % Cols]
  }

  /** What `displaySprite` leaves behind. */
  datatype DrawEffect = DrawEffect(screen: seq<seq<bool>>, v: seq<Byte>, outcome: Outcome)

  /** `displaySprite`: the start cell is (VY mod 32, VX mod 64), read before
      VF is cleared; rows are read from memory[I + row] one at a time, so a
      row past the end throws with the earlier rows drawn and VF at 0. */
  function Draw(screen: seq<seq<bool>>, v: seq<Byte>, memory: seq<Byte>, index: Word, i: Word): (e: DrawEffect)
    requires IsScreen(screen) && |v| == RegisterCount
    ensures IsScreen(e.screen) && |e.v| == RegisterCount
    ensures forall k | 0 <= k < RegisterCount && k != Flag :: e.v[k] == v[k]
    ensures e.v[Flag] <= 1
    ensures e.outcome.Pass? <==> Nibble(i) == 0 || index + Nibble(i) <= |memory|
    ensures e.outcome.Fail? ==> e.outcome.fault == OutOfRange && e.v[Flag] == 0
  {
    var sr, sc := v[RegY(i)] % Rows, v[RegX(i)] % Cols;
    var sprite := Readable(memory, index, Nibble(i));
    var complete := |sprite| == Nibble(i);
    DrawEffect(
      DrawSprite(screen, sprite, sr, sc),
      v[Flag := if complete && Collision(screen, sprite, sr, sc) then 1 else 0],
      if complete then Pass else Fail(OutOfRange))
  }

  // ---------------------------------------------------------------------
  // EX9E, EXA1

  /** The keypad lookup of `skipInst`: a register value that names no key
      maps to SDL's unknown key, which never reads as pressed. */
  predicate KeyPressed(keypad: seq<bool>, value: Byte)
    requires |keypad| == 16
  {
    value < 16 && keypad[value]
  }

  /** `skipInst`: skip when the code is 9E and the key is down, or A1 and it
      is up; any other code does nothing. */
  predicate KeySkip(i: Word, v: seq<Byte>, keypad: seq<bool>)
    requires |v| == RegisterCount && |keypad| == 16
    ensures KeySkip(i, v, keypad) ==> LowByte(i) in {0x9E, 0xA1}
  {
    var pressed := KeyPressed(keypad, v[RegX(i)]);
    (LowByte(i) == 0x9E && pressed) || (LowByte(i) == 0xA1 && !pressed)
  }

  // ---------------------------------------------------------------------
  // FX__

  /** Registers and one timer after `modTimer`. */
  datatype TimerEffect = TimerEffect(v: seq<Byte>, timer: Byte)

  /** `modTimer`: NN = 07 copies the timer into VX, any other NN copies VX
      into the timer. */
  function ModTimerEffect(v: seq<Byte>, timer: Byte, i: Word): (e: TimerEffect)
    requires |v| == RegisterCount
    ensures |e.v| == RegisterCount
    ensures forall k | 0 <= k < RegisterCount && k != RegX(i) :: e.v[k] == v[k]
    ensures LowByte(i) == 7 ==> e.timer == timer && e.v[RegX(i)] == timer
    ensures LowByte(i) != 7 ==> e.v == v && e.timer == v[RegX(i)]
  {
    if LowByte(i) == 7 then TimerEffect(v[RegX(i) := timer], timer)
    else TimerEffect(v, v[RegX(i)])
  }

  /** Registers and index register after `addToIndex`. */
  datatype IndexEffect = IndexEffect(v: seq<Byte>, index: Word)

  /** `addToIndex`: VF is set to 1 when I + VX passes 0xFFFF (and left alone
      otherwise); then VX is read again and added to I in 16 bits. */
  function AddToIndexEffect(v: seq<Byte>, index: Word, x: nat): (e: IndexEffect)
    requires |v| == RegisterCount && x < RegisterCount
    ensures |e.v| == RegisterCount
    ensures forall k | 0 <= k < RegisterCount && k != Flag :: e.v[k] == v[k]
    ensures e.v[Flag] == v[Flag] || e.v[Flag] == 1
    ensures (e.index - index) % 0x1_0000 == e.v[x]
  {
    var v' := if index + v[x] > 0xFFFF then v[Flag := 1] else v;
    WrapInverse(index, v'[x], 0x1_0000, (index + v'[x]) % 0x1_0000);
    IndexEffect(v', (index + v'[x]) % 0x1_0000)
  }

  /** `binaryDecimalConv`: hundreds, tens and ones of a byte. */
  function Bcd(n: Byte): (digits: seq<Byte>)
    ensures |digits| == 3
    ensures forall k | 0 <= k < 3 :: digits[k] <= 9
    ensures 100 * digits[0] as int + 10 * digits[1] as int + digits[2] as int == n
  {
    [n / 100, n % 100 / 10, n % 10]
  }

  /** Memory after a run of `setByte` calls, and whether one threw. */
  datatype MemoryEffect = MemoryEffect(memory: seq<Byte>, outcome: Outcome)

  /** Writes `data` to consecutive cells from `at` with `setByte`: the cells
      in range are written in order and the first out-of-range one throws. */
  function WriteBlock(memory: seq<Byte>, at: nat, data: seq<Byte>): (e: MemoryEffect)
    ensures |e.memory| == |memory|
    ensures e.outcome.Pass? <==> |data| == 0 || at + |data| <= |memory|
    ensures forall p | 0 <= p < |memory| && (p < at || at + |data| <= p) :: e.memory[p] == memory[p]
    ensures forall k | 0 <= k < |data| && at + k < |memory| :: e.memory[at + k] == data[k]
  {
    var complete := |data| == 0 || at + |data| <= |memory|;
    MemoryEffect(Overwrite(memory, at, data), if complete then Pass else Fail(OutOfRange))
  }

  /** Registers after a run of `setReg(k, getByte(at + k))`, and whether a
      read threw. */
  datatype RegisterEffect = RegisterEffect(v: seq<Byte>, outcome: Outcome)

  /** `loadFromMemory` for V0..V(n-1): registers are loaded in order until
      the first cell out of range, which throws. */
  function ReadBlock(memory: seq<Byte>, v: seq<Byte>, at: nat, n: nat): (e: RegisterEffect)
    requires n <= |v|
    ensures |e.v| == |v|
    ensures e.outcome.Pass? <==> n == 0 || at + n <= |memory|
    ensures forall k | 0 <= k < n && at + k < |memory| :: e.v[k] == memory[at + k]
    ensures forall k | 0 <= k < |v| && (n <= k || |memory| <= at + k) :: e.v[k] == v[k]
  {
    var got := Readable(memory, at, n);
    var loaded := got + v[|got|..];
    assert forall k | 0 <= k < |v| :: loaded[k] == if k < |got| then got[k] else v[k];
    RegisterEffect(loaded, if |got| == n then Pass else Fail(OutOfRange))
  }

  /** The part of the machine the FX__ handlers touch. */
  datatype FState = FState(memory: seq<Byte>, v: seq<Byte>, index: Word, delay: Byte, sound: Byte)

  /** An FX__ state after the handler, with how it ended. */
  datatype FStep = FStep(s: FState, outcome: Outcome)

  /** `chooseFCodeFunc`, on A = bits 4-7 and B = bits 0-3 of the instruction;
      `key` is the key a key wait ends with. */
  function FCode(f: FState, i: Word, key: Key): (r: FStep)
    requires |f.v| == RegisterCount
    ensures |r.s.v| == RegisterCount && |r.s.memory| == |f.memory|
    ensures RegY(i) !in {3, 5} ==> r.s.memory == f.memory
    ensures RegY(i) !in {3, 5, 6} ==> r.outcome == Pass
    ensures RegY(i) != 1 ==> r.s.delay == f.delay && r.s.sound == f.sound
    ensures RegY(i) !in {1, 2} ==> r.s.index == f.index
    ensures RegY(i) in {4, 7, 8, 9, 0xA, 0xB, 0xC, 0xD, 0xE, 0xF} ==> r == FStep(f, Pass)
  {
    var x, b := RegX(i), Nibble(i);
    match RegY(i)
    case 0x0 =>
      if b == 7 then
        var t := ModTimerEffect(f.v, f.delay, i);
        FStep(f.(v := t.v, delay := t.timer), Pass)
      else
        FStep(f.(v := f.v[x := TranslateKeyToChar(key)]), Pass)
    case 0x1 =>
      var f1 := if b == 5 then var t := ModTimerEffect(f.v, f.delay, i); f.(v := t.v, delay := t.timer) else f;
      if b == 8 then
        var t := ModTimerEffect(f1.v, f1.sound, i);
        FStep(f1.(v := t.v, sound := t.timer), Pass)
      else
        var e := AddToIndexEffect(f1.v, f1.index, x);
        FStep(f1.(v := e.v, index := e.index), Pass)
    case 0x2 => FStep(f.(index := f.v[x] as int * 5), Pass)
    case 0x3 =>
      var e := WriteBlock(f.memory, f.index, Bcd(f.v[x]));
      FStep(f.(memory := e.memory), e.outcome)
    case 0x5 =>
      var e := WriteBlock(f.memory, f.index, f.v[..x + 1]);
      FStep(f.(memory := e.memory), e.outcome)
    case 0x6 =>
      var e := ReadBlock(f.memory, f.v, f.index, x + 1);
      FStep(f.(v := e.v), e.outcome)
    case _ => FStep(f, Pass)
  }

  // ---------------------------------------------------------------------
  // The whole instruction set

  /** `retFromSubroutine`: pops the top of the stack into PC; on an empty
      stack the program exits and nothing changes. */
  function Return(m: Machine): (s: Step)
    ensures s.outcome.Pass? <==> |m.stack| > 0
    ensures s.outcome.Fail? ==> s == Step(m, Fail(EmptyStack))
    ensures s.outcome.Pass? ==> s.m.stack + [s.m.pc] == m.stack && s.m.(pc := m.pc, stack := m.stack) == m
  {
    if |m.stack| == 0 then Step(m, Fail(EmptyStack))
    else Step(m.(pc := m.stack[|m.stack| - 1], stack := m.stack[..|m.stack| - 1]), Pass)
  }

  /** `decodeAndExecute`: one instruction, dispatched on its top nibble. */
  function Execute(m: Machine, i: Word, env: Inputs): (s: Step)
    requires Fits(m) && Admissible(env, i)
    ensures Fits(s.m)
  {
    var x, nn := RegX(i), LowByte(i);
    match Family(i)
    case 0x0 => if nn == 0xE0 then Step(m.(screen := Filled(false)), Pass) else Return(m)
    case 0x1 => Step(m.(pc := Address(i)), Pass)
    case 0x2 => Step(m.(stack := m.stack + [m.pc], pc := Address(i)), Pass)
    case 0x3 => Step(m.(pc := SkipTarget(m.pc, i, m.v)), Pass)
    case 0x4 => Step(m.(pc := SkipTarget(m.pc, i, m.v)), Pass)
    case 0x5 => Step(m.(pc := SkipTarget(m.pc, i, m.v)), Pass)
    case 0x6 => Step(m.(v := m.v[x := nn]), Pass)
    case 0x7 => Step(m.(v := AddImmediate(m.v, i)), Pass)
    case 0x8 => Step(m.(v := Alu(m.v, i)), Pass)
    case 0x9 => Step(m.(pc := SkipTarget(m.pc, i, m.v)), Pass)
    case 0xA => Step(m.(index := Address(i)), Pass)
    case 0xB => Step(m.(pc := JumpOffsetTarget(i, m.v[0])), Pass)
    case 0xC => Step(m.(v := m.v[x := env.random]), Pass)
    case 0xD =>
      var e := Draw(m.screen, m.v, m.memory, m.index, i);
      Step(m.(screen := e.screen, v := e.v), e.outcome)
    case 0xE => Step(m.(pc := if KeySkip(i, m.v, env.keypad) then NextPC(m.pc) else m.pc), Pass)
    case 0xF =>
      var r := FCode(FState(m.memory, m.v, m.index, m.delay, m.sound), i, env.waitedKey);
      Step(m.(memory := r.s.memory, v := r.s.v, index := r.s.index, delay := r.s.delay, sound := r.s.sound), r.outcome)
  }
}
