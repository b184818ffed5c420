/** The opcode handlers: each one changes the register file, memory, the
    framebuffer, the PC, the index register or the call stack in place, and
    is proved to do exactly what the matching function of `Semantics`
    describes. The index register and the stack, which the source passes by
    reference, come in as values and go out as results. */
module Instructions {
  import opened Components
  import opened Semantics
  import Bits

  /** 00E0: `clearScreen` turns every pixel off through `setAllPixels`; the
      redraw flag is left alone. */
  method ClearScreen(display: Display)
    requires display.Valid()
    modifies display.matrix
    ensures display.Pixels() == Filled(false)
  {
    display.SetAllPixels(false);
  }

  /** 1NNN: `jumpTo` sets PC to NNN. */
  method JumpTo(instruction: Word, mem: Memory)
    modifies mem
    ensures mem.pc == Address(instruction) && mem.bytes == old(mem.bytes)
  {
    mem.SetPC(Address(instruction));
  }

  /** 2NNN: `callSubroutine` pushes the PC, then jumps to NNN. */
  method CallSubroutine(instruction: Word, mem: Memory, stack: seq<Word>) returns (stack': seq<Word>)
    modifies mem
    ensures stack' == stack + [old(mem.pc)]
    ensures mem.pc == Address(instruction) && mem.bytes == old(mem.bytes)
  {
    stack' := stack + [mem.GetPC()];
    JumpTo(instruction, mem);
  }

  /** 00EE (and every 0NNN but 00E0): `retFromSubroutine` pops the top of
      the stack into PC; an empty stack ends the program with nothing
      changed. */
  method RetFromSubroutine(mem: Memory, stack: seq<Word>) returns (stack': seq<Word>, o: Outcome)
    modifies mem
    ensures o == Fail(EmptyStack) <==> |stack| == 0
    ensures o.Pass? <==> |stack| > 0
    ensures |stack| == 0 ==> stack' == stack && mem.pc == old(mem.pc)
    ensures |stack| > 0 ==> stack' == stack[..|stack| - 1] && mem.pc == stack[|stack| - 1]
    ensures mem.bytes == old(mem.bytes)
  {
    if |stack| == 0 {
      return stack, Fail(EmptyStack);
    }
    var ret := stack[|stack| - 1];
    stack' := stack[..|stack| - 1];
    mem.SetPC(ret);
    o := Pass;
  }

  /** 6XNN: `setRegister` sets VX to NN. */
  method SetRegister(instruction: Word, regs: Registers)
    requires regs.Valid()
    modifies regs
    ensures regs.Valid() && regs.slots == old(regs.slots)[RegX(instruction) := LowByte(instruction)]
  {
    var _ := regs.SetReg(RegX(instruction), LowByte(instruction));
  }

  /** 7XNN: `addInRegister` adds NN to VX in 8 bits; VF is not touched. */
  method AddInRegister(instruction: Word, regs: Registers)
    requires regs.Valid()
    modifies regs
    ensures regs.Valid() && regs.slots == AddImmediate(old(regs.slots), instruction)
  {
    var reg, val := RegX(instruction), LowByte(instruction);
    var insideRegVal := regs.GetReg(reg).value;
    var _ := regs.SetReg(reg, (insideRegVal as int + val) % 0x100);
  }

  /** ANNN: `setIndexRegister` gives the new index register, NNN. */
  method SetIndexRegister(instruction: Word) returns (indexReg: Word)
    ensures indexReg == Address(instruction)
  {
    indexReg := Address(instruction);
  }

  // ---------------------------------------------------------------------
  // DXYN

  /** The cells of the screen the first `cols` bits of sprite row `row` have
      reached, for a sprite drawn from (sr, sc). */
  ghost predicate InRow(b: Byte, row: nat, cols: nat, sr: nat, sc: nat, r: int, c: int)
    requires cols <= SpriteWidth
  {
    var dr, dc := (r - sr) % Rows, (c - sc) % Cols;
    dr == row && dc < cols && SpriteBit(b, dc)
  }

  /** Whether one of the first `cols` bits of sprite row `row` lands on a
      pixel that is on in `screen`. */
  ghost predicate RowCollision(screen: seq<seq<bool>>, b: Byte, row: nat, cols: nat, sr: nat, sc: nat)
    requires IsScreen(screen) && cols <= SpriteWidth
  {
    exists dc | 0 <= dc < cols :: SpriteBit(b, dc) && screen[(sr + row) % Rows][(sc + dc) % Cols]
  }

  /** Adding the next sprite row to the rows drawn so far. */
  lemma CoversExtend(sprite: seq<Byte>, row: nat, sr: nat, sc: nat)
    requires row < |sprite|
    ensures forall r, c :: Covers(sprite[..row + 1], sr, sc, r, c) ==
              (Covers(sprite[..row], sr, sc, r, c) || InRow(sprite[row], row, SpriteWidth, sr, sc, r, c))
  {
    forall r, c
      ensures Covers(sprite[..row + 1], sr, sc, r, c) ==
              (Covers(sprite[..row], sr, sc, r, c) || InRow(sprite[row], row, SpriteWidth, sr, sc, r, c))
    {
      var dr := (r - sr) % Rows;
      if dr < row {
        assert sprite[..row + 1][dr] == sprite[..row][dr];
      }
    }
  }

  /** Collisions of the rows drawn so far grow by those of the next row. */
  lemma CollisionExtend(screen: seq<seq<bool>>, sprite: seq<Byte>, row: nat, sr: nat, sc: nat)
    requires IsScreen(screen) && row < |sprite| && sr < Rows && sc < Cols
    ensures Collision(screen, sprite[..row + 1], sr, sc) ==
            (Collision(screen, sprite[..row], sr, sc) || RowCollision(screen, sprite[row], row, SpriteWidth, sr, sc))
  {
    var prefix, longer := sprite[..row], sprite[..row + 1];
    if Collision(screen, longer, sr, sc) {
      var dr, dc :| 0 <= dr < |longer| && 0 <= dc < SpriteWidth &&
        SpriteBit(longer[dr], dc) && screen[(sr + dr) % Rows][(sc + dc) % Cols];
      if dr < row {
        assert prefix[dr] == longer[dr];
      }
    }
    if Collision(screen, prefix, sr, sc) {
      var dr, dc :| 0 <= dr < |prefix| && 0 <= dc < SpriteWidth &&
        SpriteBit(prefix[dr], dc) && screen[(sr + dr) % Rows][(sc + dc) % Cols];
      assert longer[dr] == prefix[dr];
    }
    if RowCollision(screen, sprite[row], row, SpriteWidth, sr, sc) {
      var dc :| 0 <= dc < SpriteWidth && SpriteBit(sprite[row], dc) && screen[(sr + row) % Rows][(sc + dc) % Cols];
      assert longer[row] == sprite[row];
    }
  }

  /** The next bit of a sprite row reaches exactly one more cell, and only
      if the bit is set. */
  lemma InRowStep(b: Byte, row: nat, col: nat, sr: nat, sc: nat)
    requires col < SpriteWidth && row < Rows && sr < Rows && sc < Cols
    ensures !InRow(b, row, col, sr, sc, (sr + row) % Rows, (sc + col) % Cols)
    ensures forall r, c | 0 <= r < Rows && 0 <= c < Cols ::
              InRow(b, row, col + 1, sr, sc, r, c) ==
              (InRow(b, row, col, sr, sc, r, c) ||
               (r == (sr + row) % Rows && c == (sc + col) % Cols && SpriteBit(b, col)))
  {
    Bits.WrapInverse(sc, col, Cols, (sc + col) % Cols);
    forall r, c | 0 <= r < Rows && 0 <= c < Cols
      ensures InRow(b, row, col + 1, sr, sc, r, c) ==
              (InRow(b, row, col, sr, sc, r, c) ||
               (r == (sr + row) % Rows && c == (sc + col) % Cols && SpriteBit(b, col)))
    {
      Bits.WrapInverse(sr, row, Rows, r);
      Bits.WrapInverse(sc, col, Cols, c);
    }
  }

  /** The next bit of a sprite row adds its own cell to the collision test. */
  lemma RowCollisionStep(screen: seq<seq<bool>>, b: Byte, row: nat, col: nat, sr: nat, sc: nat)
    requires IsScreen(screen) && col < SpriteWidth
    ensures RowCollision(screen, b, row, col + 1, sr, sc) ==
            (RowCollision(screen, b, row, col, sr, sc) ||
             (SpriteBit(b, col) && screen[(sr + row) % Rows][(sc + col) % Cols]))
  {
    if RowCollision(screen, b, row, col + 1, sr, sc) && !(SpriteBit(b, col) && screen[(sr + row) % Rows][(sc + col) % Cols]) {
      var dc :| 0 <= dc < col + 1 && SpriteBit(b, dc) && screen[(sr + row) % Rows][(sc + dc) % Cols];
      assert dc < col;
    }
  }

  /** The inner loop of `displaySprite`: XORs sprite row `row` onto the
      screen, so the rows drawn so far grow by one, and reports whether a
      lit pixel of `before`, which that screen row still shows, was turned
      off. */
  method FlipRow(display: Display, spriteRow: Byte, row: nat, startRow: nat, startCol: nat,
                 ghost before: seq<seq<bool>>, ghost sprite: seq<Byte>)
    returns (flipped: bool)
    requires display.Valid() && IsScreen(before)
    requires row < |sprite| <= Rows && sprite[row] == spriteRow && startRow < Rows && startCol < Cols
    requires forall r, c | 0 <= r < Rows && 0 <= c < Cols ::
               display.matrix[r, c] == (before[r][c] != Covers(sprite[..row], startRow, startCol, r, c))
    modifies display.matrix
    ensures forall r, c | 0 <= r < Rows && 0 <= c < Cols ::
              display.matrix[r, c] == (before[r][c] != Covers(sprite[..row + 1], startRow, startCol, r, c))
    ensures flipped == RowCollision(before, spriteRow, row, SpriteWidth, startRow, startCol)
  {
    ghost var screenRow := (startRow + row) % Rows;
    Bits.WrapInverse(startRow, row, Rows, screenRow);
    assert forall c | 0 <= c < Cols :: display.matrix[screenRow, c] == before[screenRow][c];
    flipped := false;
    for col := 0 to SpriteWidth
      invariant forall r, c | 0 <= r < Rows && 0 <= c < Cols ::
                  display.matrix[r, c] ==
                  (old(display.matrix[r, c]) != InRow(spriteRow, row, col, startRow, startCol, r, c))
      invariant flipped == RowCollision(before, spriteRow, row, col, startRow, startCol)
    {
      var currentCol := (startCol + col) % Cols;
      var currentRow := (startRow + row) % Rows;
      InRowStep(spriteRow, row, col, startRow, startCol);
      RowCollisionStep(before, spriteRow, row, col, startRow, startCol);
      if SpriteBit(spriteRow, col) {
        var currentPixel := display.GetPixel(currentRow, currentCol);
        display.SetPixel(currentRow, currentCol, !currentPixel);
        if currentPixel {
          flipped := true;
        }
      }
    }
    CoversExtend(sprite, row, startRow, startCol);
  }

  /** The row loop of `displaySprite`: rows are read from memory[I + row]
      one at a time and XOR-ed onto the screen; a row past the end of memory
      stops the loop with the earlier rows drawn. `complete` says whether
      all N rows were read, `flipped` whether a lit pixel was hit. */
  method DrawRows(mem: Memory, display: Display, indexReg: Word, n: nat, startRow: nat, startCol: nat)
    returns (complete: bool, flipped: bool)
    requires display.Valid() && n <= Rows && startRow < Rows && startCol < Cols
    modifies display.matrix
    ensures var sprite := Readable(mem.bytes, indexReg, n);
            && complete == (|sprite| == n)
            && flipped == Collision(old(display.Pixels()), sprite, startRow, startCol)
            && forall r, c | 0 <= r < Rows && 0 <= c < Cols ::
                 display.matrix[r, c] == (old(display.Pixels())[r][c] != Covers(sprite, startRow, startCol, r, c))
  {
    ghost var before := display.Pixels();
    ghost var sprite := Readable(mem.bytes, indexReg, n);
    flipped := false;
    for row := 0 to n
      invariant row <= |sprite|
      invariant forall r, c | 0 <= r < Rows && 0 <= c < Cols ::
                  display.matrix[r, c] == (before[r][c] != Covers(sprite[..row], startRow, startCol, r, c))
      invariant flipped == Collision(before, sprite[..row], startRow, startCol)
    {
      var fetched := mem.GetByte(indexReg + row);
      if fetched.Err? {
        assert sprite[..row] == sprite;
        return false, flipped;
      }
      var spriteRow := fetched.value;
      var rowFlipped := FlipRow(display, spriteRow, row, startRow, startCol, before, sprite);
      if rowFlipped {
        flipped := true;
      }
      CollisionExtend(before, sprite, row, startRow, startCol);
    }
    assert sprite[..n] == sprite;
    complete := true;
  }

  /** DXYN: `displaySprite` XORs N rows of memory from I onto the screen at
      (VY mod 32, VX mod 64), wrapping, and sets VF to 1 exactly when a lit
      pixel was turned off; a row past the end of memory throws. */
  method DisplaySprite(instruction: Word, regs: Registers, mem: Memory, display: Display, indexReg: Word)
    returns (o: Outcome)
    requires regs.Valid() && display.Valid()
    modifies regs, display.matrix
    ensures regs.Valid()
    ensures DrawEffect(display.Pixels(), regs.slots, o)
            == Draw(old(display.Pixels()), old(regs.slots), mem.bytes, indexReg, instruction)
  {
    var X, Y, N := RegX(instruction), RegY(instruction), Nibble(instruction);
    var startRow := regs.GetReg(Y).value % Rows;
    var startCol := regs.GetReg(X).value % Cols;
    var _ := regs.SetReg(Flag, 0);
    var complete, pixelFlipped := DrawRows(mem, display, indexReg, N, startRow, startCol);
    DrawOutcome(old(display.Pixels()), display.Pixels(), old(regs.slots), mem.bytes, indexReg, instruction, pixelFlipped);
    if !complete {
      return Fail(OutOfRange);
    }
    if pixelFlipped {
      var _ := regs.SetReg(Flag, 1);
    }
    o := Pass;
  }

  /** The screen and flag the loops of `displaySprite` leave are `Draw`'s:
      every pixel XOR-ed with the sprite read so far, and VF set only when
      all N rows were read and one of them hit a lit pixel. */
  lemma DrawOutcome(before: seq<seq<bool>>, after: seq<seq<bool>>, v: seq<Byte>, memory: seq<Byte>,
                    index: Word, i: Word, flipped: bool)
    requires IsScreen(before) && IsScreen(after) && |v| == RegisterCount
    requires var sprite, sr, sc := Readable(memory, index, Nibble(i)), v[RegY(i)] % Rows, v[RegX(i)] % Cols;
             (forall r, c | 0 <= r < Rows && 0 <= c < Cols :: after[r][c] == (before[r][c] != Covers(sprite, sr, sc, r, c))) &&
             flipped == Collision(before, sprite, sr, sc)
    ensures var complete := |Readable(memory, index, Nibble(i))| == Nibble(i);
            Draw(before, v, memory, index, i) ==
            DrawEffect(after, v[Flag := if complete && flipped then 1 else 0], if complete then Pass else Fail(OutOfRange))
  {
    var sprite, sr, sc := Readable(memory, index, Nibble(i)), v[RegY(i)] % Rows, v[RegX(i)] % Cols;
    ScreenEquality(after, DrawSprite(before, sprite, sr, sc));
  }

  // ---------------------------------------------------------------------
  // Conditional skips, ALU, jumps with offset, random

  /** 3XNN, 4XNN, 5XY0, 9XY0: `conditional` adds 2 to PC (in 16 bits) when
      VX == NN, VX != NN, VX == VY or VX != VY respectively; for any other
      family it returns without effect. */
  method Conditional(instruction: Word, regs: Registers, mem: Memory)
    requires regs.Valid()
    modifies mem
    ensures mem.pc == SkipTarget(old(mem.pc), instruction, regs.slots)
    ensures mem.bytes == old(mem.bytes)
  {
    var instCode, x, nn, y := Family(instruction), RegX(instruction), LowByte(instruction), RegY(instruction);
    var regXVal := regs.GetReg(x).value;
    var conditionMet := false;
    match instCode {
      case 3 =>
        conditionMet := regXVal == nn;
      case 4 =>
        conditionMet := regXVal != nn;
      case 5 =>
        var regYVal := regs.GetReg(y).value;
        conditionMet := regXVal == regYVal;
      case 9 =>
        var regYVal := regs.GetReg(y).value;
        conditionMet := regXVal != regYVal;
      case _ =>
        return;
    }
    if conditionMet {
      mem.SetPC((mem.GetPC() + 2) % 0x1_0000);
    }
  }

  /** 8XY_: `arithmetic`; VX is written before VF, and subcodes 8-D and F
      return without effect. */
  method Arithmetic(instruction: Word, regs: Registers)
    requires regs.Valid()
    modifies regs
    ensures regs.Valid() && regs.slots == Alu(old(regs.slots), instruction)
  {
    var x, y, subinst := RegX(instruction), RegY(instruction), Nibble(instruction);
    var vx, vy := regs.GetReg(x).value, regs.GetReg(y).value;
    Bits.ByteOps(vx, vy);
    match subinst
    case 0x0 =>
      var _ := regs.SetReg(x, vy);
    case 0x1 =>
      var _ := regs.SetReg(x, Bits.BitOr(vx, vy));
    case 0x2 =>
      var _ := regs.SetReg(x, Bits.BitAnd(vx, vy));
    case 0x3 =>
      var _ := regs.SetReg(x, Bits.BitXor(vx, vy));
    case 0x4 =>
      var sum := vx as int + vy;
      var _ := regs.SetReg(x, sum % 0x100);
      var _ := regs.SetReg(Flag, if sum > 255 then 1 else 0);
    case 0x5 =>
      var result := (vx as int - vy) % 0x100;
      var _ := regs.SetReg(x, result);
      var _ := regs.SetReg(Flag, if vx >= vy then 1 else 0);
    case 0x6 =>
      var _ := regs.SetReg(x, vx / 2);
      var _ := regs.SetReg(Flag, vx % 2);
    case 0x7 =>
      var result := (vy as int - vx) % 0x100;
      var _ := regs.SetReg(x, result);
      var _ := regs.SetReg(Flag, if vy >= vx then 1 else 0);
    case 0xE =>
      var _ := regs.SetReg(x, vx as int * 2 % 0x100);
      var _ := regs.SetReg(Flag, vx / 0x80);
    case _ =>
      return;
  }

  /** BNNN: `jumpOffset` sets PC to `instruction & (0x0FFF + V0)`. */
  method JumpOffset(instruction: Word, regs: Registers, mem: Memory)
    requires regs.Valid()
    modifies mem
    ensures mem.pc == JumpOffsetTarget(instruction, regs.slots[0])
    ensures mem.bytes == old(mem.bytes)
  {
    var newPC := Bits.BitAnd(instruction, 0x0FFF + regs.GetReg(0).value);
    mem.SetPC(newPC);
  }

  /** CXNN: `random` stores a draw from [0, NN] in VX; the draw is a
      parameter. */
  method Random(instruction: Word, regs: Registers, randomValue: Byte)
    requires regs.Valid() && randomValue <= LowByte(instruction)
    modifies regs
    ensures regs.Valid() && regs.slots == old(regs.slots)[RegX(instruction) := randomValue]
    ensures regs.slots[RegX(instruction)] <= LowByte(instruction)
  {
    var _ := regs.SetReg(RegX(instruction), randomValue);
  }

  // ---------------------------------------------------------------------
  // Keys

  /** EX9E, EXA1: `skipInst` adds 2 to PC when the key VX is down (9E) or
      up (A1); `keypad` is the keyboard state by key value. */
  method SkipInst(instruction: Word, regs: Registers, mem: Memory, keypad: seq<bool>)
    requires regs.Valid() && |keypad| == 16
    modifies mem
    ensures mem.pc == if KeySkip(instruction, regs.slots, keypad) then NextPC(old(mem.pc)) else old(mem.pc)
    ensures mem.bytes == old(mem.bytes)
  {
    var x, code := RegX(instruction), LowByte(instruction);
    var regValue := regs.GetReg(x).value;
    var isPressed := KeyPressed(keypad, regValue);
    if code == 0x9E && isPressed {
      mem.SetPC((mem.GetPC() + 2) % 0x1_0000);
    } else if code == 0xA1 && !isPressed {
      mem.SetPC((mem.GetPC() + 2) % 0x1_0000);
    }
  }

  /** FX0A (any FX0N but FX07): `setKeyPressed` stores the value of the
      key the wait ended with in VX. */
  method SetKeyPressed(instruction: Word, regs: Registers, key: Key)
    requires regs.Valid() && key != Invalid
    modifies regs
    ensures regs.Valid() && regs.slots == old(regs.slots)[RegX(instruction) := TranslateKeyToChar(key)]
    ensures regs.slots[RegX(instruction)] < 16
  {
    var keyValue := TranslateKeyToChar(key);
    var _ := regs.SetReg(RegX(instruction), keyValue);
  }

  // ---------------------------------------------------------------------
  // FX__

  /** `modTimer`: NN = 07 reads the timer into VX, anything else loads the
      timer from VX. */
  method ModTimer(instruction: Word, regs: Registers, timer: Timer)
    requires regs.Valid()
    modifies regs, timer
    ensures regs.Valid()
    ensures TimerEffect(regs.slots, timer.value) == ModTimerEffect(old(regs.slots), old(timer.value), instruction)
  {
    var x, vv := RegX(instruction), LowByte(instruction);
    if vv == 7 {
      var _ := regs.SetReg(x, timer.GetValue());
    } else {
      timer.SetValue(regs.GetReg(x).value);
    }
  }

  /** `addToIndex`: VF := 1 when I + VX exceeds 0xFFFF, then I := I + VX in
      16 bits, with VX read again after the flag write. */
  method AddToIndex(instruction: Word, regs: Registers, indexReg: Word) returns (index': Word)
    requires regs.Valid()
    modifies regs
    ensures regs.Valid()
    ensures IndexEffect(regs.slots, index') == AddToIndexEffect(old(regs.slots), indexReg, RegX(instruction))
  {
    var x := RegX(instruction);
    var sum := indexReg + regs.GetReg(x).value;
    if sum > 0xFFFF {
      var _ := regs.SetReg(Flag, 1);
    }
    index' := (indexReg + regs.GetReg(x).value) % 0x1_0000;
  }

  /** FX29: `fontCharacter` gives the new index register, VX * 5. */
  method FontCharacter(instruction: Word, regs: Registers) returns (indexReg: Word)
    requires regs.Valid()
    ensures indexReg == regs.slots[RegX(instruction)] as int * 5
  {
    indexReg := regs.GetReg(RegX(instruction)).value as int * 5;
  }

  /** FX33: `binaryDecimalConv` writes VX's hundreds, tens and ones to
      memory[I], [I + 1] and [I + 2] in turn; a cell past the end throws
      with the earlier digits written. */
  method BinaryDecimalConv(instruction: Word, regs: Registers, indexReg: Word, memory: Memory)
    returns (o: Outcome)
    requires regs.Valid()
    modifies memory
    ensures MemoryEffect(memory.bytes, o) == WriteBlock(old(memory.bytes), indexReg, Bcd(regs.slots[RegX(instruction)]))
    ensures memory.pc == old(memory.pc)
  {
    var num := regs.GetReg(RegX(instruction)).value;
    var hundreds, tens, ones := num / 100, num % 100 / 10, num % 10;
    ghost var digits := Bcd(num);
    ghost var original := memory.bytes;
    o := memory.SetByte(indexReg, hundreds);
    if o.Fail? {
      OverwriteTruncated(original, indexReg, digits, 0);
      assert digits[..0] == [];
      return;
    }
    OverwriteStep(original, indexReg, digits, 0);
    assert digits[..1] == [hundreds];
    o := memory.SetByte(indexReg + 1, tens);
    if o.Fail? {
      OverwriteTruncated(original, indexReg, digits, 1);
      return;
    }
    OverwriteStep(original, indexReg, digits, 1);
    assert digits[..2] == [hundreds, tens];
    o := memory.SetByte(indexReg + 2, ones);
    if o.Fail? {
      OverwriteTruncated(original, indexReg, digits, 2);
      return;
    }
    OverwriteStep(original, indexReg, digits, 2);
    assert digits[..3] == digits;
  }

  /** FX55: `storeToMemory` copies V0..VX to memory[I..I + X], one cell at a
      time; a cell past the end throws with the earlier cells written. */
  method StoreToMemory(instruction: Word, regs: Registers, mem: Memory, indexReg: Word)
    returns (o: Outcome)
    requires regs.Valid()
    modifies mem
    ensures MemoryEffect(mem.bytes, o) == WriteBlock(old(mem.bytes), indexReg, regs.slots[..RegX(instruction) + 1])
    ensures mem.pc == old(mem.pc)
  {
    var x := RegX(instruction);
    ghost var data := regs.slots[..x + 1];
    o := Pass;
    for i := 0 to x + 1
      invariant mem.pc == old(mem.pc) && o == Pass
      invariant mem.bytes == Overwrite(old(mem.bytes), indexReg, data[..i])
      invariant i > 0 ==> indexReg + i <= |old(mem.bytes)|
    {
      o := mem.SetByte(indexReg + i, regs.GetReg(i).value);
      if o.Fail? {
        OverwriteTruncated(old(mem.bytes), indexReg, data, i);
        return;
      }
      OverwriteStep(old(mem.bytes), indexReg, data, i);
    }
    assert data[..x + 1] == data;
  }

  /** FX65: `loadFromMemory` loads V0..VX from memory[I..I + X], one register
      at a time; a cell past the end throws with the earlier registers
      loaded. */
  method LoadFromMemory(instruction: Word, regs: Registers, mem: Memory, indexReg: Word)
    returns (o: Outcome)
    requires regs.Valid()
    modifies regs
    ensures regs.Valid()
    ensures RegisterEffect(regs.slots, o) == ReadBlock(mem.bytes, old(regs.slots), indexReg, RegX(instruction) + 1)
  {
    var x := RegX(instruction);
    ghost var expected := ReadBlock(mem.bytes, old(regs.slots), indexReg, x + 1);
    o := Pass;
    for i := 0 to x + 1
      invariant regs.Valid()
      invariant i > 0 ==> indexReg + i <= |mem.bytes|
      invariant forall k | 0 <= k < i :: regs.slots[k] == mem.bytes[indexReg + k]
      invariant forall k | i <= k < RegisterCount :: regs.slots[k] == old(regs.slots)[k]
    {
      var fetched := mem.GetByte(indexReg + i);
      if fetched.Err? {
        assert regs.slots == expected.v;
        return Fail(OutOfRange);
      }
      var _ := regs.SetReg(i, fetched.value);
    }
    assert regs.slots == expected.v;
  }

  /** `chooseFCodeFunc`: A = bits 4-7, B = bits 0-3. A = 0 reads the delay
      timer (B = 7) or waits for a key; A = 1 loads the delay timer when
      B = 5, then loads the sound timer when B = 8 and otherwise adds VX to
      I, so FX15 does both; A = 2, 3, 5, 6 are FX29, FX33, FX55, FX65; any
      other A does nothing. */
  method ChooseFCodeFunc(instruction: Word, regs: Registers, mem: Memory, indexReg: Word,
                         timerDelay: Timer, timerSound: Timer, key: Key)
    returns (index': Word, o: Outcome)
    requires regs.Valid() && timerDelay != timerSound && key != Invalid
    modifies regs, mem, timerDelay, timerSound
    ensures regs.Valid() && mem.pc == old(mem.pc)
    ensures FStep(FState(mem.bytes, regs.slots, index', timerDelay.value, timerSound.value), o)
            == FCode(FState(old(mem.bytes), old(regs.slots), indexReg, old(timerDelay.value), old(timerSound.value)),
                     instruction, key)
  {
    var A, B := RegY(instruction), Nibble(instruction);
    index', o := indexReg, Pass;
    if A == 0x0 {
      if B == 0x7 {
        ModTimer(instruction, regs, timerDelay);
      } else {
        SetKeyPressed(instruction, regs, key);
      }
      return;
    }
    if A == 0x1 {
      if B == 0x5 {
        ModTimer(instruction, regs, timerDelay);
      }
      if B == 0x8 {
        ModTimer(instruction, regs, timerSound);
      } else {
        index' := AddToIndex(instruction, regs, indexReg);
      }
      return;
    }
    if A == 0x2 {
      index' := FontCharacter(instruction, regs);
      return;
    }
    if A == 0x3 {
      o := BinaryDecimalConv(instruction, regs, indexReg, mem);
      return;
    }
    if A == 0x5 {
      o := StoreToMemory(instruction, regs, mem, indexReg);
      return;
    }
    if A == 0x6 {
      o := LoadFromMemory(instruction, regs, mem, indexReg);
      return;
    }
  }
}
