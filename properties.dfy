/** What the instruction set guarantees, stated over `Semantics.Execute` and
    the functions it is built from: round trips between instructions, the
    flags the ALU leaves, what a sprite draw changes, and the quirks of this
    emulator's decoding. */
module Properties {
  import opened Components
  import opened Semantics
  import opened Bits

  // ---------------------------------------------------------------------
  // Subroutines

  /** 2NNN followed by a return (00EE, or any 0NNN but 00E0) gives back the
      machine exactly as it was before the call: PC and stack restored. */
  lemma CallThenReturn(m: Machine, call: Word, ret: Word, env: Inputs)
    requires Fits(m) && Admissible(env, call) && Admissible(env, ret)
    requires Family(call) == 2 && Family(ret) == 0 && LowByte(ret) != 0xE0
    ensures Execute(m, call, env).m.pc == Address(call)
    ensures Execute(m, call, env).m.stack == m.stack + [m.pc]
    ensures Execute(Execute(m, call, env).m, ret, env) == Step(m, Pass)
  {
    var called := Execute(m, call, env).m;
    assert called.stack[..|called.stack| - 1] == m.stack;
  }

  /** A return with an empty stack ends the program and changes nothing. */
  lemma ReturnOnEmptyStack(m: Machine, ret: Word, env: Inputs)
    requires Fits(m) && Admissible(env, ret)
    requires Family(ret) == 0 && LowByte(ret) != 0xE0 && |m.stack| == 0
    ensures Execute(m, ret, env) == Step(m, Fail(EmptyStack))
  {
  }

  /** 00E0 turns every pixel off and changes nothing else. */
  lemma ClearScreenClears(m: Machine, i: Word, env: Inputs)
    requires Fits(m) && Admissible(env, i) && Family(i) == 0 && LowByte(i) == 0xE0
    ensures var s := Execute(m, i, env);
            s.outcome == Pass && s.m.(screen := m.screen) == m &&
            forall r, c | 0 <= r < Rows && 0 <= c < Cols :: !s.m.screen[r][c]
  {
  }

  // ---------------------------------------------------------------------
  // Conditional skips

  /** 3XNN, 4XNN, 5XY0 and 9XY0 move PC by 2 (in 16 bits) exactly when
      VX == NN, VX != NN, VX == VY or VX != VY, and change nothing else. */
  lemma SkipExactlyWhen(m: Machine, i: Word, env: Inputs)
    requires Fits(m) && Admissible(env, i) && Family(i) in {3, 4, 5, 9}
    ensures var s := Execute(m, i, env);
            var x, y, nn := m.v[RegX(i)], m.v[RegY(i)], LowByte(i);
            var taken := (Family(i) == 3 && x == nn) || (Family(i) == 4 && x != nn) ||
                         (Family(i) == 5 && x == y) || (Family(i) == 9 && x != y);
            s.outcome == Pass && s.m.(pc := m.pc) == m &&
            s.m.pc == (if taken then (m.pc + 2) % 0x1_0000 else m.pc)
  {
  }

  /** 3XNN and 4XNN with the same X and NN are complementary: exactly one
      of them skips; likewise 5XY0 and 9XY0. */
  lemma SkipPairsComplementary(v: seq<Byte>, i: Word, j: Word)
    requires |v| == RegisterCount && RegX(i) == RegX(j)
    requires (Family(i) == 3 && Family(j) == 4 && LowByte(i) == LowByte(j)) ||
             (Family(i) == 5 && Family(j) == 9 && RegY(i) == RegY(j))
    ensures SkipCondition(i, v) != SkipCondition(j, v)
  {
  }

  /** EX9E and EXA1 on the same register skip on opposite key states: for
      every keypad exactly one of them skips. */
  lemma KeySkipsComplementary(v: seq<Byte>, keypad: seq<bool>, i: Word, j: Word)
    requires |v| == RegisterCount && |keypad| == 16 && RegX(i) == RegX(j)
    requires LowByte(i) == 0x9E && LowByte(j) == 0xA1
    ensures KeySkip(i, v, keypad) != KeySkip(j, v, keypad)
    ensures KeySkip(i, v, keypad) <==> KeyPressed(keypad, v[RegX(i)])
  {
  }

  // ---------------------------------------------------------------------
  // 7XNN

  /** Adding NN to VX and then 256 - NN gives every register back. */
  lemma AddImmediateInverse(v: seq<Byte>, i: Word, j: Word)
    requires |v| == RegisterCount && RegX(j) == RegX(i)
    requires LowByte(j) == (0x100 - LowByte(i)) % 0x100
    ensures AddImmediate(AddImmediate(v, i), j) == v
  {
    var x, nn := RegX(i), LowByte(i);
    var w := AddImmediate(v, i);
    var vx: int := v[x];
    if vx + nn < 0x100 {
      assert w[x] == vx + nn;
    } else {
      assert w[x] == vx + nn - 0x100;
    }
    assert AddImmediate(w, j)[x] == v[x];
  }

  /** 7XNN adds NN to VX modulo 256 and leaves every other register,
      including VF, unchanged; adding 256 - NN afterwards undoes it. */
  lemma AddImmediateUndo(m: Machine, i: Word, j: Word, env: Inputs)
    requires Fits(m) && Admissible(env, i) && Admissible(env, j)
    requires Family(i) == 7 && Family(j) == 7 && RegX(j) == RegX(i)
    requires LowByte(j) == (0x100 - LowByte(i)) % 0x100
    ensures var s := Execute(m, i, env);
            s.m.v[RegX(i)] == (m.v[RegX(i)] + LowByte(i)) % 0x100 &&
            (forall k | 0 <= k < RegisterCount && k != RegX(i) :: s.m.v[k] == m.v[k]) &&
            s.m.(v := m.v) == m
    ensures Execute(Execute(m, i, env).m, j, env) == Step(m, Pass)
  {
    var m1 := m.(v := AddImmediate(m.v, i));
    assert Execute(m, i, env) == Step(m1, Pass);
    AddImmediateInverse(m.v, i, j);
    assert Execute(m1, j, env) == Step(m1.(v := AddImmediate(m1.v, j)), Pass);
  }

  // ---------------------------------------------------------------------
  // 8XY_

  /** 8XY4: the byte left in VX and the carry in VF together give the full
      sum of the old VX and VY. */
  lemma AddCarry(v: seq<Byte>, i: Word)
    requires |v| == RegisterCount && Nibble(i) == 4 && RegX(i) != Flag
    ensures var r := Alu(v, i);
            r[RegX(i)] as int + 0x100 * (r[Flag] as int) == v[RegX(i)] as int + v[RegY(i)] &&
            (r[Flag] == 1 <==> v[RegX(i)] as int + v[RegY(i)] > 0xFF) && r[Flag] <= 1
  {
  }

  /** 8XY5: VX holds VX - VY modulo 256 and VF is 1 exactly when there was
      no borrow (VX >= VY); together they give the exact difference. */
  lemma SubtractBorrow(v: seq<Byte>, i: Word)
    requires |v| == RegisterCount && Nibble(i) == 5 && RegX(i) != Flag
    ensures var r := Alu(v, i);
            r[RegX(i)] as int - 0x100 * (1 - r[Flag] as int) == v[RegX(i)] as int - v[RegY(i)] &&
            (r[Flag] == 1 <==> v[RegX(i)] >= v[RegY(i)]) && r[Flag] <= 1
  {
  }

  /** 8XY7: VX holds VY - VX modulo 256 and VF is 1 exactly when VY >= VX. */
  lemma ReverseSubtractBorrow(v: seq<Byte>, i: Word)
    requires |v| == RegisterCount && Nibble(i) == 7 && RegX(i) != Flag
    ensures var r := Alu(v, i);
            r[RegX(i)] as int - 0x100 * (1 - r[Flag] as int) == v[RegY(i)] as int - v[RegX(i)] &&
            (r[Flag] == 1 <==> v[RegY(i)] >= v[RegX(i)]) && r[Flag] <= 1
  {
  }

  /** 8XY6 and 8XYE: the shifted value and the bit shifted out into VF
      reassemble the old VX. */
  lemma ShiftsKeepShiftedOutBit(v: seq<Byte>, i: Word)
    requires |v| == RegisterCount && Nibble(i) in {6, 0xE} && RegX(i) != Flag
    ensures var r := Alu(v, i);
            r[Flag] <= 1 &&
            (Nibble(i) == 6 ==> 2 * r[RegX(i)] as int + r[Flag] == v[RegX(i)]) &&
            (Nibble(i) == 0xE ==> r[RegX(i)] as int + 0x100 * (r[Flag] as int) == 2 * v[RegX(i)] as int)
  {
  }

  /** The shifts do not read VY: changing the Y field changes nothing. */
  lemma ShiftsIgnoreY(v: seq<Byte>, i: Word, j: Word)
    requires |v| == RegisterCount && Nibble(i) in {6, 0xE}
    requires Nibble(j) == Nibble(i) && RegX(j) == RegX(i)
    ensures Alu(v, i) == Alu(v, j)
  {
  }

  /** With X = F the flag is written last, so VF ends as the flag and the
      arithmetic result is lost. */
  lemma FlagWins(v: seq<Byte>, i: Word)
    requires |v| == RegisterCount && RegX(i) == Flag && Nibble(i) in {4, 5, 6, 7, 0xE}
    ensures var r, vf, vy := Alu(v, i), v[Flag], v[RegY(i)];
            r == v[Flag := r[Flag]] &&
            (Nibble(i) == 4 ==> r[Flag] == if vf as int + vy > 0xFF then 1 else 0) &&
            (Nibble(i) == 5 ==> r[Flag] == if vf >= vy then 1 else 0) &&
            (Nibble(i) == 6 ==> r[Flag] == vf % 2) &&
            (Nibble(i) == 7 ==> r[Flag] == if vy >= vf then 1 else 0) &&
            (Nibble(i) == 0xE ==> r[Flag] == vf / 0x80)
  {
  }

  /** Subcodes 8-D and F leave every register as it was. */
  lemma UnknownAluCodesDoNothing(v: seq<Byte>, i: Word)
    requires |v| == RegisterCount && Nibble(i) in {8, 9, 0xA, 0xB, 0xC, 0xD, 0xF}
    ensures Alu(v, i) == v
  {
  }

  /** 8XY3 twice with X != Y gives VX back; 8XY1 and 8XY2 twice act as
      once. None of them touches VF unless X is F. */
  lemma BitwiseOpsRepeat(v: seq<Byte>, i: Word)
    requires |v| == RegisterCount && Nibble(i) in {1, 2, 3} && RegX(i) != RegY(i)
    ensures Nibble(i) == 3 ==> Alu(Alu(v, i), i) == v
    ensures Nibble(i) in {1, 2} ==> Alu(Alu(v, i), i) == Alu(v, i)
    ensures RegX(i) != Flag ==> Alu(v, i)[Flag] == v[Flag]
  {
    var x, y := RegX(i), RegY(i);
    if Nibble(i) == 3 {
      XorCancel(v[x], v[y]);
      assert Alu(Alu(v, i), i) == v[x := BitXor(BitXor(v[x], v[y]), v[y])];
    } else if Nibble(i) == 1 {
      OrIdempotent(v[x], v[y]);
    } else {
      AndIdempotent(v[x], v[y]);
    }
  }

  /** Worked values: with V0 = FF and V1 = 01, 8014 leaves V0 = 00 and
      VF = 1; with V0 = 05 and V1 = 0A, 8015 leaves V0 = FB and VF = 0. */
  lemma AluExamples(rest: seq<Byte>)
    requires |rest| == RegisterCount - 2
    ensures var r := Alu([0xFF, 0x01] + rest, 0x8014); r[0] == 0x00 && r[Flag] == 1
    ensures var r := Alu([0x05, 0x0A] + rest, 0x8015); r[0] == 0xFB && r[Flag] == 0
  {
  }

  // ---------------------------------------------------------------------
  // BNNN

  /** BNNN masks with 0x0FFF + V0 instead of adding V0: the target never
      exceeds the instruction word, and equals NNN when V0 is 0. */
  lemma JumpOffsetQuirk(i: Word, v0: Byte)
    ensures JumpOffsetTarget(i, v0) <= i
    ensures JumpOffsetTarget(i, 0) == Address(i)
  {
    assert Pow2(12) == 0x1000;
    LowMask(i, 12);
  }

  /** With V0 = 1 the mask is 0x1000, so every BNNN jumps to 0x1000
      instead of NNN + 1. */
  lemma JumpOffsetWithV0One(i: Word)
    requires Family(i) == 0xB
    ensures JumpOffsetTarget(i, 1) == 0x1000
  {
    assert Pow2(12) == 0x1000;
    SingleBit(i, 12);
  }

  // ---------------------------------------------------------------------
  // DXYN

  /** The screen changes exactly at the cells ((sr + dr) mod 32,
      (sc + dc) mod 64) where bit dc of sprite row dr is set, most
      significant bit first. */
  lemma {:induction false} DrawFlipsExactly(screen: seq<seq<bool>>, sprite: seq<Byte>, sr: nat, sc: nat)
    requires IsScreen(screen) && |sprite| <= Rows && sr < Rows && sc < Cols
    ensures forall r, c | 0 <= r < Rows && 0 <= c < Cols ::
              DrawSprite(screen, sprite, sr, sc)[r][c] != screen[r][c] <==>
              exists dr, dc | 0 <= dr < |sprite| && 0 <= dc < SpriteWidth ::
                SpriteBit(sprite[dr], dc) && r == (sr + dr) % Rows && c == (sc + dc) % Cols
  {
    var s := DrawSprite(screen, sprite, sr, sc);
    forall r, c | 0 <= r < Rows && 0 <= c < Cols
      ensures s[r][c] != screen[r][c] <==>
              exists dr, dc | 0 <= dr < |sprite| && 0 <= dc < SpriteWidth ::
                SpriteBit(sprite[dr], dc) && r == (sr + dr) % Rows && c == (sc + dc) % Cols
    {
      var dr, dc := (r - sr) % Rows, (c - sc) % Cols;
      WrapInverse(sr, dr, Rows, r);
      WrapInverse(sc, dc, Cols, c);
      if exists dr', dc' | 0 <= dr' < |sprite| && 0 <= dc' < SpriteWidth ::
           SpriteBit(sprite[dr'], dc') && r == (sr + dr') % Rows && c == (sc + dc') % Cols {
        var dr', dc' :| 0 <= dr' < |sprite| && 0 <= dc' < SpriteWidth &&
          SpriteBit(sprite[dr'], dc') && r == (sr + dr') % Rows && c == (sc + dc') % Cols;
        WrapInverse(sr, dr', Rows, r);
        WrapInverse(sc, dc', Cols, c);
      }
    }
  }

  /** The cell d rows and e columns past the start, wrapped, is covered
      exactly when bit e of sprite row d is set. */
  lemma CoveredCell(sprite: seq<Byte>, sr: nat, sc: nat, dr: nat, dc: nat)
    requires sr < Rows && sc < Cols && dr < |sprite| && dr < Rows && dc < SpriteWidth
    ensures Covers(sprite, sr, sc, (sr + dr) % Rows, (sc + dc) % Cols) == SpriteBit(sprite[dr], dc)
  {
    WrapInverse(sr, dr, Rows, (sr + dr) % Rows);
    WrapInverse(sc, dc, Cols, (sc + dc) % Cols);
  }

  /** A collision turns some lit pixel off. */
  lemma {:induction false} CollisionTurnsPixelOff(screen: seq<seq<bool>>, sprite: seq<Byte>, sr: nat, sc: nat)
    requires IsScreen(screen) && |sprite| <= Rows && sr < Rows && sc < Cols
    requires Collision(screen, sprite, sr, sc)
    ensures exists r, c | 0 <= r < Rows && 0 <= c < Cols ::
              screen[r][c] && !DrawSprite(screen, sprite, sr, sc)[r][c]
  {
    var dr, dc :| 0 <= dr < |sprite| && 0 <= dc < SpriteWidth &&
      SpriteBit(sprite[dr], dc) && screen[(sr + dr) % Rows][(sc + dc) % Cols];
    CoveredCell(sprite, sr, sc, dr, dc);
    var r, c := (sr + dr) % Rows, (sc + dc) % Cols;
    assert screen[r][c] && !DrawSprite(screen, sprite, sr, sc)[r][c];
  }

  /** A lit pixel turned off means the draw collided. */
  lemma {:induction false} PixelTurnedOffIsCollision(screen: seq<seq<bool>>, sprite: seq<Byte>, sr: nat, sc: nat, r: nat, c: nat)
    requires IsScreen(screen) && |sprite| <= Rows && sr < Rows && sc < Cols && r < Rows && c < Cols
    requires screen[r][c] && !DrawSprite(screen, sprite, sr, sc)[r][c]
    ensures Collision(screen, sprite, sr, sc)
  {
    assert Covers(sprite, sr, sc, r, c);
    var dr, dc := (r - sr) % Rows, (c - sc) % Cols;
    WrapInverse(sr, dr, Rows, r);
    WrapInverse(sc, dc, Cols, c);
    assert SpriteBit(sprite[dr], dc) && screen[(sr + dr) % Rows][(sc + dc) % Cols];
  }

  /** Drawing the same sprite at the same place twice restores every pixel. */
  lemma DrawSpriteTwice(screen: seq<seq<bool>>, sprite: seq<Byte>, sr: nat, sc: nat)
    requires IsScreen(screen)
    ensures DrawSprite(DrawSprite(screen, sprite, sr, sc), sprite, sr, sc) == screen
  {
    ScreenEquality(DrawSprite(DrawSprite(screen, sprite, sr, sc), sprite, sr, sc), screen);
  }

  /** Executing the same DXYN twice (X and Y not F, since VF changes in
      between) restores the screen, whether or not the rows ran past the
      end of memory. */
  lemma DrawTwiceRestoresScreen(m: Machine, i: Word, env: Inputs)
    requires Fits(m) && Admissible(env, i) && Family(i) == 0xD
    requires RegX(i) != Flag && RegY(i) != Flag
    ensures Execute(Execute(m, i, env).m, i, env).m.screen == m.screen
  {
    var m1 := Execute(m, i, env).m;
    assert m1.v[RegX(i)] == m.v[RegX(i)] && m1.v[RegY(i)] == m.v[RegY(i)];
    var sr, sc := m.v[RegY(i)] % Rows, m.v[RegX(i)] % Cols;
    DrawSpriteTwice(m.screen, Readable(m.memory, m.index, Nibble(i)), sr, sc);
  }

  /** On a blank screen nothing collides; on the screen a first draw left
      behind, the same sprite collides exactly when it has a set bit. */
  lemma {:induction false} RedrawCollides(sprite: seq<Byte>, sr: nat, sc: nat)
    requires |sprite| <= Rows && sr < Rows && sc < Cols
    ensures !Collision(Filled(false), sprite, sr, sc)
    ensures Collision(DrawSprite(Filled(false), sprite, sr, sc), sprite, sr, sc) <==>
            exists dr, dc | 0 <= dr < |sprite| && 0 <= dc < SpriteWidth :: SpriteBit(sprite[dr], dc)
  {
    var drawn := DrawSprite(Filled(false), sprite, sr, sc);
    if exists dr, dc | 0 <= dr < |sprite| && 0 <= dc < SpriteWidth :: SpriteBit(sprite[dr], dc) {
      var dr, dc :| 0 <= dr < |sprite| && 0 <= dc < SpriteWidth && SpriteBit(sprite[dr], dc);
      CoveredCell(sprite, sr, sc, dr, dc);
      assert drawn[(sr + dr) % Rows][(sc + dc) % Cols];
    }
  }

  /** `displaySprite` on a blank screen leaves VF at 0; run again on the
      result it sets VF to 1 whenever the rows it read have a set bit. */
  lemma DrawOnBlankThenAgainEffect(v: seq<Byte>, memory: seq<Byte>, index: Word, i: Word)
    requires |v| == RegisterCount && RegX(i) != Flag && RegY(i) != Flag
    ensures var first := Draw(Filled(false), v, memory, index, i);
            var sprite := Readable(memory, index, Nibble(i));
            first.v[Flag] == 0 &&
            (|sprite| == Nibble(i) &&
             (exists dr, dc | 0 <= dr < |sprite| && 0 <= dc < SpriteWidth :: SpriteBit(sprite[dr], dc)) ==>
               Draw(first.screen, first.v, memory, index, i).v[Flag] == 1)
  {
    var sprite := Readable(memory, index, Nibble(i));
    var sr, sc := v[RegY(i)] % Rows, v[RegX(i)] % Cols;
    RedrawCollides(sprite, sr, sc);
    var first := Draw(Filled(false), v, memory, index, i);
    assert first.screen == DrawSprite(Filled(false), sprite, sr, sc);
    assert first.v[RegX(i)] == v[RegX(i)] && first.v[RegY(i)] == v[RegY(i)];
  }

  /** DXYN on a blank screen leaves VF at 0; the same DXYN again sets VF to
      1 whenever the sprite has a set bit, since every pixel it lit goes
      off again. */
  lemma DrawOnBlankThenAgain(m: Machine, i: Word, env: Inputs)
    requires Fits(m) && Admissible(env, i) && Family(i) == 0xD
    requires RegX(i) != Flag && RegY(i) != Flag && m.screen == Filled(false)
    requires m.index + Nibble(i) <= MemorySize
    ensures Execute(m, i, env).m.v[Flag] == 0
    ensures var sprite := m.memory[m.index .. m.index + Nibble(i)];
            (exists dr, dc | 0 <= dr < |sprite| && 0 <= dc < SpriteWidth :: SpriteBit(sprite[dr], dc)) ==>
            Execute(Execute(m, i, env).m, i, env).m.v[Flag] == 1
  {
    assert Readable(m.memory, m.index, Nibble(i)) == m.memory[m.index .. m.index + Nibble(i)];
    DrawOnBlankThenAgainEffect(m.v, m.memory, m.index, i);
    var first := Draw(m.screen, m.v, m.memory, m.index, i);
    DrawStep(m, i, env);
    DrawStep(m.(screen := first.screen, v := first.v), i, env);
  }

  /** One DXYN step of the machine is `Draw` on its screen and registers. */
  lemma DrawStep(m: Machine, i: Word, env: Inputs)
    requires Fits(m) && Admissible(env, i) && Family(i) == 0xD
    ensures var e := Draw(m.screen, m.v, m.memory, m.index, i);
            Execute(m, i, env) == Step(m.(screen := e.screen, v := e.v), e.outcome)
  {
  }

  /** After a DXYN that read all N rows, VF is 1 exactly when some pixel
      that was lit is dark, and 0 otherwise. */
  lemma {:induction false} DrawFlagExactly(m: Machine, i: Word, env: Inputs)
    requires Fits(m) && Admissible(env, i) && Family(i) == 0xD
    ensures var s := Execute(m, i, env);
            s.outcome.Pass? ==>
              s.m.v[Flag] == if exists r, c | 0 <= r < Rows && 0 <= c < Cols :: m.screen[r][c] && !s.m.screen[r][c]
                             then 1 else 0
  {
    DrawStep(m, i, env);
    var sprite := Readable(m.memory, m.index, Nibble(i));
    var sr, sc := m.v[RegY(i)] % Rows, m.v[RegX(i)] % Cols;
    var after := DrawSprite(m.screen, sprite, sr, sc);
    assert Execute(m, i, env).m.screen == after;
    if Collision(m.screen, sprite, sr, sc) {
      CollisionTurnsPixelOff(m.screen, sprite, sr, sc);
    }
    if exists r, c | 0 <= r < Rows && 0 <= c < Cols :: m.screen[r][c] && !after[r][c] {
      var r, c :| 0 <= r < Rows && 0 <= c < Cols && m.screen[r][c] && !after[r][c];
      PixelTurnedOffIsCollision(m.screen, sprite, sr, sc, r, c);
    }
  }

  // ---------------------------------------------------------------------
  // FX__

  /** FX1E: VF becomes 1 when I + VX passes 0xFFFF and is otherwise left
      as it was (never cleared); I wraps modulo 2^16. With X = F the second
      read of VX sees the 1 just written. */
  lemma AddToIndexQuirk(v: seq<Byte>, index: Word, x: nat)
    requires |v| == RegisterCount && x < RegisterCount
    ensures var e := AddToIndexEffect(v, index, x);
            (index + v[x] > 0xFFFF ==> e.v == v[Flag := 1]) &&
            (index + v[x] <= 0xFFFF ==> e.v == v && e.index == index + v[x]) &&
            (x != Flag ==> e.index == (index + v[x]) % 0x1_0000) &&
            (x == Flag && index + v[x] > 0xFFFF ==> e.index == (index + 1) % 0x1_0000)
  {
  }

  /** FX15 loads the delay timer from VX and then also runs `addToIndex`;
      FX18 loads only the sound timer; FX1E only adds to I. */
  lemma TimerLoadsAndIndex(m: Machine, i: Word, env: Inputs)
    requires Fits(m) && Admissible(env, i) && Family(i) == 0xF && RegY(i) == 1
    ensures var s, x := Execute(m, i, env), RegX(i);
            var sum := AddToIndexEffect(m.v, m.index, x);
            s.outcome == Pass &&
            (Nibble(i) == 5 ==> s.m == m.(delay := m.v[x], v := sum.v, index := sum.index)) &&
            (Nibble(i) == 8 ==> s.m == m.(sound := m.v[x])) &&
            (Nibble(i) !in {5, 8} ==> s.m == m.(v := sum.v, index := sum.index))
  {
  }

  /** FX07 copies the delay timer to VX; every other FX0N is the key wait
      and stores the key's value, below 16, in VX. */
  lemma ReadDelayOrKey(m: Machine, i: Word, env: Inputs)
    requires Fits(m) && Admissible(env, i) && Family(i) == 0xF && RegY(i) == 0
    ensures var s, x := Execute(m, i, env), RegX(i);
            s.outcome == Pass && s.m.(v := m.v) == m &&
            (Nibble(i) == 7 ==> s.m.v == m.v[x := m.delay]) &&
            (Nibble(i) != 7 ==> s.m.v == m.v[x := TranslateKeyToChar(env.waitedKey)] && s.m.v[x] < 16)
  {
  }

  /** F-family codes with A = 4 or A = 7..F do nothing at all. */
  lemma UnknownFCodesDoNothing(m: Machine, i: Word, env: Inputs)
    requires Fits(m) && Admissible(env, i) && Family(i) == 0xF && RegY(i) in {4, 7, 8, 9, 0xA, 0xB, 0xC, 0xD, 0xE, 0xF}
    ensures Execute(m, i, env) == Step(m, Pass)
  {
  }

  /** FX29 sets I to VX * 5 (not masked, so VX >= 16 points past the
      font) and changes nothing else. */
  lemma FontCharacterSetsIndex(m: Machine, i: Word, env: Inputs)
    requires Fits(m) && Admissible(env, i) && Family(i) == 0xF && RegY(i) == 2
    ensures Execute(m, i, env) == Step(m.(index := m.v[RegX(i)] as int * GlyphHeight), Pass)
  {
  }

  /** With the font loaded at 0..79, the five bytes from 5 * d are the rows
      of glyph d, so FX29 makes I point at the glyph for VX. */
  lemma GlyphAtFiveTimesDigit(memory: seq<Byte>, d: nat)
    requires FontCount <= |memory| && memory[..FontCount] == FontImage() && d < 16
    ensures forall r | 0 <= r < GlyphHeight :: memory[GlyphHeight * d + r] == HexToIndex(FontGlyphs[d][r])
  {
    forall r | 0 <= r < GlyphHeight
      ensures memory[GlyphHeight * d + r] == HexToIndex(FontGlyphs[d][r])
    {
      var k := GlyphHeight * d + r;
      ModUnique(k, GlyphHeight, d, r);
      assert k / GlyphHeight == d;
      assert FontEntry(k) == FontGlyphs[d][r];
      assert memory[..FontCount][k] == FontImage()[k];
    }
  }

  /** FX33 with the three cells in memory writes VX's decimal digits, each
      at most 9 and recomposing VX, at I, I + 1, I + 2; I and all other
      cells are unchanged. */
  lemma BcdStoresDigits(m: Machine, i: Word, env: Inputs)
    requires Fits(m) && Admissible(env, i) && Family(i) == 0xF && RegY(i) == 3
    requires m.index + 3 <= MemorySize
    ensures var s, n := Execute(m, i, env), m.v[RegX(i)];
            s.outcome == Pass && s.m.(memory := m.memory) == m &&
            s.m.memory[m.index .. m.index + 3] == Bcd(n) &&
            s.m.memory[m.index] <= 9 && s.m.memory[m.index + 1] <= 9 && s.m.memory[m.index + 2] <= 9 &&
            100 * s.m.memory[m.index] as int + 10 * s.m.memory[m.index + 1] as int + s.m.memory[m.index + 2] as int == n &&
            forall p | 0 <= p < MemorySize && (p < m.index || m.index + 3 <= p) :: s.m.memory[p] == m.memory[p]
  {
  }

  /** FX55 copies V0..VX to memory[I..I + X], leaving every other cell and
      field alone, and FX65 loads them back, so an FX65 right after FX55
      changes nothing. */
  lemma StoreThenLoad(m: Machine, store: Word, load: Word, env: Inputs)
    requires Fits(m) && Admissible(env, store) && Admissible(env, load)
    requires Family(store) == 0xF && RegY(store) == 5 && Nibble(store) == 5
    requires Family(load) == 0xF && RegY(load) == 6 && Nibble(load) == 5 && RegX(load) == RegX(store)
    requires m.index + RegX(store) + 1 <= MemorySize
    ensures var s := Execute(m, store, env);
            s.outcome == Pass && s.m.(memory := m.memory) == m &&
            s.m.memory[m.index .. m.index + RegX(store) + 1] == m.v[..RegX(store) + 1] &&
            forall p | 0 <= p < MemorySize && (p < m.index || m.index + RegX(store) + 1 <= p) ::
              s.m.memory[p] == m.memory[p]
    ensures var s := Execute(m, store, env);
            Execute(s.m, load, env) == Step(s.m, Pass)
  {
    var x := RegX(store);
    var s := Execute(m, store, env);
    var loaded := Execute(s.m, load, env);
    assert loaded.m.v == m.v;
  }

  /** The font area is not protected: FX55 writes from I with no lower
      bound, so with I inside the glyph bytes 0x000..0x04F a glyph byte is
      replaced by V0 (FX33 writes the same way through `WriteBlock`). */
  lemma StoreOverwritesFont(m: Machine, store: Word, env: Inputs)
    requires Fits(m) && Admissible(env, store)
    requires Family(store) == 0xF && RegY(store) == 5 && Nibble(store) == 5
    requires m.memory[..FontCount] == FontImage() && m.index < FontCount
    requires m.v[0] != FontImage()[m.index]
    ensures var s := Execute(m, store, env);
            s.m.memory[m.index] == m.v[0] && s.m.memory[..FontCount] != FontImage()
  {
    var s := Execute(m, store, env);
    assert s.m.memory[m.index] == m.v[0];
    assert s.m.memory[..FontCount][m.index] != FontImage()[m.index];
  }

  /** Glyph 0 starts with 0xF0, so F055 run with I = 0 and V0 = 0 meets
      `StoreOverwritesFont` and turns that byte into 0. */
  lemma FontStartsWithF0()
    ensures FontImage()[0] == 0xF0
  {
    assert FontEntry(0) == "F0";
    TwoDigitsAreByte("F0");
  }

  // ---------------------------------------------------------------------
  // Fetch

  /** 1NNN sets PC to NNN, so the next fetch reads the word at NNN and
      NNN + 1; at NNN = FFF the second cell is past the end and the fetch
      throws. */
  lemma JumpThenFetch(m: Machine, i: Word, env: Inputs)
    requires Fits(m) && Admissible(env, i) && Family(i) == 1
    ensures var s := Execute(m, i, env);
            s.m == m.(pc := Address(i)) &&
            (Address(i) < 0xFFF ==>
               FetchWord(s.m.memory, s.m.pc) == Ok(m.memory[Address(i)] as int * 0x100 + m.memory[Address(i) + 1])) &&
            (Address(i) == 0xFFF ==> FetchWord(s.m.memory, s.m.pc) == Err(OutOfRange))
  {
  }

  /** CXNN changes VX and nothing else. The bound VX <= NN is the one the
      inputs admit for the random draw, carried through; the content of
      this lemma is the frame. */
  lemma RandomWithinBound(m: Machine, i: Word, env: Inputs)
    requires Fits(m) && Admissible(env, i) && Family(i) == 0xC
    ensures var s := Execute(m, i, env);
            s.m.v[RegX(i)] <= LowByte(i) && s.m.(v := m.v) == m &&
            forall k | 0 <= k < RegisterCount && k != RegX(i) :: s.m.v[k] == m.v[k]
  {
  }
}
