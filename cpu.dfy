/** The engine: `fetch` reads the next instruction word and `decodeAndExecute`
    dispatches it to its handler on the top nibble. */
module Cpu {
  import opened Components
  import opened Semantics
  import opened Instructions

  /** The machine the emulator's objects and by-reference values make up. */
  ghost function State(mem: Memory, regs: Registers, disp: Display, stack: seq<Word>, index: Word,
                       timerDelay: Timer, timerSound: Timer): Machine
    requires disp.Valid()
    reads mem, regs, disp, disp.matrix, timerDelay, timerSound
  {
    Machine(mem.bytes, mem.pc, regs.slots, index, stack, disp.Pixels(), timerDelay.value, timerSound.value)
  }

  /** `fetch`: reads memory[PC] and memory[PC + 1], either of which may
      throw before PC moves, then advances PC by 2 in 16 bits and returns
      the big-endian word. */
  method Fetch(mem: Memory) returns (r: Result<Word>)
    modifies mem
    ensures r == FetchWord(old(mem.bytes), old(mem.pc))
    ensures mem.bytes == old(mem.bytes)
    ensures mem.pc == if r.Ok? then NextPC(old(mem.pc)) else old(mem.pc)
  {
    var pc := mem.GetPC();
    var highByte := mem.GetByte(pc);
    if highByte.Err? {
      return Err(OutOfRange);
    }
    var lowByte := mem.GetByte(pc as int + 1);
    if lowByte.Err? {
      return Err(OutOfRange);
    }
    mem.SetPC((pc as int + 2) % 0x1_0000);
    r := Ok(highByte.value as int * 0x100 + lowByte.value);
  }

  /** `decodeAndExecute`: runs the handler for the instruction's top nibble.
      Every nibble has a handler, so the "opcode does not exist" branch is
      unreachable. The redraw flag is never touched. */
  method DecodeAndExecute(instruction: Word, disp: Display, mem: Memory, stack: seq<Word>, regs: Registers,
                          indexReg: Word, timerDelay: Timer, timerSound: Timer, env: Inputs)
    returns (stack': seq<Word>, index': Word, o: Outcome)
    requires disp.Valid() && mem.Valid() && regs.Valid() && timerDelay != timerSound
    requires Admissible(env, instruction)
    modifies disp.matrix, mem, regs, timerDelay, timerSound
    ensures disp.Valid() && mem.Valid() && regs.Valid()
    ensures disp.reprint == old(disp.reprint)
    ensures Step(State(mem, regs, disp, stack', index', timerDelay, timerSound), o)
            == Execute(old(State(mem, regs, disp, stack, indexReg, timerDelay, timerSound)), instruction, env)
  {
    stack', index', o := stack, indexReg, Pass;
    var instCode := Family(instruction);
    match instCode {
      case 0x0 =>
        if LowByte(instruction) == 0xE0 {
          ClearScreen(disp);
        } else {
          stack', o := RetFromSubroutine(mem, stack);
        }
      case 0x1 =>
        JumpTo(instruction, mem);
      case 0x2 =>
        stack' := CallSubroutine(instruction, mem, stack);
      case 0x3 | 0x4 | 0x5 | 0x9 =>
        Conditional(instruction, regs, mem);
      case 0x6 =>
        SetRegister(instruction, regs);
      case 0x7 =>
        AddInRegister(instruction, regs);
      case 0x8 =>
        Arithmetic(instruction, regs);
      case 0xA =>
        index' := SetIndexRegister(instruction);
      case 0xB =>
        JumpOffset(instruction, regs, mem);
      case 0xC =>
        Random(instruction, regs, env.random);
      case 0xD =>
        o := DisplaySprite(instruction, regs, mem, disp, indexReg);
      case 0xE =>
        SkipInst(instruction, regs, mem, env.keypad);
      case 0xF =>
        index', o := ChooseFCodeFunc(instruction, regs, mem, indexReg, timerDelay, timerSound, env.waitedKey);
      case _ =>
        assert false;
    }
  }
}
