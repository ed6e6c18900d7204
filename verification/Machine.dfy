/** machine/mipssim.cc, OneInstruction: the interpreter as it works on the register array and on
    memory, statement by statement. Every method is proved to do what Mips.Execute says. */
module Machines {
  import opened Words
  import opened Collections
  import opened Memory
  import opened Mips
  import Multiplier

  // ---------------------------------------------------------------- the page table in between

  lemma TouchedTranslates(table: seq<TranslationEntry>, touched: int32, w: bool, addr: int32, size: Width, writing: bool)
    ensures Translate(Touched(table, touched, w), addr, size, writing) == Translate(table, addr, size, writing)
  {
  }

  lemma TouchedAccesses(table: seq<TranslationEntry>, touched: int32, memory: seq<byte>, addr: int32, size: Width)
    requires |memory| == MEMORY_SIZE
    ensures var t := Touched(table, touched, false);
      && ReadResult(t, memory, addr, size) == ReadResult(table, memory, addr, size)
      && Translate(t, addr, size, true) == Translate(table, addr, size, true)
  {
    TouchedTranslates(table, touched, false, addr, size, false);
    TouchedTranslates(table, touched, false, addr, size, true);
    hide Touched, Translate;
  }

  lemma TouchedWrites(table: seq<TranslationEntry>, addr: int32, memory: seq<byte>, size: Width, value: int32)
    requires |memory| == MEMORY_SIZE
    ensures var t := Touched(table, addr, false);
      && Translate(t, addr, size, true) == Translate(table, addr, size, true)
      && WriteResult(t, memory, addr, size, value) == WriteResult(table, memory, addr, size, value)
    ensures Translate(table, addr, size, true).Fault? ==> WriteResult(table, memory, addr, size, value) == memory
  {
    TouchedTranslates(table, addr, false, addr, size, true);
    hide Touched, Translate, Store;
  }

  lemma TouchedExecutes(table: seq<TranslationEntry>, touched: int32, i: Instruction, o: Operands, memory: seq<byte>)
    requires Executable(i) && |memory| == MEMORY_SIZE
    ensures Execute(i, o, Touched(table, touched, false), memory) == Execute(i, o, table, memory)
  {
    hide Translate, Touched, ReadResult, RegisterOp, ImmediateOp, HiLoOp, JumpOp, LoadEffect, Wrap, Plus, Minus, ToWord, Executable, GroupOf;
    var addr := Plus(o.rs, i.extra);
    TouchedAccesses(table, touched, memory, addr, 1);
    TouchedAccesses(table, touched, memory, addr, 2);
    TouchedAccesses(table, touched, memory, addr, 4);
  }

  /** Performing an instruction does not depend on the use and dirty bits of the page table. */
  lemma TouchedPerforms(table: seq<TranslationEntry>, touched: int32, c: Cpu, i: Instruction)
    requires Sound(c) && Executable(i)
    ensures Perform(Touched(table, touched, false), c, i) == Perform(table, c, i)
  {
    hide Translate, Touched, Execute, AtEnd, AtHandler, OperandsOf, Executable, Store;
    TouchedExecutes(table, touched, i, OperandsOf(i, c.regs), c.memory);
    var e := Execute(i, OperandsOf(i, c.regs), table, c.memory);
    if e.Finish? && e.save.Some? {
      TouchedTranslates(table, touched, false, e.save.value.addr, e.save.value.size, true);
    }
  }

  // ---------------------------------------------------------------- what a piece of the switch does

  /** The switch has returned to the caller, or goes on to the end of OneInstruction. */
  datatype Progress = Return(outcome: Outcome) | Continue(pcAfter: int32, loadReg: Register, loadValue: int32)

  /** A piece of code that took the registers from before to after had the effect e on them. */
  ghost predicate Did(e: Effect, before: seq<int32>, after: seq<int32>, p: Progress)
    requires |before| == NUM_TOTAL_REGS && 0 <= before[LOAD_REG] < 32
  {
    match e
    case Raise(x, bad) => p == Return(Trap(x)) && after == AtHandler(before, bad)
    case Assertion => p == Return(Halted) && after == before
    case Finish(_, _, _, _, loadReg, loadValue, pcAfter, _) =>
      p == Continue(pcAfter, loadReg, loadValue) && after == Written(before, e)
  }

  /** The registers when OneInstruction returns. */
  ghost function Advanced(regs: seq<int32>, p: Progress): (r: seq<int32>)
    requires |regs| == NUM_TOTAL_REGS && 0 <= regs[LOAD_REG] < 32 && p.Continue?
  {
    var loaded := AfterLoad(regs, p.loadReg, p.loadValue);
    loaded[PREV_PC_REG := loaded[PC_REG]][PC_REG := loaded[NEXT_PC_REG]][NEXT_PC_REG := p.pcAfter]
  }

  lemma AdvancedIsAtEnd(regs: seq<int32>, e: Effect)
    requires |regs| == NUM_TOTAL_REGS && 0 <= regs[LOAD_REG] < 32 && e.Finish?
    ensures AtEnd(regs, e) == Advanced(Written(regs, e), Continue(e.pcAfter, e.loadReg, e.loadValue))
  {
    hide AfterLoad, Written;
  }

  /** What is in memory after it. */
  ghost function MemoryAfter(e: Effect, table: seq<TranslationEntry>, memory: seq<byte>): seq<byte>
    requires |memory| == MEMORY_SIZE
  {
    Saved(table, memory, if e.Finish? then e.save else None)
  }

  /** Only stores write to memory. */
  lemma NothingSaved(i: Instruction, o: Operands, table: seq<TranslationEntry>, memory: seq<byte>)
    requires Executable(i) && |memory| == MEMORY_SIZE
    ensures GroupOf(i.op) != Stores ==> MemoryAfter(Execute(i, o, table, memory), table, memory) == memory
  {
    RegisterWrites(i, o);
    ImmediateWrites(i, o);
    HiLoWrites(i, o);
    OtherWrites(i, o, table, memory);
    hide RegisterOp, ImmediateOp, HiLoOp, JumpOp, LoadOp, StoreOp, Executable;
  }

  lemma PlainEffect(i: Instruction, o: Operands, table: seq<TranslationEntry>, memory: seq<byte>)
    requires |memory| == MEMORY_SIZE && (i.op == SB || i.op == SH || i.op == SW)
    ensures var addr := Plus(o.rs, i.extra);
      var write := Translate(table, addr, WidthOf(i), true);
      StoreOp(i, o, table, memory) ==
        if write.Fault? then Raise(write.exception, addr)
        else Finish(0, 0, o.hi, o.lo, 0, 0, Next(o), Some(Saving(addr, WidthOf(i), o.rt)))
  {
    hide Translate, Wrap, Plus, Minus;
  }

  /** What SWL and SWR come to, access by access. */
  lemma MergedEffect(i: Instruction, o: Operands, table: seq<TranslationEntry>, memory: seq<byte>)
    requires |memory| == MEMORY_SIZE && (i.op == SWL || i.op == SWR)
    ensures var addr := Plus(o.rs, i.extra);
      var read, write := ReadResult(table, memory, addr, 4), Translate(table, addr, 4, true);
      StoreOp(i, o, table, memory) ==
        if addr % 4 != 0 then Assertion
        else if read.Trapped? then Raise(read.exception, addr)
        else if write.Fault? then Raise(write.exception, addr)
        else Finish(0, 0, o.hi, o.lo, 0, 0, Next(o), Some(Saving(addr, 4, Merged(i, o.rt, read.value))))
  {
    hide ReadResult, Translate, Wrap, Plus, Minus, ToWord;
  }

  function Merged(i: Instruction, register: int32, word: int32): (v: int32) {
    if i.op == SWR then Wrap(ToWord(word) % 0x100_0000 + ToWord(register) % 256 * 0x100_0000) else register
  }

  /** Hi and Lo, written back as they are, change nothing. */
  lemma WrittenReg(regs: seq<int32>, e: Effect)
    requires |regs| == NUM_TOTAL_REGS && e.Finish? && e.hi == regs[HI_REG] && e.lo == regs[LO_REG]
    ensures Written(regs, e) == regs[e.dest := e.value]
  {
  }

  /** The registers of the simulated processor, and the address space it runs in. */
  class Machine {
    const registers: array<int32>
    const memory: PhysicalMemory
    const space: AddrSpace

    ghost predicate Regs()
      reads registers
    {
      registers.Length == NUM_TOTAL_REGS && 0 <= registers[LOAD_REG] < 32
    }

    /** What holds in the middle of an instruction, too. */
    ghost predicate Usable()
      reads this, registers, memory, memory.frames.words, set s | s in memory.live :: s.pageTable
    {
      && Regs() && memory.Valid() && space in memory.live
      && registers as object != memory.mainMemory && registers as object != memory.frames.words
      && (forall s | s in memory.live :: s.pageTable as object != registers)
    }

    ghost predicate Valid()
      reads this, registers, memory, memory.frames.words, set s | s in memory.live :: s.pageTable
    {
      Usable() && registers[0] == 0
    }

    ghost function State(): (c: Cpu)
      reads registers, memory.mainMemory
    {
      Cpu(registers[..], memory.mainMemory[..])
    }

    constructor (memory: PhysicalMemory, space: AddrSpace)
      requires memory.Valid() && space in memory.live
      ensures Valid() && fresh(registers) && this.memory == memory && this.space == space
      ensures registers[..] == seq(NUM_TOTAL_REGS, _ => 0)
    {
      registers := new int32[NUM_TOTAL_REGS](_ => 0);
      this.memory, this.space := memory, space;
    }

    /** Machine::DelayedLoad. */
    method DelayedLoad(nextReg: Register, nextValue: int32)
      requires Regs()
      modifies registers
      ensures registers[..] == AfterLoad(old(registers[..]), nextReg, nextValue)
    {
      registers[registers[LOAD_REG]] := registers[LOAD_VALUE_REG];
      registers[LOAD_REG] := nextReg;
      registers[LOAD_VALUE_REG] := nextValue;
      registers[0] := 0;
    }

    /** Machine::RaiseException, up to the call of the handler. */
    method RaiseException(which: ExceptionType, badVAddr: int32) returns (r: Outcome)
      requires Regs()
      modifies registers
      ensures registers[..] == AtHandler(old(registers[..]), badVAddr) && r == Trap(which)
    {
      registers[BAD_VADDR_REG] := badVAddr;
      DelayedLoad(0, 0);
      r := Trap(which);
    }

    /** Machine::ReadMem: an access that cannot be translated traps. */
    method ReadMem(addr: int32, size: Width) returns (r: Access)
      requires Usable()
      modifies registers, space.pageTable
      ensures Usable() && r == ReadResult(old(space.pageTable[..]), memory.mainMemory[..], addr, size)
      ensures space.pageTable[..] == old(space.pageTable[..])
              || space.pageTable[..] == Touched(old(space.pageTable[..]), addr, false)
      ensures registers[..] == if r.Trapped? then AtHandler(old(registers[..]), addr) else old(registers[..])
    {
      hide ReadResult, Touched;
      r := memory.ReadMem(space, addr, size);
      if r.Trapped? {
        var _ := RaiseException(r.exception, addr);
      }
    }

    /** Machine::WriteMem. */
    method WriteMem(addr: int32, size: Width, value: int32) returns (r: Access)
      requires Usable()
      modifies registers, space.pageTable, memory.mainMemory
      ensures Usable()
      ensures memory.mainMemory[..] == WriteResult(old(space.pageTable[..]), old(memory.mainMemory[..]), addr, size, value)
      ensures r == match Translate(old(space.pageTable[..]), addr, size, true)
                   case Fault(e) => Trapped(e) case Physical(_) => Done(value)
      ensures registers[..] == if r.Trapped? then AtHandler(old(registers[..]), addr) else old(registers[..])
    {
      hide WriteResult, Touched, Translate;
      r := memory.WriteMem(space, addr, size, value);
      if r.Trapped? {
        var _ := RaiseException(r.exception, addr);
      }
    }

    // -------------------------------------------------------------- the switch, case by case

    /** Addition and subtraction with the result in rd. */
    method Arithmetic(i: Instruction) returns (p: Progress)
      requires Regs() && registers[0] == 0 && (i.op == ADD || i.op == ADDU || i.op == SUB || i.op == SUBU)
      modifies registers
      ensures Regs() && Did(RegisterOp(i, OperandsOf(i, old(registers[..]))), old(registers[..]), registers[..], p)
    {
      hide And, Or, Xor, Wrap, Plus, Minus, ToWord, SignBit, AtHandler;
      var pcAfter := Plus(registers[NEXT_PC_REG], 4);
      ghost var e := RegisterOp(i, OperandsOf(i, registers[..]));
      if e.Finish? { WrittenReg(registers[..], e); }
      if i.op == ADD {
        var sum := Plus(registers[i.rs], registers[i.rt]);
        if !SignBit(Xor(registers[i.rs], registers[i.rt])) && SignBit(Xor(registers[i.rs], sum)) {
          var t := RaiseException(Overflow, 0);
          return Return(t);
        }
        registers[i.rd] := sum;
      } else if i.op == ADDU {
        registers[i.rd] := Plus(registers[i.rs], registers[i.rt]);
      } else if i.op == SUB {
        var diff := Minus(registers[i.rs], registers[i.rt]);
        if SignBit(Xor(registers[i.rs], registers[i.rt])) && SignBit(Xor(registers[i.rs], diff)) {
          var t := RaiseException(Overflow, 0);
          return Return(t);
        }
        registers[i.rd] := diff;
      } else {
        registers[i.rd] := Minus(registers[i.rs], registers[i.rt]);
      }
      p := Continue(pcAfter, 0, 0);
    }

    /** Logic and comparison with the result in rd. */
    method Logic(i: Instruction) returns (p: Progress)
      requires Regs() && registers[0] == 0 && (i.op == AND || i.op == OR || i.op == NOR || i.op == XOR || i.op == SLT || i.op == SLTU)
      modifies registers
      ensures Regs() && Did(RegisterOp(i, OperandsOf(i, old(registers[..]))), old(registers[..]), registers[..], p)
    {
      hide And, Or, Xor, Wrap, Plus, Minus, ToWord, AtHandler, AddOverflows, SubOverflows;
      var pcAfter := Plus(registers[NEXT_PC_REG], 4);
      ghost var e := RegisterOp(i, OperandsOf(i, registers[..]));
      WrittenReg(registers[..], e);
      if i.op == AND {
        registers[i.rd] := And(registers[i.rs], registers[i.rt]);
      } else if i.op == OR {
        registers[i.rd] := Or(registers[i.rs], registers[i.rs]);
      } else if i.op == NOR {
        registers[i.rd] := -1 - Or(registers[i.rs], registers[i.rt]);
      } else if i.op == XOR {
        registers[i.rd] := Xor(registers[i.rs], registers[i.rt]);
      } else if i.op == SLT {
        if registers[i.rs] < registers[i.rt] { registers[i.rd] := 1; } else { registers[i.rd] := 0; }
      } else {
        if ToWord(registers[i.rs]) < ToWord(registers[i.rt]) { registers[i.rd] := 1; } else { registers[i.rd] := 0; }
      }
      p := Continue(pcAfter, 0, 0);
    }

    /** Shifts, and reading Hi and Lo. */
    method ShiftOrMove(i: Instruction) returns (p: Progress)
      requires Regs() && registers[0] == 0 && Executable(i) && (Shift(i.op) || i.op == SLLV || i.op == SRAV || i.op == SRLV || i.op == MFHI || i.op == MFLO)
      modifies registers
      ensures Regs() && Did(RegisterOp(i, OperandsOf(i, old(registers[..]))), old(registers[..]), registers[..], p)
    {
      hide Wrap, Plus, Minus, ToWord, ShiftLeft, ShiftRight, AtHandler, AddOverflows, SubOverflows;
      var pcAfter := Plus(registers[NEXT_PC_REG], 4);
      ghost var e := RegisterOp(i, OperandsOf(i, registers[..]));
      WrittenReg(registers[..], e);
      if i.op == SLL {
        registers[i.rd] := ShiftLeft(registers[i.rt], i.extra);
      } else if i.op == SLLV {
        registers[i.rd] := ShiftLeft(registers[i.rt], ToWord(registers[i.rs]) % 32);
      } else if i.op == SRA || i.op == SRL {
        var tmp := ShiftRight(registers[i.rt], i.extra);
        registers[i.rd] := tmp;
      } else if i.op == SRAV || i.op == SRLV {
        var tmp := ShiftRight(registers[i.rt], ToWord(registers[i.rs]) % 32);
        registers[i.rd] := tmp;
      } else if i.op == MFHI {
        registers[i.rd] := registers[HI_REG];
      } else {
        registers[i.rd] := registers[LO_REG];
      }
      p := Continue(pcAfter, 0, 0);
    }

    /** Arithmetic and logic with an immediate operand and the result in rt. */
    method Immediate(i: Instruction) returns (p: Progress)
      requires Regs() && registers[0] == 0 && GroupOf(i.op) == ToRt
      modifies registers
      ensures Regs() && Did(ImmediateOp(i, OperandsOf(i, old(registers[..]))), old(registers[..]), registers[..], p)
    {
      hide And, Or, Xor, Wrap, Plus, Minus, ToWord, SignBit, AtHandler, LowHalfOf;
      var pcAfter := Plus(registers[NEXT_PC_REG], 4);
      ghost var e := ImmediateOp(i, OperandsOf(i, registers[..]));
      if e.Finish? { WrittenReg(registers[..], e); }
      if i.op == ADDI {
        var sum := Plus(registers[i.rs], i.extra);
        if !SignBit(Xor(registers[i.rs], i.extra)) && SignBit(Xor(i.extra, sum)) {
          var t := RaiseException(Overflow, 0);
          return Return(t);
        }
        registers[i.rt] := sum;
      } else if i.op == ADDIU {
        registers[i.rt] := Plus(registers[i.rs], i.extra);
      } else if i.op == ANDI {
        registers[i.rt] := And(registers[i.rs], LowHalfOf(i.extra));
      } else if i.op == ORI {
        registers[i.rt] := Or(registers[i.rs], LowHalfOf(i.extra));
      } else if i.op == XORI {
        registers[i.rt] := Xor(registers[i.rs], LowHalfOf(i.extra));
      } else if i.op == SLTI {
        if registers[i.rs] < i.extra { registers[i.rt] := 1; } else { registers[i.rt] := 0; }
      } else if i.op == SLTIU {
        if ToWord(registers[i.rs]) < ToWord(i.extra) { registers[i.rt] := 1; } else { registers[i.rt] := 0; }
      } else {
        registers[i.rt] := Wrap(i.extra * 0x1_0000);
      }
      p := Continue(pcAfter, 0, 0);
    }

    /** Multiplication, division, and writing Hi and Lo. */
    method MultiplyDivide(i: Instruction) returns (p: Progress)
      requires Regs() && registers[0] == 0 && GroupOf(i.op) == ToHiLo
      modifies registers
      ensures Regs() && Did(HiLoOp(i, OperandsOf(i, old(registers[..]))), old(registers[..]), registers[..], p)
    {
      hide Wrap, Plus, Minus, High, Low, Quotient, Remainder;
      var pcAfter := Plus(registers[NEXT_PC_REG], 4);
      if i.op == MTHI {
        registers[HI_REG] := registers[i.rs];
      } else if i.op == MTLO {
        registers[LO_REG] := registers[i.rs];
      } else if i.op == MULT || i.op == MULTU {
        var hi, lo := Multiply(registers[i.rs], registers[i.rt], i.op == MULT);
        registers[HI_REG] := hi;
        registers[LO_REG] := lo;
      } else if i.op == DIV {
        var a, b := registers[i.rs], registers[i.rt];
        if b == 0 {
          registers[LO_REG] := 0;
          registers[HI_REG] := 0;
        } else {
          registers[LO_REG] := Wrap(Quotient(a, b));
          registers[HI_REG] := Wrap(Remainder(a, b));
        }
      } else {
        var rs, rt := ToWord(registers[i.rs]), ToWord(registers[i.rt]);
        if rt == 0 {
          registers[LO_REG] := 0;
          registers[HI_REG] := 0;
        } else {
          var tmp := Wrap(Quotient(rs, rt));
          registers[LO_REG] := tmp;
          tmp := Wrap(Remainder(rs, rt));
          registers[HI_REG] := tmp;
        }
      }
      p := Continue(pcAfter, 0, 0);
    }

    /** Mult leaves the two words of the product. */
    method Multiply(a: int32, b: int32, signed: bool) returns (hi: int32, lo: int32)
      ensures var p := if signed then a as int * b as int else ToWord(a) as int * ToWord(b) as int;
        hi == High(p) && lo == Low(p)
    {
      hi, lo := Multiplier.Mult(a, b, signed);
      ProductWords(hi, lo, if signed then a as int * b as int else ToWord(a) as int * ToWord(b) as int);
    }

    /** Branches and jumps. The linking ones write the return address before they read rs. */
    method Branch(i: Instruction) returns (p: Progress)
      requires Regs() && registers[0] == 0 && GroupOf(i.op) == Jumps
      modifies registers
      ensures Regs() && Did(JumpOp(i, OperandsOf(i, old(registers[..]))), old(registers[..]), registers[..], p)
    {
      hide Wrap, Plus, Minus, ToWord, SignBit, AtHandler;
      var pcAfter := Plus(registers[NEXT_PC_REG], 4);
      ghost var e := JumpOp(i, OperandsOf(i, registers[..]));
      WrittenReg(registers[..], e);
      SignBitIsSign(registers[i.rs]);
      SignBitIsSign(pcAfter);
      if i.op == BEQ {
        if registers[i.rs] == registers[i.rt] { pcAfter := Plus(registers[NEXT_PC_REG], Wrap(4 * i.extra)); }
      } else if i.op == BNE {
        if registers[i.rs] != registers[i.rt] { pcAfter := Plus(registers[NEXT_PC_REG], Wrap(4 * i.extra)); }
      } else if i.op == BGTZ {
        if registers[i.rs] > 0 { pcAfter := Plus(registers[NEXT_PC_REG], Wrap(4 * i.extra)); }
      } else if i.op == BLEZ {
        if registers[i.rs] <= 0 { pcAfter := Plus(registers[NEXT_PC_REG], Wrap(4 * i.extra)); }
      } else if i.op == BGEZAL || i.op == BGEZ {
        if i.op == BGEZAL { registers[31] := Plus(registers[NEXT_PC_REG], 4); }
        if !SignBit(registers[i.rs]) { pcAfter := Plus(registers[NEXT_PC_REG], Wrap(4 * i.extra)); }
      } else if i.op == BLTZAL || i.op == BLTZ {
        if i.op == BLTZAL { registers[31] := Plus(registers[NEXT_PC_REG], 4); }
        if SignBit(registers[i.rs]) { pcAfter := Plus(registers[NEXT_PC_REG], Wrap(4 * i.extra)); }
      } else if i.op == JAL || i.op == J {
        if i.op == JAL { registers[31] := Plus(registers[NEXT_PC_REG], 4); }
        var w := ToWord(pcAfter);
        pcAfter := Wrap(w - w % 0x1000_0000 + 4 * i.extra);
      } else {
        if i.op == JALR { registers[i.rd] := Plus(registers[NEXT_PC_REG], 4); }
        pcAfter := registers[i.rs];
      }
      p := Continue(pcAfter, 0, 0);
    }

    /** Loads of a byte or half a word. The value read waits in the delayed-load registers. */
    method LoadPart(i: Instruction) returns (p: Progress)
      requires Usable() && registers[0] == 0 && (i.op == LB || i.op == LBU || i.op == LH || i.op == LHU)
      modifies registers, space.pageTable
      ensures Usable()
      ensures Did(LoadOp(i, OperandsOf(i, old(registers[..])), old(space.pageTable[..]), memory.mainMemory[..]),
                  old(registers[..]), registers[..], p)
    {
      hide Wrap, Plus, Minus, ToWord, AtHandler, ReadResult, Touched, LowHalfOf;
      var pcAfter := Plus(registers[NEXT_PC_REG], 4);
      ghost var e := LoadOp(i, OperandsOf(i, registers[..]), space.pageTable[..], memory.mainMemory[..]);
      if e.Finish? { WrittenReg(registers[..], e); }
      var tmp := Plus(registers[i.rs], i.extra);
      var value;
      if i.op == LB || i.op == LBU {
        var r := ReadMem(tmp, 1);
        if r.Trapped? { return Return(Trap(r.exception)); }
        var b := ToWord(r.value) % 256;
        value := if b >= 128 && i.op == LB then b - 256 else b;
      } else {
        if tmp % 2 != 0 {
          var t := RaiseException(AddressError, tmp);
          return Return(t);
        }
        var r := ReadMem(tmp, 2);
        if r.Trapped? { return Return(Trap(r.exception)); }
        var h := LowHalfOf(r.value);
        value := if h >= 0x8000 && i.op == LH then h - 0x1_0000 else h;
      }
      p := Continue(pcAfter, i.rt, value);
    }

    /** Loads of a word. LWR keeps the rest of the register, or of the value on its way there. */
    method LoadWord(i: Instruction) returns (p: Progress)
      requires Usable() && registers[0] == 0 && (i.op == LW || i.op == LWL || i.op == LWR)
      modifies registers, space.pageTable
      ensures Usable()
      ensures Did(LoadOp(i, OperandsOf(i, old(registers[..])), old(space.pageTable[..]), memory.mainMemory[..]),
                  old(registers[..]), registers[..], p)
    {
      hide Wrap, Plus, Minus, ToWord, AtHandler, ReadResult, Touched;
      var pcAfter := Plus(registers[NEXT_PC_REG], 4);
      ghost var e := LoadOp(i, OperandsOf(i, registers[..]), space.pageTable[..], memory.mainMemory[..]);
      if e.Finish? { WrittenReg(registers[..], e); }
      var tmp := Plus(registers[i.rs], i.extra);
      if tmp % 4 != 0 {
        if i.op != LW { return Return(Halted); }
        var t := RaiseException(AddressError, tmp);
        return Return(t);
      }
      var r := ReadMem(tmp, 4);
      if r.Trapped? { return Return(Trap(r.exception)); }
      var value := r.value;
      if i.op == LWR {
        var kept := if registers[LOAD_REG] == i.rt then registers[LOAD_VALUE_REG] else registers[i.rt];
        value := Wrap(ToWord(kept) - ToWord(kept) % 256 + ToWord(r.value) / 0x100_0000);
      }
      p := Continue(pcAfter, i.rt, value);
    }

    /** The end of every store; the page table is as it was, up to the use bit of the page. */
    method Save(addr: int32, size: Width, value: int32, pcAfter: int32, ghost e: Effect, ghost table: seq<TranslationEntry>)
      returns (p: Progress)
      requires Usable() && (space.pageTable[..] == table || space.pageTable[..] == Touched(table, addr, false))
      requires e.Finish? ==> Written(registers[..], e) == registers[..] && e.save == Some(Saving(addr, size, value))
                             && e.pcAfter == pcAfter && e.loadReg == 0 && e.loadValue == 0
      requires var write := Translate(table, addr, size, true);
        if write.Fault? then e == Raise(write.exception, addr) else e.Finish?
      modifies registers, space.pageTable, memory.mainMemory
      ensures Usable() && Did(e, old(registers[..]), registers[..], p)
      ensures memory.mainMemory[..] == MemoryAfter(e, table, old(memory.mainMemory[..]))
    {
      hide AtHandler, WriteResult, Translate, Touched, Written;
      TouchedWrites(table, addr, memory.mainMemory[..], size, value);
      var r := WriteMem(addr, size, value);
      if r.Trapped? { return Return(Trap(r.exception)); }
      p := Continue(pcAfter, 0, 0);
    }

    /** Stores. */
    method StoreAll(i: Instruction, ghost e: Effect) returns (p: Progress)
      requires Usable() && registers[0] == 0 && (i.op == SB || i.op == SH || i.op == SW)
      requires e == StoreOp(i, OperandsOf(i, registers[..]), space.pageTable[..], memory.mainMemory[..])
      modifies registers, space.pageTable, memory.mainMemory
      ensures Usable() && Did(e, old(registers[..]), registers[..], p)
      ensures memory.mainMemory[..] == MemoryAfter(e, old(space.pageTable[..]), old(memory.mainMemory[..]))
    {
      ghost var table := space.pageTable[..];
      PlainEffect(i, OperandsOf(i, registers[..]), table, memory.mainMemory[..]);
      hide Wrap, Plus, Minus, ToWord, AtHandler, WriteResult, Translate, Touched, StoreOp, Written;
      var pcAfter := Plus(registers[NEXT_PC_REG], 4);
      if e.Finish? { WrittenReg(registers[..], e); }
      var tmp := Plus(registers[i.rs], i.extra);
      var size := WidthOf(i);
      p := Save(tmp, size, registers[i.rt], pcAfter, e, table);
    }

    /** Stores of part of a word, which read the word first. Either access can trap. */
    method StoreMerged(i: Instruction, ghost e: Effect) returns (p: Progress)
      requires Usable() && registers[0] == 0 && (i.op == SWL || i.op == SWR)
      requires e == StoreOp(i, OperandsOf(i, registers[..]), space.pageTable[..], memory.mainMemory[..])
      modifies registers, space.pageTable, memory.mainMemory
      ensures Usable() && Did(e, old(registers[..]), registers[..], p)
      ensures memory.mainMemory[..] == MemoryAfter(e, old(space.pageTable[..]), old(memory.mainMemory[..]))
    {
      ghost var table := space.pageTable[..];
      MergedEffect(i, OperandsOf(i, registers[..]), table, memory.mainMemory[..]);
      hide Wrap, Plus, Minus, ToWord, AtHandler, ReadResult, WriteResult, Translate, Touched, StoreOp, Written;
      var pcAfter := Plus(registers[NEXT_PC_REG], 4);
      if e.Finish? { WrittenReg(registers[..], e); }
      var tmp := Plus(registers[i.rs], i.extra);
      if tmp % 4 != 0 { return Return(Halted); }
      var read := ReadMem(tmp, 4);
      if read.Trapped? { return Return(Trap(read.exception)); }
      var value := registers[i.rt];
      if i.op == SWR { value := Wrap(ToWord(read.value) % 0x100_0000 + ToWord(value) % 256 * 0x100_0000); }
      p := Save(tmp, 4, value, pcAfter, e, table);
    }

    /** The switch over the op codes. */
    method Switch(i: Instruction, ghost e: Effect) returns (p: Progress)
      requires Valid() && Executable(i)
      requires e == Execute(i, OperandsOf(i, registers[..]), space.pageTable[..], memory.mainMemory[..])
      modifies registers, space.pageTable, memory.mainMemory
      ensures Usable() && Did(e, old(registers[..]), registers[..], p)
      ensures memory.mainMemory[..] == MemoryAfter(e, old(space.pageTable[..]), old(memory.mainMemory[..]))
    {
      hide RegisterOp, ImmediateOp, HiLoOp, JumpOp, LoadOp, StoreOp, OperandsOf, Did, AtHandler;
      NothingSaved(i, OperandsOf(i, registers[..]), space.pageTable[..], memory.mainMemory[..]);
      match GroupOf(i.op)
      case ToRd =>
        if i.op == ADD || i.op == ADDU || i.op == SUB || i.op == SUBU { p := Arithmetic(i); }
        else if i.op == AND || i.op == OR || i.op == NOR || i.op == XOR || i.op == SLT || i.op == SLTU { p := Logic(i); }
        else { p := ShiftOrMove(i); }
      case ToRt => p := Immediate(i);
      case ToHiLo => p := MultiplyDivide(i);
      case Jumps => p := Branch(i);
      case Loads => if i.op == LW || i.op == LWL || i.op == LWR { p := LoadWord(i); } else { p := LoadPart(i); }
      case Stores => if i.op == SWL || i.op == SWR { p := StoreMerged(i, e); } else { p := StoreAll(i, e); }
      case Traps => p := TrapAlways(i);
    }

    /** System calls, and instructions that are reserved or not implemented. */
    method TrapAlways(i: Instruction) returns (p: Progress)
      requires Regs()
      modifies registers
      ensures Regs() && Did(if i.op == SYSCALL then Raise(Syscall, 0) else Raise(IllegalInstr, 0), old(registers[..]), registers[..], p)
    {
      hide AtHandler;
      var t := RaiseException(if i.op == SYSCALL then Syscall else IllegalInstr, 0);
      p := Return(t);
    }

    /** The end of OneInstruction: the delayed load, and the program counters. */
    method Advance(p: Progress)
      requires Regs() && p.Continue?
      modifies registers
      ensures Regs() && registers[0] == 0 && registers[..] == Advanced(old(registers[..]), p)
    {
      hide AfterLoad;
      DelayedLoad(p.loadReg, p.loadValue);
      registers[PREV_PC_REG] := registers[PC_REG];
      registers[PC_REG] := registers[NEXT_PC_REG];
      registers[NEXT_PC_REG] := p.pcAfter;
    }

    /** Everything after the instruction has been fetched and decoded. */
    method Carry(i: Instruction) returns (r: Outcome)
      requires Valid() && Executable(i)
      modifies registers, space.pageTable, memory.mainMemory
      ensures Valid()
      ensures Step(r, State()) == Perform(old(space.pageTable[..]), old(State()), i)
    {
      hide Execute, Executable, AtHandler, OperandsOf, Written, WriteResult, Advanced;
      ghost var regs, s := registers[..], Perform(space.pageTable[..], State(), i);
      ghost var e := Execute(i, OperandsOf(i, regs), space.pageTable[..], memory.mainMemory[..]);
      if e.Finish? { AdvancedIsAtEnd(regs, e); }
      hide AtEnd;
      var p := Switch(i, e);
      if p.Return? {
        return p.outcome;
      }
      Advance(p);
      r := Completed;
    }

    /** Executes the instruction at the program counter. If that traps, the handler finds memory,
        program counters, Hi, Lo and all general registers as they were, but for the load that
        was pending. */
    method OneInstruction() returns (r: Outcome)
      requires Valid()
      modifies registers, space.pageTable, memory.mainMemory
      ensures Valid()
      ensures Step(r, State()) == OneStep(old(space.pageTable[..]), old(State()))
      ensures r.Trap? ==> memory.mainMemory[..] == old(memory.mainMemory[..]) && OnlyLoadApplied(old(registers[..]), registers[..])
    {
      ghost var table, c := space.pageTable[..], State();
      TrapIsPrecise(table, c);
      hide Perform, Decode, Executable, AtHandler, Touched, ReadResult, ToWord, OnlyLoadApplied;
      var pc := registers[PC_REG];
      var fetched := ReadMem(pc, 4);
      if fetched.Trapped? {
        return Trap(fetched.exception);
      }
      var i := Decode(ToWord(fetched.value));
      DecodedIsExecutable(ToWord(fetched.value));
      TouchedPerforms(table, pc, c, i);
      r := Carry(i);
    }

    /** What an interrupt does to the machine before its handler is called. */
    method Interrupt()
      requires Valid()
      modifies registers
      ensures Valid() && State() == Interrupted(old(State()))
    {
      hide AfterLoad;
      DelayedLoad(0, 0);
    }

    /** Machine::Run, until an instruction does not run to its end. An interrupt comes just before
        instruction k if at[k]. */
    method Run(at: seq<bool>) returns (r: Outcome, ghost tables: seq<seq<TranslationEntry>>)
      requires Valid()
      modifies registers, space.pageTable, memory.mainMemory
      ensures Valid() && |tables| <= |at| && (r.Completed? ==> |tables| == |at|)
      ensures Step(r, State()) == Steps(tables, old(State()), at[..|tables|])
    {
      hide OneStep, Interrupted, OnlyLoadApplied;
      r, tables := Completed, [];
      ghost var c := State();
      for k := 0 to |at|
        invariant Valid() && |tables| == k && r == Completed && Step(r, State()) == Steps(tables, c, at[..k])
      {
        StepsExtend(tables, c, at[..k], space.pageTable[..], at[k]);
        assert at[..k + 1] == at[..k] + [at[k]];
        hide Steps;
        tables := tables + [space.pageTable[..]];
        if at[k] { Interrupt(); }
        r := OneInstruction();
        if !r.Completed? { return; }
      }
    }
  }
}
