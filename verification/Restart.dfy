/** Starting an instruction again after a trap (machine/mipssim.cc, machine/machine.cc). A trap
    carries out the load that is pending, so the instruction that is begun again finds another
    register file than the first time. This module says for which instructions that matters. */
module Restarts {
  import opened Words
  import opened Collections
  import opened Memory
  import opened Mips

  ghost predicate SameButBadVAddr(a: Step, b: Step)
    requires Sound(a.cpu) && Sound(b.cpu)
  {
    && a.outcome == b.outcome && a.cpu.memory == b.cpu.memory
    && forall r | 0 <= r < BAD_VADDR_REG :: a.cpu.regs[r] == b.cpu.regs[r]
  }

  /** The state after a trap, as the kernel hands it back. */
  function AfterTrap(c: Cpu, badVAddr: int32): (r: Cpu)
    requires Sound(c)
    ensures Sound(r)
  {
    Cpu(AtHandler(c.regs, badVAddr), c.memory)
  }

  /** In some state with a load to `pending` on its way, beginning the instruction again after a
      trap does not give what it would have given without the trap. */
  ghost predicate CanDiffer(i: Instruction, pending: Register)
    requires Executable(i)
  {
    exists table, c: Cpu, bad :: Differs(table, c, bad, i, pending)
  }

  ghost predicate Differs(table: seq<TranslationEntry>, c: Cpu, bad: int32, i: Instruction, pending: Register)
    requires Executable(i)
  {
    && Sound(c) && c.regs[LOAD_REG] == pending && !Perform(table, c, i).outcome.Halted?
    && !SameButBadVAddr(Perform(table, AfterTrap(c, bad), i), Perform(table, c, i))
  }

  // ---------------------------------------------------------------- which instructions it matters to

  /** The result that goes to rd is always the value of register p. */
  predicate RdIsCopy(i: Instruction, p: Register) {
    match i.op
    case ADD | ADDU | XOR => (i.rs == p && i.rt == 0) || (i.rt == p && i.rs == 0)
    case SUB | SUBU => i.rs == p && i.rt == 0
    case AND => i.rs == p && i.rt == p
    case OR => i.rs == p
    case SLL | SRA | SRL => i.rt == p && i.extra == 0
    case SLLV | SRAV | SRLV => i.rt == p && i.rs == 0
    case _ => false
  }

  /** The result that goes to rd does not depend on register p. */
  predicate RdIgnores(i: Instruction, p: Register) {
    match i.op
    case ADD | ADDU | NOR => i.rs != p && i.rt != p
    case SUB | SUBU | XOR | SLT => (i.rs == p) == (i.rt == p)
    case AND => (i.rs != p && i.rt != p) || (i.rs == p && i.rt == 0) || (i.rt == p && i.rs == 0)
    case OR => i.rs != p
    case SLTU => (i.rs == p) == (i.rt == p) || (i.rs == p && i.rt == 0)
    case SLL | SRA | SRL => i.rt != p
    case SLLV | SRAV | SRLV => (i.rs != p && i.rt != p) || (i.rs == p && i.rt == 0)
    case _ => true
  }

  predicate RtIsCopy(i: Instruction, p: Register) {
    && i.rs == p
    && match i.op
       case ADDI | ADDIU => i.extra == 0
       case ORI | XORI => LowHalfOf(i.extra) == 0
       case _ => false
  }

  predicate RtIgnores(i: Instruction, p: Register) {
    || i.rs != p
    || match i.op
       case ANDI => LowHalfOf(i.extra) == 0
       case SLTI => i.extra == -INT_LIMIT
       case SLTIU => i.extra == 0
       case LUI => true
       case _ => false
  }

  /** A branch that goes somewhere else than a branch not taken. */
  predicate Moves(i: Instruction) { Wrap(4 * i.extra) != 4 }

  predicate JumpDependsOn(i: Instruction, p: Register) {
    match i.op
    case BEQ | BNE => (i.rs == p) != (i.rt == p) && Moves(i)
    case BGTZ | BLEZ | BGEZ | BLTZ => i.rs == p && Moves(i)
    case BGEZAL | BLTZAL => p == 31 || (i.rs == p && Moves(i))
    case JAL => p == 31
    case JR => i.rs == p
    case JALR => i.rd == p || i.rs == p
    case _ => false
  }

  /** With r0 as base the address is fixed; these instructions then never get to memory. */
  predicate NeverAligned(i: Instruction) {
    && i.rs == 0
    && match i.op
       case SB => false
       case SH => i.extra % 2 != 0
       case _ => i.extra % 4 != 0
  }

  /** Whether it matters that the load to p is carried out before the instruction. */
  predicate Sensitive(i: Instruction, p: Register) {
    if p == 0 then i.op == LWR && i.rt == 0 && !NeverAligned(i)
    else
      match GroupOf(i.op)
      case ToRd =>
        if i.rd == p then !RdIsCopy(i, p)
        else !RdIgnores(i, p) && (i.rd != 0 || (!RdIsCopy(i, p) && (i.op == ADD || i.op == SUB)))
      case ToRt =>
        if i.rt == p then !RtIsCopy(i, p)
        else !RtIgnores(i, p) && (i.rt != 0 || (!RtIsCopy(i, p) && i.op == ADDI))
      case ToHiLo =>
        if i.op == MTHI || i.op == MTLO then i.rs == p else (i.rs == p && i.rt != 0) || (i.rt == p && i.rs != 0)
      case Jumps => JumpDependsOn(i, p)
      case Loads => i.rs == p
      case Stores => i.rs == p || (i.rt == p && !NeverAligned(i))
      case Traps => false
  }

  // ---------------------------------------------------------------- comparing the two ways

  /** The effects of the instruction, without the trap and begun again, come to the same; v is
      the value that was on its way to register p. */
  ghost predicate Match(e: Effect, e': Effect, p: Register, v: int32) {
    match e
    case Raise(x, _) => e'.Raise? && e'.exception == x
    case Assertion => e'.Assertion?
    case Finish(dest, value, hi, lo, loadReg, loadValue, pcAfter, _) =>
      && e'.Finish? && e'.hi == hi && e'.lo == lo && e'.loadReg == loadReg && e'.loadValue == loadValue
      && e'.pcAfter == pcAfter && (dest == 0 || e'.value == if dest == p then v else value)
  }

  lemma EndsCompare(regs: seq<int32>, e: Effect, e': Effect, bad: int32)
    requires |regs| == NUM_TOTAL_REGS && regs[0] == 0 && 0 <= regs[LOAD_REG] < 32
    requires e.Finish? && e'.Finish? && e'.dest == e.dest
    ensures Match(e, e', regs[LOAD_REG], regs[LOAD_VALUE_REG]) <==>
              forall r | 0 <= r < BAD_VADDR_REG :: AtEnd(AtHandler(regs, bad), e')[r] == AtEnd(regs, e)[r]
  {
    var a, b := AtEnd(AtHandler(regs, bad), e'), AtEnd(regs, e);
    if forall r | 0 <= r < BAD_VADDR_REG :: a[r] == b[r] {
      assert a[HI_REG] == b[HI_REG] && a[LO_REG] == b[LO_REG] && a[NEXT_PC_REG] == b[NEXT_PC_REG];
      assert a[LOAD_REG] == b[LOAD_REG] && a[LOAD_VALUE_REG] == b[LOAD_VALUE_REG] && a[e.dest] == b[e.dest];
    }
  }

  /** The effect of the instruction without the trap, and begun again. */
  ghost function Once(table: seq<TranslationEntry>, c: Cpu, i: Instruction): Effect
    requires Sound(c) && Executable(i)
  {
    Execute(i, OperandsOf(i, c.regs), table, c.memory)
  }

  /** Comparing states comes down to comparing effects. */
  lemma Compare(table: seq<TranslationEntry>, c: Cpu, bad: int32, i: Instruction)
    requires Sound(c) && Executable(i) && !Once(table, c, i).Assertion?
    ensures var e, e', p, v := Once(table, c, i), Once(table, AfterTrap(c, bad), i), c.regs[LOAD_REG], c.regs[LOAD_VALUE_REG];
      && !Perform(table, c, i).outcome.Halted?
      && (!Match(e, e', p, v) ==> !SameButBadVAddr(Perform(table, AfterTrap(c, bad), i), Perform(table, c, i)))
      && (Match(e, e', p, v) && (e.Finish? ==> Saved(table, c.memory, e.save) == Saved(table, c.memory, e'.save)) ==>
            SameButBadVAddr(Perform(table, AfterTrap(c, bad), i), Perform(table, c, i)))
  {
    var d := AfterTrap(c, bad);
    var e, e' := Once(table, c, i), Once(table, d, i);
    WritesOnlyDest(i, OperandsOf(i, c.regs), table, c.memory);
    WritesOnlyDest(i, OperandsOf(i, d.regs), table, c.memory);
    if e.Finish? && e'.Finish? {
      EndsCompare(c.regs, e, e', bad);
      hide Execute, OperandsOf, AtEnd, AtHandler, Saved, Match, Dest, Executable;
    } else if e.Raise? && e'.Raise? {
      TrapsCompare(c.regs, bad, e.badVAddr, e'.badVAddr);
      hide Execute, OperandsOf, AtEnd, AtHandler, Saved, Dest, Executable;
    } else {
      hide Execute, OperandsOf, AtEnd, AtHandler, Saved, Dest, Executable;
    }
  }

  /** A second trap finds nothing left to carry out. */
  lemma TrapsCompare(regs: seq<int32>, bad: int32, b: int32, b': int32)
    requires |regs| == NUM_TOTAL_REGS && 0 <= regs[LOAD_REG] < 32
    ensures forall r | 0 <= r < BAD_VADDR_REG :: AtHandler(AtHandler(regs, bad), b')[r] == AtHandler(regs, b)[r]
  {
  }

  /** The operands of the instruction begun again: register p has its new value. */
  predicate Related(i: Instruction, o: Operands, o': Operands, p: Register, v: int32) {
    && o'.rs == (if i.rs == p then v else o.rs) && o'.rt == (if i.rt == p then v else o.rt)
    && o'.hi == o.hi && o'.lo == o.lo && o'.nextPC == o.nextPC && o'.merged == o.merged
    && (i.rs == 0 ==> o.rs == 0) && (i.rt == 0 ==> o.rt == 0) && (i.rs == i.rt ==> o.rs == o.rt)
  }

  lemma OperandsRelated(i: Instruction, regs: seq<int32>, bad: int32)
    requires |regs| == NUM_TOTAL_REGS && regs[0] == 0 && 0 < regs[LOAD_REG] < 32
    ensures Related(i, OperandsOf(i, regs), OperandsOf(i, AtHandler(regs, bad)), regs[LOAD_REG], regs[LOAD_VALUE_REG])
  {
  }

  // ---------------------------------------------------------------- instructions it does not matter to

  lemma BitLaws(a: int32)
    ensures And(a, 0) == 0 && And(0, a) == 0 && And(a, a) == a
    ensures Or(a, 0) == a && Or(0, a) == a && Or(a, a) == a
    ensures Xor(a, 0) == a && Xor(0, a) == a && Xor(a, a) == 0
  {
    BitwiseZero(ToWord(a));
    BitwiseSelf(ToWord(a));
    hide BitAnd, BitOr, BitAndNot;
  }

  lemma SumLaws(a: int32)
    ensures Plus(a, 0) == a && Plus(0, a) == a && Minus(a, 0) == a && Minus(a, a) == 0
    ensures !AddOverflows(a, 0) && !AddOverflows(0, a) && !SubOverflows(a, 0) && !SubOverflows(a, a)
    ensures !AddImmediateOverflows(a, 0)
  {
    OverflowIsExact(a, 0);
    OverflowIsExact(0, a);
    OverflowIsExact(a, a);
    hide Plus, Minus, AddOverflows, SubOverflows, AddImmediateOverflows;
  }

  lemma ShiftLaws(a: int32)
    ensures ShiftLeft(a, 0) == a && ShiftRight(a, 0) == a
  {
    WrapFits(a);
  }

  lemma {:induction false} ShiftZero(k: nat)
    ensures ShiftLeft(0, k) == 0 && ShiftRight(0, k) == 0
  {
    if k > 0 { ShiftZero(k - 1); }
  }

  predicate Summing(op: Opcode) { op == ADD || op == ADDU || op == SUB || op == SUBU }

  predicate Logical(op: Opcode) { op == AND || op == OR || op == NOR || op == XOR || op == SLT || op == SLTU }

  lemma SumIgnoresIt(i: Instruction, o: Operands, o': Operands, p: Register, v: int32)
    requires p != 0 && Executable(i) && Summing(i.op) && Related(i, o, o', p, v) && RdIgnores(i, p)
    ensures RegisterOp(i, o') == RegisterOp(i, o)
  {
    hide RegisterOp, Executable;
    if i.rs == p {
      NothingLeft(i, o);
      NothingLeft(i, o');
    } else {
      RegisterReads(i, o, o');
    }
  }

  lemma NothingLeft(i: Instruction, o: Operands)
    requires Executable(i) && (i.op == SUB || i.op == SUBU) && o.rs == o.rt
    ensures RegisterOp(i, o) == SetReg(o, i.rd, 0)
  {
    SumLaws(o.rs);
    hide Plus, Minus, AddOverflows, SubOverflows, Executable, And, Or, Xor, ToWord, ShiftLeft, ShiftRight, Wrap;
  }

  lemma LogicIgnoresIt(i: Instruction, o: Operands, o': Operands, p: Register, v: int32)
    requires p != 0 && Executable(i) && Logical(i.op) && Related(i, o, o', p, v) && RdIgnores(i, p)
    ensures RegisterOp(i, o') == RegisterOp(i, o)
  {
    BitLaws(o.rs); BitLaws(o.rt); BitLaws(v);
    hide And, Or, Xor, Plus, Minus, AddOverflows, SubOverflows;
  }

  lemma ShiftIgnoresIt(i: Instruction, o: Operands, o': Operands, p: Register, v: int32)
    requires p != 0 && Executable(i) && GroupOf(i.op) == ToRd && !Summing(i.op) && !Logical(i.op)
    requires Related(i, o, o', p, v) && RdIgnores(i, p)
    ensures RegisterOp(i, o') == RegisterOp(i, o)
  {
    ShiftZero(ToWord(o.rs) % 32); ShiftZero(ToWord(v) % 32);
    hide And, Or, Xor, Plus, Minus, ToWord, AddOverflows, SubOverflows, ShiftLeft, ShiftRight;
  }

  lemma RdIgnoresIt(i: Instruction, o: Operands, o': Operands, p: Register, v: int32)
    requires p != 0 && Executable(i) && GroupOf(i.op) == ToRd && Related(i, o, o', p, v) && RdIgnores(i, p)
    ensures RegisterOp(i, o') == RegisterOp(i, o)
  {
    hide RegisterOp, Related, RdIgnores, Executable;
    if Summing(i.op) { SumIgnoresIt(i, o, o', p, v); }
    else if Logical(i.op) { LogicIgnoresIt(i, o, o', p, v); }
    else { ShiftIgnoresIt(i, o, o', p, v); }
  }

  lemma SumCopiesIt(i: Instruction, o: Operands, o': Operands, p: Register, v: int32)
    requires p != 0 && Executable(i) && Summing(i.op) && Related(i, o, o', p, v) && RdIsCopy(i, p)
    ensures RegisterOp(i, o).Finish? && RegisterOp(i, o') == SetReg(o', i.rd, v)
  {
    SumOfOne(i, o);
    SumOfOne(i, o');
    assert (o.rt == 0 || (o.rs == 0 && i.op != SUB && i.op != SUBU)) && (o'.rt == 0 || (o'.rs == 0 && i.op != SUB && i.op != SUBU));
    hide RegisterOp, Executable;
  }

  /** A sum or difference with r0 is the other operand. */
  lemma SumOfOne(i: Instruction, o: Operands)
    requires Executable(i) && Summing(i.op)
    ensures o.rt == 0 ==> RegisterOp(i, o) == SetReg(o, i.rd, o.rs)
    ensures o.rs == 0 && i.op != SUB && i.op != SUBU ==> RegisterOp(i, o) == SetReg(o, i.rd, o.rt)
  {
    SumLaws(o.rs); SumLaws(o.rt);
    hide Plus, Minus, AddOverflows, SubOverflows, Executable, And, Or, Xor, ToWord, Wrap, ShiftLeft, ShiftRight;
  }

  lemma LogicCopiesIt(i: Instruction, o: Operands, o': Operands, p: Register, v: int32)
    requires p != 0 && Executable(i) && Logical(i.op) && Related(i, o, o', p, v) && RdIsCopy(i, p)
    ensures RegisterOp(i, o).Finish? && RegisterOp(i, o') == SetReg(o', i.rd, v)
  {
    BitLaws(v);
    hide And, Or, Xor, Plus, Minus, ToWord, Truth, AddOverflows, SubOverflows;
  }

  lemma ShiftCopiesIt(i: Instruction, o: Operands, o': Operands, p: Register, v: int32)
    requires p != 0 && Executable(i) && GroupOf(i.op) == ToRd && !Summing(i.op) && !Logical(i.op)
    requires Related(i, o, o', p, v) && RdIsCopy(i, p)
    ensures RegisterOp(i, o).Finish? && RegisterOp(i, o') == SetReg(o', i.rd, v)
  {
    ShiftLaws(v);
    assert ToWord(0) % 32 == 0;
    hide And, Or, Xor, Plus, Minus, ToWord, AddOverflows, SubOverflows, ShiftLeft, ShiftRight;
  }

  lemma RdCopiesIt(i: Instruction, o: Operands, o': Operands, p: Register, v: int32)
    requires p != 0 && Executable(i) && GroupOf(i.op) == ToRd && Related(i, o, o', p, v) && RdIsCopy(i, p)
    ensures RegisterOp(i, o).Finish? && RegisterOp(i, o') == SetReg(o', i.rd, v)
  {
    hide RegisterOp, Related, RdIsCopy, Executable, GroupOf;
    if Summing(i.op) { SumCopiesIt(i, o, o', p, v); }
    else if Logical(i.op) { LogicCopiesIt(i, o, o', p, v); }
    else { ShiftCopiesIt(i, o, o', p, v); }
  }

  lemma RegisterMatches(i: Instruction, o: Operands, o': Operands, p: Register, v: int32)
    requires p != 0 && Executable(i) && GroupOf(i.op) == ToRd && Related(i, o, o', p, v) && !Sensitive(i, p)
    ensures Match(RegisterOp(i, o), RegisterOp(i, o'), p, v)
  {
    if RdIgnores(i, p) { RdIgnoresIt(i, o, o', p, v); }
    if RdIsCopy(i, p) { RdCopiesIt(i, o, o', p, v); }
    hide RdIgnores, RdIsCopy, RdValue, AddOverflows, SubOverflows;
  }

  lemma RtIgnoresIt(i: Instruction, o: Operands, o': Operands, p: Register, v: int32)
    requires p != 0 && GroupOf(i.op) == ToRt && Related(i, o, o', p, v) && RtIgnores(i, p)
    ensures ImmediateOp(i, o') == ImmediateOp(i, o)
  {
    BitLaws(o.rs); BitLaws(v);
    hide And, Or, Xor, Plus, AddImmediateOverflows, LowHalfOf;
  }

  lemma RtCopiesIt(i: Instruction, o: Operands, o': Operands, p: Register, v: int32)
    requires p != 0 && GroupOf(i.op) == ToRt && Related(i, o, o', p, v) && RtIsCopy(i, p)
    ensures ImmediateOp(i, o).Finish? && ImmediateOp(i, o') == SetReg(o', i.rt, v)
  {
    BitLaws(v); SumLaws(o.rs); SumLaws(v);
    hide And, Or, Xor, Plus, AddImmediateOverflows, LowHalfOf;
  }

  lemma ImmediateMatches(i: Instruction, o: Operands, o': Operands, p: Register, v: int32)
    requires p != 0 && GroupOf(i.op) == ToRt && Related(i, o, o', p, v) && !Sensitive(i, p)
    ensures Match(ImmediateOp(i, o), ImmediateOp(i, o'), p, v)
  {
    if RtIgnores(i, p) { RtIgnoresIt(i, o, o', p, v); }
    if RtIsCopy(i, p) { RtCopiesIt(i, o, o', p, v); }
    hide RtIgnores, RtIsCopy, And, Or, Xor, Plus, AddImmediateOverflows, LowHalfOf, Truth, ToWord, Wrap;
  }

  lemma HiLoMatches(i: Instruction, o: Operands, o': Operands, p: Register, v: int32)
    requires p != 0 && GroupOf(i.op) == ToHiLo && Related(i, o, o', p, v) && !Sensitive(i, p)
    ensures HiLoOp(i, o') == HiLoOp(i, o)
  {
    if i.op != MTHI && i.op != MTLO && (i.rs == p || i.rt == p) {
      assert (o.rs == 0 || o.rt == 0) && (o'.rs == 0 || o'.rt == 0);
      hide HiLoOp, Related, Sensitive;
      NothingComesOut(i, o);
      NothingComesOut(i, o');
    } else {
      assert Agree(i, o, o');
      hide HiLoOp, Related, Sensitive;
      HiLoReads(i, o, o');
    }
  }

  /** A product or quotient with r0 is zero, and so is its other half. */
  lemma NothingComesOut(i: Instruction, o: Operands)
    requires (i.op == MULT || i.op == MULTU || i.op == DIV || i.op == DIVU) && (o.rs == 0 || o.rt == 0)
    ensures HiLoOp(i, o) == SetHiLo(o, 0, 0)
  {
    if o.rt != 0 { ZeroDividend(o.rt); ZeroDividend(ToWord(o.rt)); }
    assert High(0) == 0 && Low(0) == 0;
    hide Quotient, Remainder, High, Low, Wrap;
  }

  lemma ZeroDividend(b: int)
    requires b != 0
    ensures Quotient(0, b) == 0 && Remainder(0, b) == 0 && Wrap(0) == 0
  {
  }

  lemma JumpMatches(i: Instruction, o: Operands, o': Operands, p: Register, v: int32)
    requires p != 0 && GroupOf(i.op) == Jumps && Related(i, o, o', p, v) && !Sensitive(i, p)
    ensures JumpOp(i, o') == JumpOp(i, o)
  {
    if Dest(i) != p && (i.rs == p || i.rt == p) && !Agree(i, o, o') {
      assert Branches(i.op) && (!Moves(i) || ((i.op == BEQ || i.op == BNE) && i.rs == i.rt));
      hide JumpOp, Sensitive, GroupOf;
      BranchMatches(i, o, o', p, v);
    } else {
      assert Agree(i, o, o');
      hide JumpOp, Sensitive, Related;
      JumpReads(i, o, o');
    }
  }

  predicate Branches(op: Opcode) {
    op == BEQ || op == BNE || op == BGTZ || op == BLEZ || op == BGEZ || op == BLTZ || op == BGEZAL || op == BLTZAL
  }

  /** A branch that goes to the same place either way, or compares a register with itself. */
  lemma BranchMatches(i: Instruction, o: Operands, o': Operands, p: Register, v: int32)
    requires p != 0 && Branches(i.op) && Related(i, o, o', p, v)
    requires !Moves(i) || ((i.op == BEQ || i.op == BNE) && i.rs == i.rt)
    ensures JumpOp(i, o') == JumpOp(i, o)
  {
    assert Next(o') == Next(o);
    assert BranchTarget(o', i, true) == BranchTarget(o, i, true) && BranchTarget(o', i, false) == BranchTarget(o, i, false);
    assert !Moves(i) ==> BranchTarget(o, i, true) == BranchTarget(o, i, false);
    hide Wrap, Plus, ToWord, BranchTarget, JumpTarget, Next, Moves;
  }

  lemma MemoryMatches(i: Instruction, o: Operands, o': Operands, p: Register, v: int32, table: seq<TranslationEntry>, memory: seq<byte>)
    requires p != 0 && Related(i, o, o', p, v) && !Sensitive(i, p) && |memory| == MEMORY_SIZE
    requires GroupOf(i.op) == Loads || GroupOf(i.op) == Stores
    ensures GroupOf(i.op) == Loads ==> LoadOp(i, o', table, memory) == LoadOp(i, o, table, memory)
    ensures GroupOf(i.op) == Stores ==> StoreOp(i, o', table, memory) == StoreOp(i, o, table, memory)
  {
    if GroupOf(i.op) == Loads || i.rt != p {
      assert Agree(i, o, o');
      hide LoadOp, StoreOp, Related, Sensitive;
      MemoryReads(i, o, o', table, memory);
    } else {
      assert NeverAligned(i) && o.rs == 0 && o'.rs == 0;
      hide StoreOp, Related, Sensitive, NeverAligned;
      StoreNeverAligned(i, o, table, memory);
      StoreNeverAligned(i, o', table, memory);
    }
  }

  lemma StoreNeverAligned(i: Instruction, o: Operands, table: seq<TranslationEntry>, memory: seq<byte>)
    requires |memory| == MEMORY_SIZE && GroupOf(i.op) == Stores && NeverAligned(i) && o.rs == 0
    ensures StoreOp(i, o, table, memory) == if i.op == SH || i.op == SW then Raise(AddressError, i.extra) else Assertion
  {
    SumLaws(i.extra);
    if i.op == SH { Misaligned(table, i.extra, 2); }
    if i.op == SW { Misaligned(table, i.extra, 4); }
    hide Plus, Wrap, ReadResult, Translate;
  }

  lemma Misaligned(table: seq<TranslationEntry>, addr: int32, size: Width)
    requires (size == 2 && addr % 2 != 0) || (size == 4 && addr % 4 != 0)
    ensures Translate(table, addr, size, true) == Fault(AddressError)
  {
  }

  /** An instruction begun again after a trap does what it would have done without the trap,
      unless it is sensitive to the pending load. */
  lemma RestartIsTransparent(table: seq<TranslationEntry>, c: Cpu, bad: int32, i: Instruction)
    requires Sound(c) && Executable(i) && !Sensitive(i, c.regs[LOAD_REG])
    ensures !Perform(table, c, i).outcome.Halted? ==>
              SameButBadVAddr(Perform(table, AfterTrap(c, bad), i), Perform(table, c, i))
  {
    if !Once(table, c, i).Assertion? {
      if c.regs[LOAD_REG] == 0 {
        NothingPending(table, c, bad, i);
      } else {
        EffectsMatch(table, c, bad, i);
      }
      Compare(table, c, bad, i);
    }
  }

  lemma NothingPending(table: seq<TranslationEntry>, c: Cpu, bad: int32, i: Instruction)
    requires Sound(c) && Executable(i) && c.regs[LOAD_REG] == 0 && !Sensitive(i, 0) && !Once(table, c, i).Assertion?
    ensures Once(table, AfterTrap(c, bad), i) == Once(table, c, i)
  {
    var o, o' := OperandsOf(i, c.regs), OperandsOf(i, AfterTrap(c, bad).regs);
    assert o' == o.(merged := o'.merged) && (i.rt != 0 ==> o' == o);
    if i.op == LWR && i.rt == 0 {
      SumLaws(i.extra);
      assert false;
    }
    hide Execute, OperandsOf, AtHandler, Sensitive;
    ReadsOnlyOperands(i, o, o', table, c.memory);
  }

  lemma EffectsMatch(table: seq<TranslationEntry>, c: Cpu, bad: int32, i: Instruction)
    requires Sound(c) && Executable(i) && c.regs[LOAD_REG] != 0 && !Sensitive(i, c.regs[LOAD_REG])
    ensures var e, e' := Once(table, c, i), Once(table, AfterTrap(c, bad), i);
      Match(e, e', c.regs[LOAD_REG], c.regs[LOAD_VALUE_REG]) && (e.Finish? ==> e'.save == e.save)
  {
    var p, v := c.regs[LOAD_REG], c.regs[LOAD_VALUE_REG];
    var o, o' := OperandsOf(i, c.regs), OperandsOf(i, AfterTrap(c, bad).regs);
    OperandsRelated(i, c.regs, bad);
    assert |c.memory| == MEMORY_SIZE;
    hide Related, Sensitive, OperandsOf, AtHandler, RegisterOp, ImmediateOp, HiLoOp, JumpOp, LoadOp, StoreOp;
    match GroupOf(i.op)
    case ToRd => RegisterMatches(i, o, o', p, v); RegisterWrites(i, o); RegisterWrites(i, o');
    case ToRt => ImmediateMatches(i, o, o', p, v); ImmediateWrites(i, o); ImmediateWrites(i, o');
    case ToHiLo => HiLoMatches(i, o, o', p, v); SelfMatch(i, o, table, c.memory, p, v);
    case Jumps => JumpMatches(i, o, o', p, v); SelfMatch(i, o, table, c.memory, p, v);
    case Loads => MemoryMatches(i, o, o', p, v, table, c.memory); SelfMatch(i, o, table, c.memory, p, v);
    case Stores => MemoryMatches(i, o, o', p, v, table, c.memory); SelfMatch(i, o, table, c.memory, p, v);
    case Traps =>
  }

  lemma SelfMatch(i: Instruction, o: Operands, table: seq<TranslationEntry>, memory: seq<byte>, p: Register, v: int32)
    requires Executable(i) && |memory| == MEMORY_SIZE && p != 0 && !Sensitive(i, p)
    requires GroupOf(i.op) != ToRd && GroupOf(i.op) != ToRt
    ensures var e := Execute(i, o, table, memory); Match(e, e, p, v)
  {
    assert Dest(i) != p;
    WritesOnlyDest(i, o, table, memory);
    hide Execute, Dest, Sensitive;
  }

  // ---------------------------------------------------------------- instructions it does matter to

  /** The value of a general register in the states below: p holds t, q holds y, the others 0. */
  function At(r: Register, p: Register, t: int32, q: Register, y: int32): (x: int32) {
    if r == 0 then 0 else if r == p then t else if r == q then y else 0
  }

  /** A register file with value v on its way to register p, which still holds x. */
  function Start(p: Register, x: int32, v: int32, q: Register, y: int32): (regs: seq<int32>)
    ensures |regs| == NUM_TOTAL_REGS && regs[0] == 0 && regs[LOAD_REG] == p && regs[LOAD_VALUE_REG] == v
    ensures regs[PC_REG] == regs[HI_REG] == regs[LO_REG] == regs[NEXT_PC_REG] == 0
    ensures forall r | 0 <= r < 32 :: regs[r] == At(r, p, x, q, y)
  {
    seq(NUM_TOTAL_REGS, r requires 0 <= r < NUM_TOTAL_REGS =>
      if r < 32 then At(r, p, x, q, y) else if r == LOAD_REG then p else if r == LOAD_VALUE_REG then v else 0)
  }

  /** The operands of an instruction there, when p holds t. */
  function Ops(i: Instruction, p: Register, t: int32, v: int32, q: Register, y: int32): (o: Operands) {
    Operands(At(i.rs, p, t, q, y), At(i.rt, p, t, q, y), 0, 0, 0, if i.rt == p then v else At(i.rt, p, t, q, y))
  }

  /** To show that an instruction can differ it is enough to find such values. */
  lemma EffectsDiffer(i: Instruction, p: Register, x: int32, v: int32, q: Register, y: int32,
                      table: seq<TranslationEntry>, memory: seq<byte>)
    requires p != 0 && Executable(i) && |memory| == MEMORY_SIZE
    requires var e, e' := Execute(i, Ops(i, p, x, v, q, y), table, memory), Execute(i, Ops(i, p, v, v, q, y), table, memory);
      !e.Assertion? && !Match(e, e', p, v)
    ensures CanDiffer(i, p)
  {
    var c := Cpu(Start(p, x, v, q, y), memory);
    StartOperands(i, p, x, v, q, y);
    hide Execute, OperandsOf, Start, Ops, Match;
    Compare(table, c, 0, i);
    assert Differs(table, c, 0, i, p);
  }

  lemma StartOperands(i: Instruction, p: Register, x: int32, v: int32, q: Register, y: int32)
    requires p != 0
    ensures OperandsOf(i, Start(p, x, v, q, y)) == Ops(i, p, x, v, q, y)
    ensures OperandsOf(i, AtHandler(Start(p, x, v, q, y), 0)) == Ops(i, p, v, v, q, y)
  {
    hide Start;
  }

  /** The operand register that is not p. */
  function Other(i: Instruction, p: Register): (q: Register) { if i.rs == p then i.rt else i.rs }

  /** The result of an rd instruction on two operands, when it does not trap. */
  function Rd(i: Instruction, o: Operands): (r: int32)
    requires Executable(i)
  {
    RdValue(i.op, o.rs, o.rt, if Shift(i.op) then i.extra else 0, o.hi, o.lo)
  }

  predicate Overflows(i: Instruction, o: Operands) {
    (i.op == ADD && AddOverflows(o.rs, o.rt)) || (i.op == SUB && SubOverflows(o.rs, o.rt))
  }

  /** What it takes for the two ways to differ. */
  ghost predicate RdDiffers(i: Instruction, o: Operands, o': Operands, p: Register, v: int32)
    requires Executable(i)
  {
    && !Overflows(i, o)
    && if i.rd == 0 then Overflows(i, o')
       else !Overflows(i, o') && Rd(i, o') != if i.rd == p then v else Rd(i, o)
  }

  lemma RdMismatch(i: Instruction, o: Operands, o': Operands, p: Register, v: int32)
    requires p != 0 && Executable(i) && RdDiffers(i, o, o', p, v)
    ensures !Match(RegisterOp(i, o), RegisterOp(i, o'), p, v)
  {
    hide RdValue, AddOverflows, SubOverflows, Executable;
  }

  lemma SumsAreExact(i: Instruction, o: Operands)
    requires Summing(i.op) && Executable(i)
    ensures var z := if i.op == ADD || i.op == ADDU then o.rs + o.rt else o.rs - o.rt;
      if Fits(z) then !Overflows(i, o) && Rd(i, o) == z else i.op == ADD || i.op == SUB ==> Overflows(i, o)
  {
    OverflowIsExact(o.rs, o.rt);
    hide Plus, Minus, AddOverflows, SubOverflows, Executable, And, Or, Xor, ToWord, Wrap, ShiftLeft, ShiftRight;
  }

  lemma RdSensitive(i: Instruction, p: Register)
    requires p != 0 && GroupOf(i.op) == ToRd && Sensitive(i, p)
    ensures if i.rd == p then !RdIsCopy(i, p)
            else !RdIgnores(i, p) && (i.rd != 0 || (!RdIsCopy(i, p) && (i.op == ADD || i.op == SUB)))
  {
  }

  lemma SumDiffersSelf(i: Instruction, p: Register) returns (x: int32, v: int32, q: Register, y: int32)
    requires p != 0 && Executable(i) && Summing(i.op) && Sensitive(i, p) && i.rd == p
    ensures RdDiffers(i, Ops(i, p, x, v, q, y), Ops(i, p, v, v, q, y), p, v)
  {
    RdSensitive(i, p);
    hide Sensitive, GroupOf;
    x, q := 0, Other(i, p);
    v, y := 1, if (i.rs == p) == (i.rt == p) then 0 else 1;
    SumsAreExact(i, Ops(i, p, x, v, q, y));
    SumsAreExact(i, Ops(i, p, v, v, q, y));
    hide Overflows, Rd, Executable;
  }

  lemma SumDiffersElse(i: Instruction, p: Register) returns (x: int32, v: int32, q: Register, y: int32)
    requires p != 0 && Executable(i) && Summing(i.op) && Sensitive(i, p) && i.rd != p
    ensures RdDiffers(i, Ops(i, p, x, v, q, y), Ops(i, p, v, v, q, y), p, v)
  {
    RdSensitive(i, p);
    hide Sensitive, GroupOf;
    x, q := 0, Other(i, p);
    v := if i.rd != 0 then 1 else if i.op == ADD then INT_LIMIT - 1 else -INT_LIMIT;
    y := if i.rd != 0 then 0 else 1;
    SumsAreExact(i, Ops(i, p, x, v, q, y));
    SumsAreExact(i, Ops(i, p, v, v, q, y));
    hide Overflows, Rd, Executable;
  }

  lemma SumDiffers(i: Instruction, p: Register) returns (x: int32, v: int32, q: Register, y: int32)
    requires p != 0 && Executable(i) && Summing(i.op) && Sensitive(i, p)
    ensures RdDiffers(i, Ops(i, p, x, v, q, y), Ops(i, p, v, v, q, y), p, v)
  {
    if i.rd == p { x, v, q, y := SumDiffersSelf(i, p); } else { x, v, q, y := SumDiffersElse(i, p); }
  }

  lemma LogicDiffersSelf(i: Instruction, p: Register) returns (x: int32, v: int32, q: Register, y: int32)
    requires p != 0 && Executable(i) && Logical(i.op) && Sensitive(i, p) && i.rd == p
    ensures RdDiffers(i, Ops(i, p, x, v, q, y), Ops(i, p, v, v, q, y), p, v)
  {
    RdSensitive(i, p);
    hide Sensitive, GroupOf;
    x, q := 0, Other(i, p);
    v := if i.op == SLT || i.op == SLTU then 2 else 1;
    y := if i.op == XOR && (i.rs == p) != (i.rt == p) then 1 else 0;
    LogicOfBits(i, Ops(i, p, x, v, q, y));
    LogicOfBits(i, Ops(i, p, v, v, q, y));
    hide Overflows, Rd, Executable;
  }

  lemma LogicDiffersElse(i: Instruction, p: Register) returns (x: int32, v: int32, q: Register, y: int32)
    requires p != 0 && Executable(i) && Logical(i.op) && Sensitive(i, p) && i.rd != p
    ensures RdDiffers(i, Ops(i, p, x, v, q, y), Ops(i, p, v, v, q, y), p, v)
  {
    RdSensitive(i, p);
    hide Sensitive, GroupOf;
    x, q := 0, Other(i, p);
    v := if i.op == SLT && i.rs == p then -1 else 1;
    y := if i.op == AND || (i.op == SLTU && i.rs == p) then 1 else 0;
    LogicOfBits(i, Ops(i, p, x, v, q, y));
    LogicOfBits(i, Ops(i, p, v, v, q, y));
    hide Overflows, Rd, Executable;
  }

  lemma LogicDiffers(i: Instruction, p: Register) returns (x: int32, v: int32, q: Register, y: int32)
    requires p != 0 && Executable(i) && Logical(i.op) && Sensitive(i, p)
    ensures RdDiffers(i, Ops(i, p, x, v, q, y), Ops(i, p, v, v, q, y), p, v)
  {
    if i.rd == p { x, v, q, y := LogicDiffersSelf(i, p); } else { x, v, q, y := LogicDiffersElse(i, p); }
  }

  /** Logic on zero and one, and comparisons. */
  lemma LogicOfBits(i: Instruction, o: Operands)
    requires Logical(i.op) && Executable(i)
    ensures !Overflows(i, o)
    ensures i.op == SLT ==> Rd(i, o) == if o.rs < o.rt then 1 else 0
    ensures i.op == SLTU ==> Rd(i, o) == if ToWord(o.rs) < ToWord(o.rt) then 1 else 0
    ensures 0 <= o.rs <= 1 && 0 <= o.rt <= 1 ==>
      && (i.op == AND ==> Rd(i, o) == if o.rs == 1 && o.rt == 1 then 1 else 0)
      && (i.op == OR ==> Rd(i, o) == o.rs)
      && (i.op == NOR ==> Rd(i, o) == if o.rs == 0 && o.rt == 0 then -1 else -2)
      && (i.op == XOR ==> Rd(i, o) == if o.rs == o.rt then 0 else 1)
  {
    LogicTable(o.rs, o.rt);
    hide And, Or, Xor, ToWord, Wrap, Plus, Minus, AddOverflows, SubOverflows, Executable, ShiftLeft, ShiftRight;
  }

  lemma LogicTable(a: int32, b: int32)
    ensures 0 <= a <= 1 && 0 <= b <= 1 ==>
      && And(a, b) == (if a == 1 && b == 1 then 1 else 0) && Or(a, b) == (if a == 0 && b == 0 then 0 else 1)
      && Xor(a, b) == (if a == b then 0 else 1)
    ensures Or(a, a) == a
  {
    BitLaws(0); BitLaws(1); BitLaws(a);
    hide And, Or, Xor;
  }

  lemma ShiftDiffersSelf(i: Instruction, p: Register) returns (x: int32, v: int32, q: Register, y: int32)
    requires p != 0 && Executable(i) && GroupOf(i.op) == ToRd && !Summing(i.op) && !Logical(i.op) && Sensitive(i, p) && i.rd == p
    ensures RdDiffers(i, Ops(i, p, x, v, q, y), Ops(i, p, v, v, q, y), p, v)
  {
    RdSensitive(i, p);
    hide Sensitive, GroupOf;
    x, q := 0, Other(i, p);
    v, y := 1, if !Shift(i.op) && (i.rs == p) != (i.rt == p) then 1 else 0;
    ShiftOfUnit(i, Ops(i, p, x, v, q, y));
    ShiftOfUnit(i, Ops(i, p, v, v, q, y));
    hide Overflows, Rd, Executable;
  }

  lemma ShiftDiffersElse(i: Instruction, p: Register) returns (x: int32, v: int32, q: Register, y: int32)
    requires p != 0 && Executable(i) && GroupOf(i.op) == ToRd && !Summing(i.op) && !Logical(i.op) && Sensitive(i, p) && i.rd != p
    ensures RdDiffers(i, Ops(i, p, x, v, q, y), Ops(i, p, v, v, q, y), p, v)
  {
    RdSensitive(i, p);
    hide Sensitive, GroupOf;
    x, q := 0, Other(i, p);
    v := if ShiftsRight(i.op) then -1 else 1;
    y := if !Shift(i.op) && (i.rs == p) != (i.rt == p) then 1 else 0;
    ShiftOfUnit(i, Ops(i, p, x, v, q, y));
    ShiftOfUnit(i, Ops(i, p, v, v, q, y));
    hide Overflows, Rd, Executable;
  }

  lemma ShiftDiffers(i: Instruction, p: Register) returns (x: int32, v: int32, q: Register, y: int32)
    requires p != 0 && Executable(i) && GroupOf(i.op) == ToRd && !Summing(i.op) && !Logical(i.op) && Sensitive(i, p)
    ensures RdDiffers(i, Ops(i, p, x, v, q, y), Ops(i, p, v, v, q, y), p, v)
  {
    if i.rd == p { x, v, q, y := ShiftDiffersSelf(i, p); } else { x, v, q, y := ShiftDiffersElse(i, p); }
  }

  predicate ShiftsRight(op: Opcode) { op == SRA || op == SRL || op == SRAV || op == SRLV }

  function Amount(i: Instruction, o: Operands): (k: nat)
    requires Executable(i)
  {
    if Shift(i.op) then i.extra else if o.rs == -1 then 31 else if 0 <= o.rs < 32 then o.rs else 0
  }

  /** Shifts of zero, one and minus one, by amounts that are given or are one of those. */
  lemma ShiftOfUnit(i: Instruction, o: Operands)
    requires Executable(i) && GroupOf(i.op) == ToRd && !Summing(i.op) && !Logical(i.op) && o.hi == o.lo == 0
    requires -1 <= o.rs <= 1 && -1 <= o.rt <= 1
    ensures !Overflows(i, o)
    ensures i.op == MFHI || i.op == MFLO ==> Rd(i, o) == 0
    ensures o.rt == 0 ==> Rd(i, o) == 0
    ensures i.op != MFHI && i.op != MFLO && Amount(i, o) == 0 ==> Rd(i, o) == o.rt
    ensures ShiftsRight(i.op) && o.rt == -1 ==> Rd(i, o) == -1
    ensures ShiftsRight(i.op) && o.rt == 1 && Amount(i, o) > 0 ==> Rd(i, o) == 0
    ensures (i.op == SLL || i.op == SLLV) && o.rt == 1 ==> Rd(i, o) != 0 && (Amount(i, o) > 0 ==> Rd(i, o) != 1)
    ensures (i.op == SLLV) && o.rt == 1 && o.rs == 1 ==> Rd(i, o) == 2
  {
    ShiftByAmount(i, o);
    var k := Amount(i, o);
    hide Rd, Executable, GroupOf, ShiftLeft, ShiftRight;
    ShiftLaws(o.rt);
    ShiftZero(k);
    OneShifted(k);
    TwoIsOneShifted();
  }

  lemma ShiftByAmount(i: Instruction, o: Operands)
    requires Executable(i) && GroupOf(i.op) == ToRd && !Summing(i.op) && !Logical(i.op) && -1 <= o.rs <= 1
    ensures !Overflows(i, o)
    ensures i.op == MFHI ==> Rd(i, o) == o.hi
    ensures i.op == MFLO ==> Rd(i, o) == o.lo
    ensures ShiftsRight(i.op) ==> Rd(i, o) == ShiftRight(o.rt, Amount(i, o))
    ensures i.op == SLL || i.op == SLLV ==> Rd(i, o) == ShiftLeft(o.rt, Amount(i, o))
    ensures i.op == MFHI || i.op == MFLO || ShiftsRight(i.op) || i.op == SLL || i.op == SLLV
    ensures Amount(i, o) < 32
  {
    assert !Shift(i.op) ==> ToWord(o.rs) % 32 == Amount(i, o);
    hide ShiftLeft, ShiftRight, AddOverflows, SubOverflows, ToWord, And, Or, Xor, Plus, Minus, Wrap;
  }

  lemma TwoIsOneShifted()
    ensures ShiftLeft(1, 1) == 2
  {
  }

  /** One and minus one, shifted. */
  lemma OneShifted(k: nat)
    requires k < 32
    ensures k > 0 ==> ShiftLeft(1, k) != 1 && ShiftRight(1, k) == 0
    ensures ShiftLeft(1, k) != 0 && ShiftRight(-1, k) == -1
  {
    MinusOneShifted(k);
    OneShiftedLeft(k);
    if k > 0 { ShiftZero(k - 1); }
    hide ShiftLeft;
  }

  lemma OneShiftedLeft(k: nat)
    requires k < 32
    ensures ShiftLeft(1, k) != 0 && (k > 0 ==> ShiftLeft(1, k) != 1)
  {
    Pow2Word();
    Pow2Monotone(k, 31);
    if k > 0 { Pow2Monotone(1, k); }
    var p := Pow2(k);
    assert 1 <= p <= INT_LIMIT && (k > 0 ==> p >= 2);
    hide Pow2;
  }

  lemma {:induction false} MinusOneShifted(k: nat)
    ensures ShiftRight(-1, k) == -1
  {
    if k > 0 { MinusOneShifted(k - 1); }
  }

  // ---------------------------------------------------------------- immediate operands

  ghost predicate RtDiffers(i: Instruction, o: Operands, o': Operands, p: Register, v: int32) {
    var e, e' := ImmediateOp(i, o), ImmediateOp(i, o');
    && e.Finish? && if i.rt == 0 then e'.Raise? else e'.Finish? && e'.value != if i.rt == p then v else e.value
  }

  lemma RtMismatch(i: Instruction, o: Operands, o': Operands, p: Register, v: int32)
    requires p != 0 && RtDiffers(i, o, o', p, v)
    ensures !Match(ImmediateOp(i, o), ImmediateOp(i, o'), p, v)
  {
    ImmediateWrites(i, o);
    hide ImmediateOp;
  }

  /** Sign bits of logical results. */
  lemma LogicSigns(a: int32, b: int32)
    ensures And(a, b) < 0 <==> a < 0 && b < 0
    ensures Or(a, b) < 0 <==> a < 0 || b < 0
  {
    var x, y := ToWord(a), ToWord(b);
    Pow2Word(); BitwiseBound(x, y, 32);
    BitwiseBits(x, y, 31);
    TopBit(x); TopBit(y); TopBit(BitAnd(x, y)); TopBit(BitOr(x, y));
    hide BitAnd, BitOr, TestBit;
  }

  /** What an immediate instruction computes from an operand. */
  lemma ImmediateValue(i: Instruction, o: Operands)
    requires GroupOf(i.op) == ToRt
    ensures var e := ImmediateOp(i, o);
      && (i.op == ADDI ==> if Fits(o.rs + i.extra) then e.Finish? && e.value == o.rs + i.extra else e.Raise?)
      && (i.op != ADDI ==> e.Finish?)
      && (i.op == ADDIU && Fits(o.rs + i.extra) ==> e.value == o.rs + i.extra)
      && (i.op == ANDI ==> e.value == And(o.rs, LowHalfOf(i.extra)))
      && (i.op == ORI ==> e.value == Or(o.rs, LowHalfOf(i.extra)))
      && (i.op == XORI ==> e.value == Xor(o.rs, LowHalfOf(i.extra)))
      && (i.op == SLTI ==> e.value == Truth(o.rs < i.extra))
      && (i.op == SLTIU ==> e.value == Truth(ToWord(o.rs) < ToWord(i.extra)))
      && (i.op == LUI ==> e.value == Wrap(i.extra * 0x1_0000))
  {
    OverflowIsExact(o.rs, i.extra);
    hide Plus, Minus, AddImmediateOverflows, And, Or, Xor, ToWord, LowHalfOf, Wrap;
  }

  lemma RtSensitive(i: Instruction, p: Register)
    requires p != 0 && GroupOf(i.op) == ToRt && Sensitive(i, p)
    ensures if i.rt == p then !RtIsCopy(i, p)
            else !RtIgnores(i, p) && (i.rt != 0 || (!RtIsCopy(i, p) && i.op == ADDI))
  {
  }

  /** The register of the pending load is written but not read. */
  lemma RtOverwrites(i: Instruction, p: Register) returns (v: int32)
    requires p != 0 && GroupOf(i.op) == ToRt && i.rt == p && (i.rs != p || i.op == LUI)
    ensures RtDiffers(i, Ops(i, p, 0, v, 0, 0), Ops(i, p, v, v, 0, 0), p, v)
  {
    ImmediateValue(i, Ops(i, p, 0, 1, 0, 0));
    v := if ImmediateOp(i, Ops(i, p, 0, 1, 0, 0)).value == 1 then 2 else 1;
    ImmediateValue(i, Ops(i, p, 0, v, 0, 0));
    ImmediateValue(i, Ops(i, p, v, v, 0, 0));
    hide ImmediateOp, And, Or, Xor, ToWord, LowHalfOf, Wrap, Truth, GroupOf;
  }

  lemma RtSumDiffersSelf(i: Instruction, p: Register)
    requires p != 0 && (i.op == ADDI || i.op == ADDIU) && i.rt == p && i.rs == p && i.extra != 0
    ensures RtDiffers(i, Ops(i, p, 0, 0, 0, 0), Ops(i, p, 0, 0, 0, 0), p, 0)
  {
    ImmediateValue(i, Ops(i, p, 0, 0, 0, 0));
    hide ImmediateOp;
  }

  lemma RtLogicDiffersSelf(i: Instruction, p: Register) returns (v: int32)
    requires p != 0 && (i.op == ANDI || i.op == ORI || i.op == XORI) && i.rt == p && i.rs == p
    requires i.op != ANDI ==> LowHalfOf(i.extra) != 0
    ensures RtDiffers(i, Ops(i, p, 0, v, 0, 0), Ops(i, p, v, v, 0, 0), p, v)
  {
    var h := LowHalfOf(i.extra);
    v := if i.op == ANDI then -1 else 0;
    ImmediateValue(i, Ops(i, p, 0, v, 0, 0));
    ImmediateValue(i, Ops(i, p, v, v, 0, 0));
    BitLaws(h);
    LogicSigns(-1, h);
    hide ImmediateOp, And, Or, Xor, LowHalfOf;
  }

  lemma RtCompareDiffersSelf(i: Instruction, p: Register)
    requires p != 0 && (i.op == SLTI || i.op == SLTIU) && i.rt == p && i.rs == p
    ensures RtDiffers(i, Ops(i, p, 0, 2, 0, 0), Ops(i, p, 2, 2, 0, 0), p, 2)
  {
    ImmediateValue(i, Ops(i, p, 0, 2, 0, 0));
    ImmediateValue(i, Ops(i, p, 2, 2, 0, 0));
    hide ImmediateOp, ToWord;
  }

  lemma NotACopy(i: Instruction, p: Register)
    requires GroupOf(i.op) == ToRt && i.rs == p && i.op != LUI && !RtIsCopy(i, p)
    ensures i.op in {ADDI, ADDIU, SLTI, SLTIU, ANDI, ORI, XORI}
    ensures (i.op == ADDI || i.op == ADDIU ==> i.extra != 0) && (i.op == ORI || i.op == XORI ==> LowHalfOf(i.extra) != 0)
  {
    hide LowHalfOf;
  }

  lemma RtDiffersSelf(i: Instruction, p: Register) returns (v: int32)
    requires p != 0 && GroupOf(i.op) == ToRt && i.rt == p && i.rs == p && i.op != LUI && !RtIsCopy(i, p)
    ensures RtDiffers(i, Ops(i, p, 0, v, 0, 0), Ops(i, p, v, v, 0, 0), p, v)
  {
    hide RtDiffers, LowHalfOf, Ops, GroupOf, RtIsCopy;
    NotACopy(i, p);
    if i.op == ADDI || i.op == ADDIU { v := 0; RtSumDiffersSelf(i, p); }
    else if i.op == SLTI || i.op == SLTIU { v := 2; RtCompareDiffersSelf(i, p); }
    else { v := RtLogicDiffersSelf(i, p); }
  }

  lemma RtSumDiffers(i: Instruction, p: Register) returns (v: int32)
    requires p != 0 && (i.op == ADDI || i.op == ADDIU) && i.rt != p && i.rs == p
    requires i.rt != 0 || (i.op == ADDI && i.extra != 0)
    ensures RtDiffers(i, Ops(i, p, 0, v, 0, 0), Ops(i, p, v, v, 0, 0), p, v)
  {
    v := if i.rt != 0 then (if i.extra > 0 then -1 else 1) else if i.extra > 0 then INT_LIMIT - 1 else -INT_LIMIT;
    ImmediateValue(i, Ops(i, p, 0, v, 0, 0));
    ImmediateValue(i, Ops(i, p, v, v, 0, 0));
    hide ImmediateOp;
  }

  lemma RtLogicDiffers(i: Instruction, p: Register) returns (v: int32)
    requires p != 0 && (i.op == ANDI || i.op == ORI || i.op == XORI) && i.rt != p && i.rt != 0 && i.rs == p
    requires i.op == ANDI ==> LowHalfOf(i.extra) != 0
    ensures RtDiffers(i, Ops(i, p, 0, v, 0, 0), Ops(i, p, v, v, 0, 0), p, v)
  {
    assert LowHalfOf(i.extra) >= 0;
    hide LowHalfOf;
    v := LogicWitness(i.op, LowHalfOf(i.extra));
    ImmediateValue(i, Ops(i, p, 0, v, 0, 0));
    ImmediateValue(i, Ops(i, p, v, v, 0, 0));
    hide ImmediateOp, And, Or, Xor, ToWord, Wrap;
  }

  lemma LogicWitness(op: Opcode, h: int32) returns (v: int32)
    requires h >= 0 && (op == ANDI ==> h != 0)
    ensures op == ANDI ==> And(v, h) != And(0, h)
    ensures op == ORI ==> Or(v, h) != Or(0, h)
    ensures op == XORI ==> Xor(v, h) != Xor(0, h)
  {
    v := if op == ANDI then h else if op == ORI then -1 else if h == 0 then 1 else h;
    BitLaws(h); BitLaws(v);
    LogicSigns(-1, h);
    hide And, Or, Xor;
  }

  lemma RtCompareDiffers(i: Instruction, p: Register) returns (x: int32, v: int32)
    requires p != 0 && (i.op == SLTI || i.op == SLTIU) && i.rt != p && i.rt != 0 && i.rs == p
    requires if i.op == SLTI then i.extra != -INT_LIMIT else i.extra != 0
    ensures RtDiffers(i, Ops(i, p, x, v, 0, 0), Ops(i, p, v, v, 0, 0), p, v)
  {
    x, v := if i.op == SLTI then i.extra - 1 else 0, if i.op == SLTI then i.extra else -1;
    ImmediateValue(i, Ops(i, p, x, v, 0, 0));
    ImmediateValue(i, Ops(i, p, v, v, 0, 0));
    hide ImmediateOp;
  }

  lemma RtDiffersElse(i: Instruction, p: Register) returns (x: int32, v: int32)
    requires p != 0 && GroupOf(i.op) == ToRt && i.rt != p && !RtIgnores(i, p)
    requires i.rt != 0 || (!RtIsCopy(i, p) && i.op == ADDI)
    ensures RtDiffers(i, Ops(i, p, x, v, 0, 0), Ops(i, p, v, v, 0, 0), p, v)
  {
    hide RtDiffers;
    x := 0;
    if i.op == ADDI || i.op == ADDIU { v := RtSumDiffers(i, p); }
    else if i.op == SLTI || i.op == SLTIU { x, v := RtCompareDiffers(i, p); }
    else { v := RtLogicDiffers(i, p); }
  }

  lemma ImmediateDiffers(i: Instruction, p: Register) returns (x: int32, v: int32)
    requires p != 0 && GroupOf(i.op) == ToRt && Sensitive(i, p)
    ensures RtDiffers(i, Ops(i, p, x, v, 0, 0), Ops(i, p, v, v, 0, 0), p, v)
  {
    RtSensitive(i, p);
    hide Sensitive, GroupOf, RtDiffers, RtIsCopy, RtIgnores;
    x := 0;
    if i.rt != p { x, v := RtDiffersElse(i, p); }
    else if i.rs != p || i.op == LUI { v := RtOverwrites(i, p); }
    else { v := RtDiffersSelf(i, p); }
  }

  // ---------------------------------------------------------------- Hi and Lo, and jumps

  lemma HiLoDiffers(i: Instruction, p: Register)
    requires p != 0 && GroupOf(i.op) == ToHiLo && Sensitive(i, p)
    ensures var q := Other(i, p);
      !Match(HiLoOp(i, Ops(i, p, 0, 1, q, 1)), HiLoOp(i, Ops(i, p, 1, 1, q, 1)), p, 1)
  {
    var o, o' := Ops(i, p, 0, 1, Other(i, p), 1), Ops(i, p, 1, 1, Other(i, p), 1);
    if i.op == MTHI || i.op == MTLO {
    } else {
      assert o'.rs == 1 && o'.rt == 1 && (o.rs == 0 || o.rt == 0) && 0 <= o.rs <= 1 && 0 <= o.rt <= 1;
      hide Sensitive, Ops;
      NothingComesOut(i, o);
      OneComesOut(i, o');
    }
  }

  lemma OneComesOut(i: Instruction, o: Operands)
    requires (i.op == MULT || i.op == MULTU || i.op == DIV || i.op == DIVU) && o.rs == 1 && o.rt == 1
    ensures HiLoOp(i, o) == SetHiLo(o, 0, 1)
  {
    assert Quotient(1, 1) == 1 && Remainder(1, 1) == 0 && High(1) == 0 && Low(1) == 1 && Wrap(0) == 0 && Wrap(1) == 1;
    hide Quotient, Remainder, High, Low, Wrap;
  }

  lemma JumpDiffers(i: Instruction, p: Register) returns (v: int32)
    requires p != 0 && GroupOf(i.op) == Jumps && Sensitive(i, p)
    ensures !Match(JumpOp(i, Ops(i, p, 0, v, 0, 0)), JumpOp(i, Ops(i, p, v, v, 0, 0)), p, v)
  {
    v := if Dest(i) == p then 0 else if i.op == BGEZ || i.op == BLTZ || i.op == BGEZAL || i.op == BLTZAL then -1 else 1;
    var o, o' := Ops(i, p, 0, v, 0, 0), Ops(i, p, v, v, 0, 0);
    Targets(i, o);
    Targets(i, o');
    hide BranchTarget, JumpTarget, Next, Moves;
  }

  lemma Targets(i: Instruction, o: Operands)
    requires o.nextPC == 0
    ensures Next(o) == 4 && BranchTarget(o, i, false) == 4
    ensures Moves(i) ==> BranchTarget(o, i, true) != 4
  {
    hide Plus, Wrap;
    FromZero(4);
    FromZero(Wrap(4 * i.extra));
  }

  lemma FromZero(t: int32)
    ensures Plus(0, t) == t
  {
    SumLaws(t);
  }

  // ---------------------------------------------------------------- loads and stores

  const PAGE := TranslationEntry(0, 0, true, false, false, false)

  /** The first page, and nothing else. */
  const ONE_PAGE := [PAGE]

  /** Every page, all of them in frame 0. */
  const ALL_PAGES := seq(WORD_LIMIT / PAGE_SIZE, _ => PAGE)

  const ZEROES: seq<byte> := seq(MEMORY_SIZE, _ => 0)

  lemma OnePage(size: Width, writing: bool)
    ensures Translate(ONE_PAGE, 0, size, writing) == Physical(0)
    ensures Translate(ONE_PAGE, PAGE_SIZE, size, writing) == Fault(AddressError)
  {
  }

  /** The value that makes an address of a base register. */
  lemma Base(addr: int32, extra: int32) returns (x: int32)
    ensures Plus(x, extra) == addr
  {
    x := Minus(addr, extra);
  }

  lemma OnePageReads(size: Width)
    ensures ReadResult(ONE_PAGE, ZEROES, 0, size).Done?
    ensures ReadResult(ONE_PAGE, ZEROES, PAGE_SIZE, size).Trapped?
  {
    OnePage(size, false);
    hide Translate;
  }

  /** The base register is the one with the pending load: one address is mapped, the other not. */
  lemma AddressDiffers(i: Instruction, p: Register)
    requires p != 0 && Executable(i) && (GroupOf(i.op) == Loads || GroupOf(i.op) == Stores) && i.rs == p
    ensures CanDiffer(i, p)
  {
    var x := Base(0, i.extra);
    var v := Base(PAGE_SIZE, i.extra);
    var o, o' := Ops(i, p, x, v, 0, 0), Ops(i, p, v, v, 0, 0);
    if GroupOf(i.op) == Loads {
      LoadAt(i, o, o');
    } else {
      StoreAt(i, o, o');
    }
    hide LoadOp, StoreOp, Ops, ReadResult, Translate, CanDiffer, Plus;
    EffectsDiffer(i, p, x, v, 0, 0, ONE_PAGE, ZEROES);
  }

  lemma LoadAt(i: Instruction, o: Operands, o': Operands)
    requires GroupOf(i.op) == Loads && Plus(o.rs, i.extra) == 0 && Plus(o'.rs, i.extra) == PAGE_SIZE
    ensures LoadOp(i, o, ONE_PAGE, ZEROES).Finish? && LoadOp(i, o', ONE_PAGE, ZEROES).Raise?
  {
    OnePageReads(1); OnePageReads(2); OnePageReads(4);
    hide ReadResult, Translate, Plus, Loaded, ONE_PAGE, ZEROES;
  }

  lemma StoreAt(i: Instruction, o: Operands, o': Operands)
    requires GroupOf(i.op) == Stores && Plus(o.rs, i.extra) == 0 && Plus(o'.rs, i.extra) == PAGE_SIZE
    ensures StoreOp(i, o, ONE_PAGE, ZEROES).Finish? && StoreOp(i, o', ONE_PAGE, ZEROES).Raise?
  {
    OnePageReads(4);
    OnePage(1, true); OnePage(2, true); OnePage(4, true);
    hide ReadResult, Translate, Plus, Wrap, ToWord;
  }

  predicate Aligned(addr: int32, size: Width) {
    (size == 4 ==> addr % 4 == 0) && (size == 2 ==> addr % 2 == 0)
  }

  lemma AllPages(addr: int32, size: Width, writing: bool)
    requires Aligned(addr, size)
    ensures Translate(ALL_PAGES, addr, size, writing) == Physical(ToWord(addr) % PAGE_SIZE)
  {
    WordAlignment(addr, size);
    PageOf(ToWord(addr));
    ManyPages(ToWord(addr) / PAGE_SIZE);
    hide Translate, ToWord, Aligned, ALL_PAGES;
    InFrameZero(ALL_PAGES, addr, size, writing);
  }

  lemma ManyPages(k: nat)
    requires k < 0x80_0000
    ensures k < |ALL_PAGES| && ALL_PAGES[k] == PAGE
  {
  }

  lemma PageOf(w: word)
    ensures 0 <= w / 512 < 0x80_0000
  {
  }

  /** An aligned access through an entry like PAGE goes to frame 0. */
  lemma InFrameZero(table: seq<TranslationEntry>, addr: int32, size: Width, writing: bool)
    requires var w := ToWord(addr); w / PAGE_SIZE < |table| && table[w / PAGE_SIZE] == PAGE
    requires (size == 4 ==> ToWord(addr) % 4 == 0) && (size == 2 ==> ToWord(addr) % 2 == 0)
    ensures Translate(table, addr, size, writing) == Physical(ToWord(addr) % PAGE_SIZE)
  {
    assert ToWord(PAGE.physicalPage) == 0;
    hide ToWord;
  }

  lemma WordAlignment(x: int32, size: Width)
    requires Aligned(x, size)
    ensures (size == 4 ==> ToWord(x) % 4 == 0) && (size == 2 ==> ToWord(x) % 2 == 0)
  {
  }

  lemma AllZero(addr: int32)
    requires addr % 4 == 0
    ensures ReadResult(ALL_PAGES, ZEROES, addr, 4) == Done(0)
  {
    AllPages(addr, 4, false);
    AccessStaysInFrame(ALL_PAGES, addr, 4, false);
    var a := ToWord(addr) % PAGE_SIZE;
    hide Translate, ALL_PAGES;
    assert ZEROES[a..a + 4] == [0, 0, 0, 0];
  }

  /** Different values leave different bytes. */
  lemma StoresDiffer(a: nat, size: Width, w: int32, w': int32)
    requires a + size <= MEMORY_SIZE && if size == 4 then w != w' else w == 0 && w' == 1
    ensures Store(ZEROES, a, size, w) != Store(ZEROES, a, size, w')
  {
    LoadAfterStore(ZEROES, a, size, w);
    LoadAfterStore(ZEROES, a, size, w');
    assert ToWord(0) == 0 && ToWord(1) == 1;
    hide Store, Load, ZEROES, ToWord;
  }

  /** The address of a memory instruction can be made 0, unless its base is r0. */
  lemma Address(i: Instruction, p: Register) returns (y: int32)
    requires i.rs != p || p == 0
    ensures forall t: int32 {:trigger At(i.rs, p, t, i.rs, y)} :: Plus(At(i.rs, p, t, i.rs, y), i.extra) == if i.rs == 0 then i.extra else 0
  {
    y := Base(0, i.extra);
    SumLaws(i.extra);
    hide Plus;
  }

  /** The value of a store. */
  function Stored(i: Instruction, t: int32): (w: int32) {
    if i.op == SWR then Wrap(ToWord(t) % 256 * 0x100_0000) else t
  }

  lemma StoreAligned(i: Instruction, o: Operands)
    requires GroupOf(i.op) == Stores
    requires Aligned(Plus(o.rs, i.extra), WidthOf(i))
    ensures StoreOp(i, o, ALL_PAGES, ZEROES)
            == Finish(0, 0, o.hi, o.lo, 0, 0, Next(o), Some(Saving(Plus(o.rs, i.extra), WidthOf(i), Stored(i, o.rt))))
  {
    hide Translate, ReadResult, Plus, Wrap, ToWord, ALL_PAGES, ZEROES;
    var addr := Plus(o.rs, i.extra);
    AllPages(addr, WidthOf(i), true);
    if i.op == SWL || i.op == SWR {
      AllZero(addr);
      NothingAbove();
    }
  }

  lemma NothingAbove()
    ensures ToWord(0) % 0x100_0000 == 0
  {
  }

  /** The register with the pending load is the one that is stored. */
  lemma StoreDiffers(i: Instruction, p: Register)
    requires p != 0 && Executable(i) && GroupOf(i.op) == Stores && i.rt == p && i.rs != p && !NeverAligned(i)
    ensures CanDiffer(i, p)
  {
    var y := Address(i, p);
    var o, o' := Ops(i, p, 0, 1, i.rs, y), Ops(i, p, 1, 1, i.rs, y);
    var addr := if i.rs == 0 then i.extra else 0;
    assert o.rs == At(i.rs, p, 0, i.rs, y) && o'.rs == At(i.rs, p, 1, i.rs, y) && o.rt == 0 && o'.rt == 1;
    assert Plus(o.rs, i.extra) == addr == Plus(o'.rs, i.extra);
    assert Aligned(addr, WidthOf(i));
    hide NeverAligned, Ops, StoreOp, ALL_PAGES, ZEROES, Translate, Plus;
    StoreAligned(i, o);
    StoreAligned(i, o');
    StoredDiffers(i, addr);
    hide WriteResult;
    MemoryDiffers(i, p, y, addr, WidthOf(i), Stored(i, 0), Stored(i, 1));
  }

  lemma StoredDiffers(i: Instruction, addr: int32)
    requires GroupOf(i.op) == Stores && Aligned(addr, WidthOf(i))
    ensures WriteResult(ALL_PAGES, ZEROES, addr, WidthOf(i), Stored(i, 0)) != WriteResult(ALL_PAGES, ZEROES, addr, WidthOf(i), Stored(i, 1))
  {
    StoredValues(i);
    hide Stored;
    WritesAt(addr, WidthOf(i), Stored(i, 0));
    WritesAt(addr, WidthOf(i), Stored(i, 1));
    hide WriteResult, Store, ALL_PAGES, ZEROES, ToWord;
    StoresDiffer(ToWord(addr) % PAGE_SIZE, WidthOf(i), Stored(i, 0), Stored(i, 1));
  }

  lemma StoredValues(i: Instruction)
    ensures Stored(i, 0) == 0 && (WidthOf(i) != 4 ==> Stored(i, 1) == 1) && Stored(i, 1) != 0
  {
  }

  lemma WritesAt(addr: int32, size: Width, w: int32)
    requires Aligned(addr, size)
    ensures WriteResult(ALL_PAGES, ZEROES, addr, size, w) == Store(ZEROES, ToWord(addr) % PAGE_SIZE, size, w)
  {
    AllPages(addr, size, true);
    AccessStaysInFrame(ALL_PAGES, addr, size, true);
    hide Translate, Store, ALL_PAGES, ZEROES, ToWord;
  }

  lemma MemoryDiffers(i: Instruction, p: Register, y: int32, addr: int32, size: Width, w: int32, w': int32)
    requires p != 0 && Executable(i)
    requires var e, e' := Execute(i, Ops(i, p, 0, 1, i.rs, y), ALL_PAGES, ZEROES), Execute(i, Ops(i, p, 1, 1, i.rs, y), ALL_PAGES, ZEROES);
      e.Finish? && e.save == Some(Saving(addr, size, w)) && e'.Finish? && e'.save == Some(Saving(addr, size, w'))
    requires WriteResult(ALL_PAGES, ZEROES, addr, size, w) != WriteResult(ALL_PAGES, ZEROES, addr, size, w')
    ensures CanDiffer(i, p)
  {
    var c := Cpu(Start(p, 0, 1, i.rs, y), ZEROES);
    StartOperands(i, p, 0, 1, i.rs, y);
    hide Execute, OperandsOf, Start, Ops, WriteResult, AtEnd, AtHandler, ALL_PAGES, ZEROES;
    assert Differs(ALL_PAGES, c, 0, i, p);
  }

  /** LWR to r0 while another load to r0 is on its way. */
  lemma MergeDiffers(i: Instruction)
    requires Executable(i) && i.op == LWR && i.rt == 0 && !NeverAligned(i)
    ensures CanDiffer(i, 0)
  {
    var y := Address(i, 0);
    var c := Cpu(Start(0, 0, 256, i.rs, y), ZEROES);
    var o, o' := OperandsOf(i, c.regs), OperandsOf(i, AfterTrap(c, 0).regs);
    assert o.rs == At(i.rs, 0, 0, i.rs, y) && o'.rs == o.rs && o.merged == 256 && o'.merged == 0;
    assert Plus(o.rs, i.extra) % 4 == 0;
    hide OperandsOf, Start, AtHandler, Plus, ALL_PAGES, ZEROES, NeverAligned;
    Merges(i, o);
    Merges(i, o');
    hide LoadOp;
    assert !Match(Once(ALL_PAGES, c, i), Once(ALL_PAGES, AfterTrap(c, 0), i), 0, 256);
    hide Execute, Match;
    Compare(ALL_PAGES, c, 0, i);
    assert Differs(ALL_PAGES, c, 0, i, 0);
  }

  lemma Merges(i: Instruction, o: Operands)
    requires i.op == LWR && Plus(o.rs, i.extra) % 4 == 0 && (o.merged == 0 || o.merged == 256)
    ensures var e := LoadOp(i, o, ALL_PAGES, ZEROES); e.Finish? && e.loadValue == o.merged
  {
    hide ReadResult, Plus, Loaded, ALL_PAGES, ZEROES, Wrap, ToWord;
    AllZero(Plus(o.rs, i.extra));
    MergedWithZero();
  }

  lemma MergedWithZero()
    ensures Loaded(LWR, 0, 256) == 256 && Loaded(LWR, 0, 0) == 0
  {
    WrapFits(256);
    WrapFits(0);
    hide Wrap;
  }

  // ---------------------------------------------------------------- the exact condition

  lemma SensitiveCanDiffer(i: Instruction, p: Register)
    requires Executable(i) && Sensitive(i, p)
    ensures CanDiffer(i, p)
  {
    hide CanDiffer, Executable;
    if p == 0 {
      MergeDiffers(i);
    } else {
      match GroupOf(i.op)
      case ToRd => RegisterCanDiffer(i, p);
      case ToRt => ImmediateCanDiffer(i, p);
      case ToHiLo => HiLoCanDiffer(i, p);
      case Jumps => JumpCanDiffer(i, p);
      case Loads => AddressDiffers(i, p);
      case Stores => if i.rs == p { AddressDiffers(i, p); } else { StoreDiffers(i, p); }
    }
  }

  lemma ImmediateCanDiffer(i: Instruction, p: Register)
    requires p != 0 && Executable(i) && GroupOf(i.op) == ToRt && Sensitive(i, p)
    ensures CanDiffer(i, p)
  {
    var x, v := ImmediateDiffers(i, p);
    RtMismatch(i, Ops(i, p, x, v, 0, 0), Ops(i, p, v, v, 0, 0), p, v);
    assert ImmediateOp(i, Ops(i, p, x, v, 0, 0)).Finish?;
    hide ImmediateOp, Match, Sensitive, RtDiffers, CanDiffer, Ops, Executable, ZEROES;
    EffectsDiffer(i, p, x, v, 0, 0, [], ZEROES);
  }

  lemma HiLoCanDiffer(i: Instruction, p: Register)
    requires p != 0 && Executable(i) && GroupOf(i.op) == ToHiLo && Sensitive(i, p)
    ensures CanDiffer(i, p)
  {
    HiLoDiffers(i, p);
    assert !HiLoOp(i, Ops(i, p, 0, 1, Other(i, p), 1)).Assertion?;
    hide HiLoOp, Match, Sensitive, CanDiffer, Ops, Executable, ZEROES;
    EffectsDiffer(i, p, 0, 1, Other(i, p), 1, [], ZEROES);
  }

  lemma JumpCanDiffer(i: Instruction, p: Register)
    requires p != 0 && Executable(i) && GroupOf(i.op) == Jumps && Sensitive(i, p)
    ensures CanDiffer(i, p)
  {
    var v := JumpDiffers(i, p);
    assert !JumpOp(i, Ops(i, p, 0, v, 0, 0)).Assertion?;
    hide JumpOp, Match, Sensitive, CanDiffer, Ops, Executable, ZEROES;
    EffectsDiffer(i, p, 0, v, 0, 0, [], ZEROES);
  }

  lemma RegisterCanDiffer(i: Instruction, p: Register)
    requires p != 0 && Executable(i) && GroupOf(i.op) == ToRd && Sensitive(i, p)
    ensures CanDiffer(i, p)
  {
    hide CanDiffer, RdDiffers, Sensitive;
    var x, v, q, y;
    if Summing(i.op) { x, v, q, y := SumDiffers(i, p); }
    else if Logical(i.op) { x, v, q, y := LogicDiffers(i, p); }
    else { x, v, q, y := ShiftDiffers(i, p); }
    RdMismatch(i, Ops(i, p, x, v, q, y), Ops(i, p, v, v, q, y), p, v);
    hide RdValue, Match, AddOverflows, SubOverflows, Ops, Executable;
    EffectsDiffer(i, p, x, v, q, y, [], ZEROES);
  }

  /** Exactly the sensitive instructions can differ: beginning an instruction again after a trap is
      safe, whatever the registers, memory and page table hold, if and only if it is not
      sensitive to the load that was pending. */
  lemma RestartIsSafeIff(i: Instruction, p: Register)
    requires Executable(i)
    ensures CanDiffer(i, p) <==> Sensitive(i, p)
  {
    if Sensitive(i, p) {
      SensitiveCanDiffer(i, p);
    } else if CanDiffer(i, p) {
      var table, c: Cpu, bad :| Differs(table, c, bad, i, p);
      RestartIsTransparent(table, c, bad, i);
    }
  }

  // ---------------------------------------------------------------- through the kernel and back

  /** The instruction that is fetched is not sensitive to the pending load, and does not stop the
      simulator. */
  ghost predicate Restartable(table: seq<TranslationEntry>, c: Cpu)
    requires Sound(c)
  {
    match ReadResult(table, c.memory, c.regs[PC_REG], 4)
    case Trapped(_) => true
    case Done(raw) => !Sensitive(Decode(ToWord(raw)), c.regs[LOAD_REG]) && !OneStep(table, c).outcome.Halted?
  }

  /** After a trap the kernel may bring in a page or change the page table; the instruction then
      does what it would have done, had the page been there from the start. */
  lemma TrapAndRestart(table: seq<TranslationEntry>, c: Cpu, table': seq<TranslationEntry>, memory': seq<byte>)
    requires Sound(c) && |memory'| == MEMORY_SIZE
    ensures Sound(Cpu(OneStep(table, c).cpu.regs, memory'))
    ensures OneStep(table, c).outcome.Trap? && Restartable(table', Cpu(c.regs, memory')) ==>
      SameButBadVAddr(OneStep(table', Cpu(OneStep(table, c).cpu.regs, memory')), OneStep(table', Cpu(c.regs, memory')))
  {
    if !OneStep(table, c).outcome.Trap? || !Restartable(table', Cpu(c.regs, memory')) { return; }
    TrapRegisters(table, c);
    var c', bad := Cpu(c.regs, memory'), OneStep(table, c).cpu.regs[BAD_VADDR_REG];
    FetchAgain(c', bad);
    hide OneStep;
    RestartStep(table', c', bad);
  }

  lemma TrapRegisters(table: seq<TranslationEntry>, c: Cpu)
    requires Sound(c) && OneStep(table, c).outcome.Trap?
    ensures var r := OneStep(table, c).cpu.regs; |r| == NUM_TOTAL_REGS && r == AtHandler(c.regs, r[BAD_VADDR_REG])
  {
    hide Execute, Decode, Executable, ReadResult, OperandsOf;
  }

  lemma FetchAgain(c: Cpu, bad: int32)
    requires Sound(c)
    ensures AfterTrap(c, bad).regs[PC_REG] == c.regs[PC_REG]
    ensures AtHandler(AtHandler(c.regs, bad), c.regs[PC_REG]) == AtHandler(c.regs, c.regs[PC_REG])
  {
  }

  lemma RestartStep(table: seq<TranslationEntry>, c: Cpu, bad: int32)
    requires Sound(c) && Restartable(table, c)
    ensures SameButBadVAddr(OneStep(table, AfterTrap(c, bad)), OneStep(table, c))
  {
    FetchAgain(c, bad);
    hide AtHandler, Decode, ReadResult, Sensitive, Executable, Perform, ToWord;
    match ReadResult(table, c.memory, c.regs[PC_REG], 4)
    case Trapped(_) =>
    case Done(raw) =>
      DecodedIsExecutable(ToWord(raw));
      RestartIsTransparent(table, c, bad, Decode(ToWord(raw)));
  }

  /** ADDU r2, r1, r0 */
  const COPY := 0x0020_1021

  lemma CopyDecodes()
    ensures Decode(COPY) == Instruction(ADDU, 1, 0, 2, 0)
  {
    assert OpTable(0) == SPECIAL && SpecialTable(33) == ADDU;
  }

  /** Memory that starts with that instruction. */
  function Program(): (memory: seq<byte>)
    ensures |memory| == MEMORY_SIZE && memory[..4] == WordToBytes(COPY)
  {
    WordToBytes(COPY) + seq(MEMORY_SIZE - 4, _ => 0)
  }

  /** Without the condition it does go wrong. A load of 7 into r1 is on its way, and the page of the
      next instruction, which copies r1 to r2, is not in memory yet. Had it been there, the
      instruction would have seen the old r1; after the page fault it sees 7. */
  lemma RestartGoesWrong() returns (table: seq<TranslationEntry>, table': seq<TranslationEntry>, c: Cpu)
    ensures Sound(c) && OneStep(table, c).outcome == Trap(PageFault)
    ensures OneStep(table', c).outcome == Completed && OneStep(table', c).cpu.regs[2] == 0
    ensures OneStep(table', OneStep(table, c).cpu).outcome == Completed && OneStep(table', OneStep(table, c).cpu).cpu.regs[2] == 7
  {
    table, table' := [PAGE.(valid := false)], ONE_PAGE;
    c := Cpu(Start(1, 0, 7, 0, 0), Program());
    var d := AfterTrap(c, 0);
    assert ReadResult(table, c.memory, 0, 4) == Trapped(PageFault);
    FetchCopy();
    CopyDecodes();
    assert c.regs[1] == 0 && d.regs[1] == 7 && d.regs[PC_REG] == 0 && c.regs[0] == d.regs[0] == 0;
    assert d.regs[LOAD_REG] == 0 && c.regs[LOAD_REG] == 1;
    hide Program, Start, Decode, ReadResult, AtHandler;
    CopyCopies(table', c);
    CopyCopies(table', d);
    hide Perform;
  }

  lemma FetchCopy()
    ensures ReadResult(ONE_PAGE, Program(), 0, 4) == Done(COPY)
  {
    OnePage(4, false);
    var b := Program();
    assert b[0..4] == WordToBytes(COPY);
    WordRoundTrip(COPY);
    hide Program, Translate;
  }

  lemma CopyCopies(table: seq<TranslationEntry>, c: Cpu)
    requires Sound(c) && c.regs[LOAD_REG] != 2
    ensures var s := Perform(table, c, Instruction(ADDU, 1, 0, 2, 0)); s.outcome == Completed && s.cpu.regs[2] == c.regs[1]
  {
    SumLaws(c.regs[1]);
    hide Plus;
  }

  // ---------------------------------------------------------------- an interrupt between two instructions

  /** In some state with a load to `pending` on its way, an interrupt just before the instruction
      changes what the program sees. */
  ghost predicate InterruptShows(i: Instruction, pending: Register)
    requires Executable(i)
  {
    exists table, c: Cpu :: ShowsIn(table, c, i, pending)
  }

  ghost predicate ShowsIn(table: seq<TranslationEntry>, c: Cpu, i: Instruction, pending: Register)
    requires Executable(i)
  {
    && Sound(c) && c.regs[LOAD_REG] == pending && !Perform(table, c, i).outcome.Halted?
    && !SameButBadVAddr(Perform(table, Interrupted(c), i), Perform(table, c, i))
  }

  ghost predicate SameState(c: Cpu, c': Cpu)
    requires Sound(c) && Sound(c')
  {
    c.memory == c'.memory && forall r | 0 <= r < BAD_VADDR_REG :: c.regs[r] == c'.regs[r]
  }

  /** No instruction looks at BadVAddr. */
  lemma BadVAddrUnread(table: seq<TranslationEntry>, c: Cpu, c': Cpu, i: Instruction)
    requires Sound(c) && Sound(c') && Executable(i) && SameState(c, c')
    ensures SameButBadVAddr(Perform(table, c', i), Perform(table, c, i))
  {
    assert OperandsOf(i, c'.regs) == OperandsOf(i, c.regs);
    hide Execute, OperandsOf, Executable, Saved, AtHandler, AtEnd;
    match Execute(i, OperandsOf(i, c.regs), table, c.memory)
    case Raise(_, bad) => BadVAddrAtHandler(c.regs, c'.regs, bad);
    case Assertion =>
    case e: Effect => BadVAddrAtEnd(c.regs, c'.regs, e);
  }

  lemma BadVAddrAtHandler(regs: seq<int32>, regs': seq<int32>, bad: int32)
    requires |regs| == |regs'| == NUM_TOTAL_REGS && 0 <= regs[LOAD_REG] < 32
    requires forall r | 0 <= r < BAD_VADDR_REG :: regs[r] == regs'[r]
    ensures AtHandler(regs', bad) == AtHandler(regs, bad)
  {
    assert regs'[BAD_VADDR_REG := bad] == regs[BAD_VADDR_REG := bad];
    hide AfterLoad;
  }

  lemma BadVAddrAtEnd(regs: seq<int32>, regs': seq<int32>, e: Effect)
    requires |regs| == |regs'| == NUM_TOTAL_REGS && 0 <= regs[LOAD_REG] < 32 && e.Finish?
    requires forall r | 0 <= r < BAD_VADDR_REG :: regs[r] == regs'[r]
    ensures forall r | 0 <= r < BAD_VADDR_REG :: AtEnd(regs', e)[r] == AtEnd(regs, e)[r]
  {
  }

  lemma BadVAddrUnreadByStep(table: seq<TranslationEntry>, c: Cpu, c': Cpu)
    requires Sound(c) && Sound(c') && SameState(c, c')
    ensures SameButBadVAddr(OneStep(table, c'), OneStep(table, c))
  {
    hide Decode, ReadResult, Executable, Perform, ToWord;
    match ReadResult(table, c.memory, c.regs[PC_REG], 4)
    case Trapped(_) =>
    case Done(raw) =>
      DecodedIsExecutable(ToWord(raw));
      BadVAddrUnread(table, c, c', Decode(ToWord(raw)));
  }

  /** Whatever the registers, memory and page table hold, an interrupt before an instruction goes
      unnoticed if and only if the instruction is not sensitive to the load that was pending. */
  lemma InterruptIsInvisibleIff(i: Instruction, p: Register)
    requires Executable(i)
    ensures InterruptShows(i, p) <==> Sensitive(i, p)
  {
    if Sensitive(i, p) {
      RestartIsSafeIff(i, p);
      var table, c: Cpu, bad :| Differs(table, c, bad, i, p);
      var c' := Cpu(c.regs[BAD_VADDR_REG := bad], c.memory);
      assert Interrupted(c') == AfterTrap(c, bad);
      BadVAddrUnread(table, c, c', i);
      hide Perform, Sensitive, Executable;
      assert ShowsIn(table, c', i, p);
    } else if InterruptShows(i, p) {
      var table, c: Cpu :| ShowsIn(table, c, i, p);
      InterruptIsTrap(c);
      RestartIsTransparent(table, c, c.regs[BAD_VADDR_REG], i);
    }
  }

  lemma InterruptIsTrap(c: Cpu)
    requires Sound(c)
    ensures Interrupted(c) == AfterTrap(c, c.regs[BAD_VADDR_REG])
  {
    assert c.regs[BAD_VADDR_REG := c.regs[BAD_VADDR_REG]] == c.regs;
  }

  function Never(n: nat): (at: seq<bool>)
    ensures |at| == n
  {
    seq(n, _ => false)
  }

  /** In the run without interrupts, no instruction that one would come before is sensitive to the
      load that is pending there. */
  ghost predicate Undisturbed(tables: seq<seq<TranslationEntry>>, c: Cpu, at: seq<bool>)
    requires Sound(c) && |tables| == |at|
  {
    at == [] ||
    (var s := OneStep(tables[0], c);
     (at[0] ==> Restartable(tables[0], c)) && (s.outcome.Completed? ==> Undisturbed(tables[1..], s.cpu, at[1..])))
  }

  /** Such a run ends the same with its interrupts as without, however many there are. */
  lemma {:induction false} InterruptsAreInvisible(tables: seq<seq<TranslationEntry>>, c: Cpu, c': Cpu, at: seq<bool>)
    requires Sound(c) && Sound(c') && SameState(c, c') && |tables| == |at| && Undisturbed(tables, c, at)
    ensures SameButBadVAddr(Steps(tables, c', at), Steps(tables, c, Never(|at|)))
    decreases |at|
  {
    NoSteps(tables, c, c', at);
    hide *;
    if at == [] { return; }
    StepsOnce(tables, c', at);
    QuietOnce(tables, c, |at|);
    UndisturbedOnce(tables, c, at);
    OneInvisible(tables[0], c, c', at[0]);
    var s, s' := OneStep(tables[0], c), OneStep(tables[0], if at[0] then Interrupted(c') else c');
    if s.outcome.Completed? {
      InterruptsAreInvisible(tables[1..], s.cpu, s'.cpu, at[1..]);
    }
  }

  lemma NoSteps(tables: seq<seq<TranslationEntry>>, c: Cpu, c': Cpu, at: seq<bool>)
    requires Sound(c) && Sound(c') && SameState(c, c') && |tables| == |at|
    ensures at == [] ==> SameButBadVAddr(Steps(tables, c', at), Steps(tables, c, Never(|at|)))
  {
  }

  lemma StepsOnce(tables: seq<seq<TranslationEntry>>, c: Cpu, at: seq<bool>)
    requires Sound(c) && |tables| == |at| > 0
    ensures var s := OneStep(tables[0], if at[0] then Interrupted(c) else c);
      Steps(tables, c, at) == if s.outcome.Completed? then Steps(tables[1..], s.cpu, at[1..]) else s
  {
  }

  lemma QuietOnce(tables: seq<seq<TranslationEntry>>, c: Cpu, n: nat)
    requires Sound(c) && |tables| == n > 0
    ensures var s := OneStep(tables[0], c);
      Steps(tables, c, Never(n)) == if s.outcome.Completed? then Steps(tables[1..], s.cpu, Never(n - 1)) else s
  {
    assert Never(n)[1..] == Never(n - 1) && !Never(n)[0];
    StepsOnce(tables, c, Never(n));
    hide Steps, OneStep;
  }

  lemma UndisturbedOnce(tables: seq<seq<TranslationEntry>>, c: Cpu, at: seq<bool>)
    requires Sound(c) && |tables| == |at| > 0 && Undisturbed(tables, c, at)
    ensures at[0] ==> Restartable(tables[0], c)
    ensures var s := OneStep(tables[0], c); s.outcome.Completed? ==> Undisturbed(tables[1..], s.cpu, at[1..])
  {
  }

  lemma OneInvisible(table: seq<TranslationEntry>, c: Cpu, c': Cpu, interrupt: bool)
    requires Sound(c) && Sound(c') && SameState(c, c') && (interrupt ==> Restartable(table, c))
    ensures var s, s' := OneStep(table, c), OneStep(table, if interrupt then Interrupted(c') else c');
      SameButBadVAddr(s', s) && SameState(s.cpu, s'.cpu) && s'.outcome == s.outcome
  {
    if interrupt {
      InterruptedSame(c, c');
      InterruptIsTrap(c);
      hide OneStep, Restartable, AfterTrap, Interrupted;
      BadVAddrUnreadByStep(table, Interrupted(c), Interrupted(c'));
      RestartStep(table, c, c.regs[BAD_VADDR_REG]);
    } else {
      hide OneStep, Restartable, Interrupted;
      BadVAddrUnreadByStep(table, c, c');
    }
  }

  lemma InterruptedSame(c: Cpu, c': Cpu)
    requires Sound(c) && Sound(c') && SameState(c, c')
    ensures SameState(Interrupted(c), Interrupted(c'))
  {
  }

  /** Without the condition a program can tell: a load of 7 into r1 is on its way and the next
      instruction, in the delay slot of the load, copies r1 to r2. It gets the old r1, or 7 if an
      interrupt comes between the two. */
  lemma InterruptGoesWrong() returns (table: seq<TranslationEntry>, c: Cpu)
    ensures Sound(c) && OneStep(table, c).outcome == OneStep(table, Interrupted(c)).outcome == Completed
    ensures OneStep(table, c).cpu.regs[2] == 0 && OneStep(table, Interrupted(c)).cpu.regs[2] == 7
  {
    table, c := ONE_PAGE, Cpu(Start(1, 0, 7, 0, 0), Program());
    var d := Interrupted(c);
    FetchCopy();
    CopyDecodes();
    assert c.regs[1] == 0 && d.regs[1] == 7 && d.regs[PC_REG] == 0 && c.regs[0] == d.regs[0] == 0;
    assert d.regs[LOAD_REG] == 0 && c.regs[LOAD_REG] == 1;
    hide Program, Start, Decode, ReadResult, AfterLoad;
    CopyCopies(table, c);
    CopyCopies(table, d);
    hide Perform;
  }
}
