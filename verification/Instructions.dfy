/** What the instructions of machine/mipssim.cc mean: for each op code, what the registers and the
    memory hold afterwards, said without the functions of the interpreter; and the encoding that
    Instruction::Decode undoes. */
module Instructions {
  import opened Words
  import opened Collections
  import opened Memory
  import opened Mips

  // ---------------------------------------------------------------- the words of the specification

  ghost predicate Congruent(x: int, y: int) { (x - y) % WORD_LIMIT == 0 }

  predicate Bit(x: int32, k: nat) { TestBit(ToWord(x), k) }

  /** What a general register holds after any instruction that does not write it: a load that was
      pending has arrived. */
  function Settled(c: Cpu, r: Register): (v: int32)
    requires Sound(c)
  {
    if r == 0 then 0 else if r == c.regs[LOAD_REG] then c.regs[LOAD_VALUE_REG] else c.regs[r]
  }

  /** The instruction ran to its end; of the general registers it wrote at most dest, and not if the
      pending load goes there; time moves on by one delay slot. */
  ghost predicate Wrote(c: Cpu, s: Step, dest: Register)
    requires Sound(c) && Sound(s.cpu)
  {
    var r := s.cpu.regs;
    && s.outcome == Completed
    && (forall x: Register | x != dest || !Visible(c, x) :: r[x] == Settled(c, x))
    && r[PC_REG] == c.regs[NEXT_PC_REG] && r[PREV_PC_REG] == c.regs[PC_REG] && r[BAD_VADDR_REG] == c.regs[BAD_VADDR_REG]
  }

  /** A value written to the register can be seen afterwards. */
  predicate Visible(c: Cpu, r: Register)
    requires Sound(c)
  {
    r != 0 && r != c.regs[LOAD_REG]
  }

  ghost predicate SameHiLo(c: Cpu, s: Step)
    requires Sound(c) && Sound(s.cpu)
  {
    s.cpu.regs[HI_REG] == c.regs[HI_REG] && s.cpu.regs[LO_REG] == c.regs[LO_REG]
  }

  ghost predicate Queued(s: Step, r: Register, v: int32)
    requires Sound(s.cpu)
  {
    s.cpu.regs[LOAD_REG] == r && s.cpu.regs[LOAD_VALUE_REG] == v
  }

  ghost predicate GoesOn(c: Cpu, s: Step)
    requires Sound(c) && Sound(s.cpu)
  {
    Congruent(s.cpu.regs[NEXT_PC_REG], c.regs[NEXT_PC_REG] as int + 4)
  }

  /** An instruction that computes: only its destination is written. */
  ghost predicate Computes(c: Cpu, s: Step, dest: Register)
    requires Sound(c) && Sound(s.cpu)
  {
    Wrote(c, s, dest) && SameHiLo(c, s) && Queued(s, 0, 0) && GoesOn(c, s) && s.cpu.memory == c.memory
  }

  ghost predicate TrapsWith(c: Cpu, s: Step, x: ExceptionType, bad: int32)
    requires Sound(c) && Sound(s.cpu)
  {
    && s.outcome == Trap(x) && s.cpu.memory == c.memory && OnlyLoadApplied(c.regs, s.cpu.regs)
    && s.cpu.regs[BAD_VADDR_REG] == bad
  }

  // ---------------------------------------------------------------- what each op code means

  /** v is the result of a register instruction with operands a and b and shift amount k. */
  ghost predicate RdMeans(op: Opcode, a: int32, b: int32, k: nat, hi: int32, lo: int32, v: int32) {
    match op
    case ADD => v == a + b
    case SUB => v == a - b
    case ADDU => Congruent(v, a + b)
    case SUBU => Congruent(v, a - b)
    case AND => forall j | 0 <= j < 32 :: Bit(v, j) <==> Bit(a, j) && Bit(b, j)
    case OR => v == a
    case NOR => forall j | 0 <= j < 32 :: Bit(v, j) <==> !Bit(a, j) && !Bit(b, j)
    case XOR => forall j | 0 <= j < 32 :: Bit(v, j) <==> (Bit(a, j) != Bit(b, j))
    case SLT => v == if a < b then 1 else 0
    case SLTU => v == if ToWord(a) < ToWord(b) then 1 else 0
    case SLL => Congruent(v, b * Pow2(k))
    case SLLV => Congruent(v, b * Pow2(a % 32))
    case SRA | SRL => v * Pow2(k) <= b < (v + 1) * Pow2(k)
    case SRAV | SRLV => v * Pow2(a % 32) <= b < (v + 1) * Pow2(a % 32)
    case MFHI => v == hi
    case MFLO => v == lo
    case _ => false
  }

  /** v is the result of an immediate instruction. */
  ghost predicate RtMeans(op: Opcode, a: int32, x: int32, v: int32) {
    match op
    case ADDI => v == a + x
    case ADDIU => Congruent(v, a + x)
    case ANDI => forall j | 0 <= j < 32 :: Bit(v, j) <==> Bit(a, j) && j < 16 && Bit(x, j)
    case ORI => forall j | 0 <= j < 32 :: Bit(v, j) <==> Bit(a, j) || (j < 16 && Bit(x, j))
    case XORI => forall j | 0 <= j < 32 :: Bit(v, j) <==> (Bit(a, j) != (j < 16 && Bit(x, j)))
    case SLTI => v == if a < x then 1 else 0
    case SLTIU => v == if ToWord(a) < ToWord(x) then 1 else 0
    case LUI => Congruent(v, x * 0x1_0000)
    case _ => false
  }

  /** hi and lo are what the instruction leaves in Hi and Lo, which held h and l. */
  ghost predicate HiLoMeans(op: Opcode, a: int32, b: int32, h: int32, l: int32, hi: int32, lo: int32) {
    match op
    case MTHI => hi == a && lo == l
    case MTLO => hi == h && lo == a
    case MULT => hi as int * WORD_LIMIT + ToWord(lo) == a as int * b as int
    case MULTU => ToWord(hi) * WORD_LIMIT + ToWord(lo) == ToWord(a) as int * ToWord(b) as int
    case DIV =>
      if b == 0 then hi == lo == 0
      else !(a == -INT_LIMIT && b == -1) ==>
        && lo as int * b as int + hi as int == a as int && Abs(hi) < Abs(b) && (hi == 0 || (hi < 0 <==> a < 0))
    case DIVU =>
      if b == 0 then hi == lo == 0
      else ToWord(lo) as int * ToWord(b) as int + ToWord(hi) as int == ToWord(a) as int && ToWord(hi) < ToWord(b)
    case _ => false
  }

  /** Whether a branch on a and b is taken. */
  predicate Taken(op: Opcode, a: int32, b: int32) {
    match op
    case BEQ => a == b
    case BNE => a != b
    case BGTZ => a > 0
    case BLEZ => a <= 0
    case BGEZ | BGEZAL => a >= 0
    case BLTZ | BLTZAL => a < 0
    case _ => false
  }

  /** Control goes to the target after the delay slot, link is the address after that slot. */
  ghost predicate JumpMeans(i: Instruction, a: int32, b: int32, link: int32, nextPC: int32, target: int32) {
    match i.op
    case BEQ | BNE | BGTZ | BLEZ | BGEZ | BLTZ =>
      Congruent(target, nextPC + if Taken(i.op, a, b) then 4 * i.extra else 4)
    case BGEZAL | BLTZAL =>
      Congruent(target, nextPC + if Taken(i.op, if i.rs == 31 then link else a, b) then 4 * i.extra else 4)
    case J | JAL =>
      ToWord(target) % 0x1000_0000 == 4 * i.extra && ToWord(target) / 0x1000_0000 == ToWord(link) / 0x1000_0000
    case JR => target == a
    case JALR => target == if i.rs == i.rd then link else a
    case _ => false
  }

  /** The register that gets the return address, or none. */
  function LinkRegister(i: Instruction): (r: Register) {
    if i.op == JAL || i.op == BGEZAL || i.op == BLTZAL then 31 else if i.op == JALR then i.rd else 0
  }

  function LoadWidth(op: Opcode): (n: Width) {
    if op == LB || op == LBU then 1 else if op == LH || op == LHU then 2 else 4
  }

  /** w is what a load makes of the bytes at physical address p; m is the value it is merged with. */
  ghost predicate LoadMeans(op: Opcode, memory: seq<byte>, p: nat, m: int32, w: int32)
    requires p + LoadWidth(op) <= |memory|
  {
    match op
    case LB => -128 <= w < 128 && (w - memory[p]) % 256 == 0
    case LBU => w == memory[p]
    case LH => -0x8000 <= w < 0x8000 && (w - (memory[p] as int + 256 * memory[p + 1] as int)) % 0x1_0000 == 0
    case LHU => w == memory[p] as int + 256 * memory[p + 1] as int
    case LW | LWL => ToWord(w) == BytesToWord(memory[p..p + 4])
    case LWR => ToWord(w) / 256 == ToWord(m) / 256 && ToWord(w) % 256 == memory[p + 3]
    case _ => false
  }

  function StoreWidth(op: Opcode): (n: Width) {
    if op == SB then 1 else if op == SH then 2 else 4
  }

  /** The bytes at p afterwards, when b is stored. */
  ghost predicate StoreMeans(op: Opcode, before: seq<byte>, p: nat, b: int32, after: seq<byte>)
    requires p + StoreWidth(op) <= |before| == |after|
  {
    && (forall q | 0 <= q < |before| && !(p <= q < p + StoreWidth(op)) :: after[q] == before[q])
    && match op
       case SB => after[p] == ToWord(b) % 256
       case SH => after[p] as int + 256 * after[p + 1] as int == ToWord(b) % 0x1_0000
       case SW | SWL => BytesToWord(after[p..p + 4]) == ToWord(b)
       case SWR => after[p..p + 3] == before[p..p + 3] && after[p + 3] == ToWord(b) % 256
       case _ => false
  }

  /** A load or store at an address that must be a multiple of its width; LWL, LWR, SWL and SWR stop
      the simulator where the others trap. */
  ghost predicate LoadEnds(table: seq<TranslationEntry>, c: Cpu, i: Instruction, s: Step)
    requires Sound(c) && Sound(s.cpu)
  {
    var addr, n := Wrap(c.regs[i.rs] + i.extra), LoadWidth(i.op);
    var m := if c.regs[LOAD_REG] == i.rt then c.regs[LOAD_VALUE_REG] else c.regs[i.rt];
    if (i.op == LWL || i.op == LWR) && addr % 4 != 0 then s == Step(Halted, c)
    else
      match Translate(table, addr, n, false)
      case Fault(x) => TrapsWith(c, s, x, addr)
      case Physical(p) =>
        && Wrote(c, s, 0) && SameHiLo(c, s) && GoesOn(c, s) && s.cpu.memory == c.memory
        && 0 <= p && p + n <= MEMORY_SIZE && s.cpu.regs[LOAD_REG] == i.rt
        && LoadMeans(i.op, c.memory, p, m, s.cpu.regs[LOAD_VALUE_REG])
  }

  ghost predicate StoreEnds(table: seq<TranslationEntry>, c: Cpu, i: Instruction, s: Step)
    requires Sound(c) && Sound(s.cpu)
  {
    var addr, n := Wrap(c.regs[i.rs] + i.extra), StoreWidth(i.op);
    var merging := i.op == SWL || i.op == SWR;
    if merging && addr % 4 != 0 then s == Step(Halted, c)
    else if merging && Translate(table, addr, n, false).Fault? then TrapsWith(c, s, Translate(table, addr, n, false).exception, addr)
    else
      match Translate(table, addr, n, true)
      case Fault(x) => TrapsWith(c, s, x, addr)
      case Physical(p) =>
        && Wrote(c, s, 0) && SameHiLo(c, s) && GoesOn(c, s) && Queued(s, 0, 0)
        && 0 <= p && p + n <= MEMORY_SIZE && StoreMeans(i.op, c.memory, p, c.regs[i.rt], s.cpu.memory)
  }

  ghost predicate RdEnds(c: Cpu, i: Instruction, s: Step)
    requires Sound(c) && Sound(s.cpu) && Executable(i)
  {
    var a, b := c.regs[i.rs] as int, c.regs[i.rt] as int;
    if (i.op == ADD && !Fits(a + b)) || (i.op == SUB && !Fits(a - b)) then TrapsWith(c, s, Overflow, 0)
    else
      && Computes(c, s, i.rd)
      && (Visible(c, i.rd) ==>
            RdMeans(i.op, a, b, if Shift(i.op) then i.extra else 0, c.regs[HI_REG], c.regs[LO_REG], s.cpu.regs[i.rd]))
  }

  ghost predicate RtEnds(c: Cpu, i: Instruction, s: Step)
    requires Sound(c) && Sound(s.cpu)
  {
    var a, x := c.regs[i.rs] as int, i.extra as int;
    if i.op == ADDI && !Fits(a + x) then TrapsWith(c, s, Overflow, 0)
    else Computes(c, s, i.rt) && (Visible(c, i.rt) ==> RtMeans(i.op, a, x, s.cpu.regs[i.rt]))
  }

  ghost predicate HiLoEnds(c: Cpu, i: Instruction, s: Step)
    requires Sound(c) && Sound(s.cpu)
  {
    && Wrote(c, s, 0) && Queued(s, 0, 0) && GoesOn(c, s) && s.cpu.memory == c.memory
    && HiLoMeans(i.op, c.regs[i.rs], c.regs[i.rt], c.regs[HI_REG], c.regs[LO_REG], s.cpu.regs[HI_REG], s.cpu.regs[LO_REG])
  }

  ghost predicate JumpEnds(c: Cpu, i: Instruction, s: Step)
    requires Sound(c) && Sound(s.cpu)
  {
    var r, link, pc := LinkRegister(i), Wrap(c.regs[NEXT_PC_REG] as int + 4), c.regs[NEXT_PC_REG];
    && Wrote(c, s, r) && SameHiLo(c, s) && Queued(s, 0, 0) && s.cpu.memory == c.memory
    && (Visible(c, r) ==> s.cpu.regs[r] == link)
    && JumpMeans(i, c.regs[i.rs], c.regs[i.rt], link, pc, s.cpu.regs[NEXT_PC_REG])
  }

  /** What the instruction makes of the state. */
  ghost predicate Means(table: seq<TranslationEntry>, c: Cpu, i: Instruction, s: Step)
    requires Sound(c) && Sound(s.cpu) && Executable(i)
  {
    match i.op
    case ADD | SUB | ADDU | SUBU | AND | OR | NOR | XOR | SLT | SLTU | SLL | SLLV | SRA | SRL | SRAV | SRLV | MFHI | MFLO =>
      RdEnds(c, i, s)
    case ADDI | ADDIU | ANDI | ORI | XORI | SLTI | SLTIU | LUI => RtEnds(c, i, s)
    case MTHI | MTLO | MULT | MULTU | DIV | DIVU => HiLoEnds(c, i, s)
    case BEQ | BNE | BGTZ | BLEZ | BGEZ | BLTZ | BGEZAL | BLTZAL | J | JAL | JR | JALR => JumpEnds(c, i, s)
    case LB | LBU | LH | LHU | LW | LWL | LWR => LoadEnds(table, c, i, s)
    case SB | SH | SW | SWL | SWR => StoreEnds(table, c, i, s)
    case SYSCALL => TrapsWith(c, s, Syscall, 0)
    case UNIMP | RES => TrapsWith(c, s, IllegalInstr, 0)
    case _ => false
  }

  // ---------------------------------------------------------------- the interpreter does that

  lemma FinishEnds(table: seq<TranslationEntry>, c: Cpu, i: Instruction)
    requires Sound(c) && Executable(i) && Execute(i, OperandsOf(i, c.regs), table, c.memory).Finish?
    ensures var e, s := Execute(i, OperandsOf(i, c.regs), table, c.memory), Perform(table, c, i);
      && Wrote(c, s, e.dest) && (Visible(c, e.dest) ==> s.cpu.regs[e.dest] == e.value)
      && s.cpu.regs[HI_REG] == e.hi && s.cpu.regs[LO_REG] == e.lo && Queued(s, e.loadReg, e.loadValue)
      && s.cpu.regs[NEXT_PC_REG] == e.pcAfter && s.cpu.memory == Saved(table, c.memory, e.save)
  {
    hide Execute, OperandsOf, Executable, Saved;
  }

  lemma RaiseEnds(table: seq<TranslationEntry>, c: Cpu, i: Instruction)
    requires Sound(c) && Executable(i) && Execute(i, OperandsOf(i, c.regs), table, c.memory).Raise?
    ensures var e, s := Execute(i, OperandsOf(i, c.regs), table, c.memory), Perform(table, c, i);
      TrapsWith(c, s, e.exception, e.badVAddr)
  {
    hide Execute, OperandsOf, Executable, Saved;
  }

  lemma HaltEnds(table: seq<TranslationEntry>, c: Cpu, i: Instruction)
    requires Sound(c) && Executable(i) && Execute(i, OperandsOf(i, c.regs), table, c.memory).Assertion?
    ensures Perform(table, c, i) == Step(Halted, c)
  {
    hide Execute, OperandsOf, Executable;
  }

  // ---------------------------------------------------------------- bits and shifts

  lemma AndBits(a: int32, b: int32, j: nat)
    ensures Bit(And(a, b), j) <==> Bit(a, j) && Bit(b, j)
  {
    BitwiseBits(ToWord(a), ToWord(b), j);
  }

  lemma OrBits(a: int32, b: int32, j: nat)
    ensures Bit(Or(a, b), j) <==> Bit(a, j) || Bit(b, j)
  {
    BitwiseBits(ToWord(a), ToWord(b), j);
  }

  lemma XorBits(a: int32, b: int32, j: nat)
    ensures Bit(Xor(a, b), j) <==> (Bit(a, j) != Bit(b, j))
  {
    var x, y := ToWord(a), ToWord(b);
    Pow2Word(); BitwiseBound(x, y, 32); BitwiseBound(y, x, 32);
    var p, q := ToInt(BitAndNot(x, y)), ToInt(BitAndNot(y, x));
    OrBits(p, q, j);
    BitwiseBits(x, y, j);
    BitwiseBits(y, x, j);
    hide Or;
  }

  lemma OrSelf(a: int32)
    ensures Or(a, a) == a
  {
    BitwiseSelf(ToWord(a));
  }

  lemma {:induction false} ComplementBits(w: nat, n: nat, j: nat)
    requires w < Pow2(n) && j < n
    ensures TestBit(Pow2(n) - 1 - w, j) <==> !TestBit(w, j)
  {
    var v := Pow2(n) - 1 - w;
    assert v % 2 == 1 - w % 2 && v / 2 == Pow2(n - 1) - 1 - w / 2;
    if j > 0 { ComplementBits(w / 2, n - 1, j - 1); }
  }

  lemma NotBits(x: int32, j: nat)
    requires j < 32
    ensures Bit(-1 - x, j) <==> !Bit(x, j)
  {
    Pow2Word();
    assert ToWord(-1 - x) == WORD_LIMIT - 1 - ToWord(x);
    ComplementBits(ToWord(x), 32, j);
  }

  lemma {:induction false} LowBits(w: nat, n: nat, j: nat)
    ensures TestBit(w % Pow2(n), j) <==> j < n && TestBit(w, j)
  {
    if n == 0 {
      ZeroHasNoBits(j);
    } else {
      HalfOfLow(w, Pow2(n - 1));
      if j > 0 { LowBits(w / 2, n - 1, j - 1); }
    }
  }

  lemma HalfOfLow(w: nat, p: nat)
    requires p > 0
    ensures w % (2 * p) / 2 == w / 2 % p && w % (2 * p) % 2 == w % 2
  {
    var q, r := w / (2 * p), w % (2 * p);
    assert w == 2 * (q * p) + r;
    assert w / 2 == q * p + r / 2;
    Residue(w / 2, p, q, r / 2);
  }

  lemma Residue(x: nat, p: nat, q: nat, r: nat)
    requires p > 0 && x == q * p + r && r < p
    ensures x % p == r
  {
    var q', r' := x / p, x % p;
    assert x == q' * p + r';
    assert (q - q') * p == r' - r;
    SmallMultiple(q - q', p);
  }

  lemma SmallMultiple(d: int, p: int)
    requires -p < d * p < p
    ensures d == 0
  {
    if d > 0 { Grows(p, d); }
    if d < 0 { Grows(p, -d); NegatedFactor(d, p); }
  }

  lemma LowHalfBits(x: int32, j: nat)
    ensures Bit(LowHalfOf(x), j) <==> j < 16 && Bit(x, j)
  {
    Pow2Word();
    LowBits(ToWord(x), 16, j);
  }

  lemma {:induction false} ShiftRightIsFloor(x: int32, k: nat)
    ensures var v := ShiftRight(x, k); v * Pow2(k) <= x < (v + 1) * Pow2(k)
    decreases k
  {
    if k > 0 {
      ShiftRightIsFloor(x / 2, k - 1);
      FloorOfHalf(x, ShiftRight(x / 2, k - 1), Pow2(k - 1));
    }
  }

  lemma FloorOfHalf(x: int, v: int, p: int)
    requires v * p <= x / 2 < (v + 1) * p
    ensures v * (2 * p) <= x < (v + 1) * (2 * p)
  {
    Doubled(v, p);
    Doubled(v + 1, p);
    HalfOf(x, v * p, (v + 1) * p);
  }

  lemma Doubled(v: int, p: int)
    ensures v * (2 * p) == 2 * (v * p)
  {
  }

  lemma HalfOf(x: int, a: int, b: int)
    requires a <= x / 2 < b
    ensures 2 * a <= x < 2 * b
  {
  }

  lemma ShiftAmount(a: int32)
    ensures ToWord(a) % 32 == a as int % 32
  {
  }

  lemma WrapIsCongruent(x: int)
    ensures Congruent(Wrap(x), x)
  {
    assert (x - Wrap(x)) % 0x1_0000_0000 == 0;
    Opposite(x - Wrap(x));
  }

  lemma Opposite(d: int)
    requires d % 0x1_0000_0000 == 0
    ensures (-d) % 0x1_0000_0000 == 0
  {
  }

  // ---------------------------------------------------------------- group by group

  lemma SumMeans(op: Opcode, a: int32, b: int32, k: nat, hi: int32, lo: int32)
    requires op in {ADD, ADDU, SUB, SUBU} && (op == ADD ==> Fits(a + b)) && (op == SUB ==> Fits(a - b))
    ensures RdMeans(op, a, b, k, hi, lo, RdValue(op, a, b, k, hi, lo))
  {
    OverflowIsExact(a, b);
    WrapIsCongruent(a + b);
    WrapIsCongruent(a - b);
    hide Wrap, And, Or, Xor, AddOverflows, AddImmediateOverflows, SubOverflows;
  }

  lemma LogicMeans(op: Opcode, a: int32, b: int32, k: nat, hi: int32, lo: int32)
    requires op in {AND, OR, NOR, XOR}
    ensures RdMeans(op, a, b, k, hi, lo, RdValue(op, a, b, k, hi, lo))
  {
    hide And, Or, Xor, Bit;
    OrSelf(a);
    var v := RdValue(op, a, b, k, hi, lo);
    forall j | 0 <= j < 32
      ensures op == AND ==> (Bit(v, j) <==> Bit(a, j) && Bit(b, j))
      ensures op == NOR ==> (Bit(v, j) <==> !Bit(a, j) && !Bit(b, j))
      ensures op == XOR ==> (Bit(v, j) <==> (Bit(a, j) != Bit(b, j)))
    {
      AndBits(a, b, j);
      OrBits(a, b, j);
      NotBits(Or(a, b), j);
      XorBits(a, b, j);
    }
  }

  lemma ShiftMeans(op: Opcode, a: int32, b: int32, k: nat, hi: int32, lo: int32)
    requires op in {SLL, SLLV, SRA, SRL, SRAV, SRLV}
    ensures RdMeans(op, a, b, k, hi, lo, RdValue(op, a, b, k, hi, lo))
  {
    ShiftAmount(a);
    hide ShiftRight, Wrap, ToWord, Pow2, Congruent;
    var n := if op in {SLL, SRA, SRL} then k else a as int % 32;
    ShiftRightIsFloor(b, n);
    WrapIsCongruent(b * Pow2(n));
  }

  lemma RdValueMeans(op: Opcode, a: int32, b: int32, k: nat, hi: int32, lo: int32)
    requires GroupOf(op) == ToRd && (op == ADD ==> Fits(a + b)) && (op == SUB ==> Fits(a - b))
    ensures RdMeans(op, a, b, k, hi, lo, RdValue(op, a, b, k, hi, lo))
  {
    if op in {ADD, ADDU, SUB, SUBU} {
      SumMeans(op, a, b, k, hi, lo);
    } else if op in {AND, OR, NOR, XOR} {
      LogicMeans(op, a, b, k, hi, lo);
    } else if op in {SLL, SLLV, SRA, SRL, SRAV, SRLV} {
      ShiftMeans(op, a, b, k, hi, lo);
    }
    hide And, Or, Xor, Plus, Minus, ShiftLeft, ShiftRight, Pow2, Congruent, Bit;
  }

  lemma RdEffect(i: Instruction, o: Operands)
    requires Executable(i) && GroupOf(i.op) == ToRd
    ensures var e, k := RegisterOp(i, o), if Shift(i.op) then i.extra else 0;
      if (i.op == ADD && !Fits(o.rs + o.rt)) || (i.op == SUB && !Fits(o.rs - o.rt)) then e == Raise(Overflow, 0)
      else
        && e == Finish(i.rd, RdValue(i.op, o.rs, o.rt, k, o.hi, o.lo), o.hi, o.lo, 0, 0, Wrap(o.nextPC as int + 4), None)
        && RdMeans(i.op, o.rs, o.rt, k, o.hi, o.lo, e.value)
  {
    hide AddOverflows, AddImmediateOverflows, SubOverflows, RdValue, RdMeans, Wrap, Next;
    OverflowIsExact(o.rs, o.rt);
    NextIs(o);
    var k := if Shift(i.op) then i.extra else 0;
    if !((i.op == ADD && !Fits(o.rs + o.rt)) || (i.op == SUB && !Fits(o.rs - o.rt))) {
      RdValueMeans(i.op, o.rs, o.rt, k, o.hi, o.lo);
    }
  }

  lemma OperandsAre(i: Instruction, regs: seq<int32>)
    requires |regs| == NUM_TOTAL_REGS
    ensures var o := OperandsOf(i, regs);
      && o.rs == regs[i.rs] && o.rt == regs[i.rt] && o.hi == regs[HI_REG] && o.lo == regs[LO_REG]
      && o.nextPC == regs[NEXT_PC_REG]
      && o.merged == if regs[LOAD_REG] == i.rt then regs[LOAD_VALUE_REG] else regs[i.rt]
  {
  }

  lemma ExecuteIs(i: Instruction, o: Operands, table: seq<TranslationEntry>, memory: seq<byte>)
    requires Executable(i) && |memory| == MEMORY_SIZE
    ensures Execute(i, o, table, memory) ==
      match GroupOf(i.op)
      case ToRd => RegisterOp(i, o)
      case ToRt => ImmediateOp(i, o)
      case ToHiLo => HiLoOp(i, o)
      case Jumps => JumpOp(i, o)
      case Loads => LoadOp(i, o, table, memory)
      case Stores => StoreOp(i, o, table, memory)
      case Traps => if i.op == SYSCALL then Raise(Syscall, 0) else Raise(IllegalInstr, 0)
  {
    hide RegisterOp, ImmediateOp, HiLoOp, JumpOp, LoadOp, StoreOp, GroupOf, Executable;
  }

  lemma RdLaw(table: seq<TranslationEntry>, c: Cpu, i: Instruction)
    requires Sound(c) && Executable(i) && GroupOf(i.op) == ToRd
    ensures RdEnds(c, i, Perform(table, c, i))
  {
    hide Execute, OperandsOf, GroupOf, RegisterOp, RdValue, RdMeans, Perform, Wrap, Wrote, TrapsWith, Congruent;
    var o := OperandsOf(i, c.regs);
    OperandsAre(i, c.regs);
    ExecuteIs(i, o, table, c.memory);
    RdEffect(i, o);
    WrapIsCongruent(c.regs[NEXT_PC_REG] as int + 4);
    if Execute(i, o, table, c.memory).Finish? { FinishEnds(table, c, i); } else { RaiseEnds(table, c, i); }
  }

  lemma ImmediateMeans(op: Opcode, a: int32, x: int32)
    requires op in {ANDI, ORI, XORI}
    ensures RtMeans(op, a, x, if op == ANDI then And(a, LowHalfOf(x)) else if op == ORI then Or(a, LowHalfOf(x)) else Xor(a, LowHalfOf(x)))
  {
    hide And, Or, Xor, Bit, LowHalfOf;
    var h := LowHalfOf(x);
    forall j | 0 <= j < 32
      ensures Bit(And(a, h), j) <==> Bit(a, j) && j < 16 && Bit(x, j)
      ensures Bit(Or(a, h), j) <==> Bit(a, j) || (j < 16 && Bit(x, j))
      ensures Bit(Xor(a, h), j) <==> (Bit(a, j) != (j < 16 && Bit(x, j)))
    {
      LowHalfBits(x, j);
      AndBits(a, h, j);
      OrBits(a, h, j);
      XorBits(a, h, j);
    }
  }

  lemma RtEffect(i: Instruction, o: Operands)
    requires GroupOf(i.op) == ToRt
    ensures var e := ImmediateOp(i, o);
      if i.op == ADDI && !Fits(o.rs + i.extra) then e == Raise(Overflow, 0)
      else
        && e.Finish? && e == Finish(i.rt, e.value, o.hi, o.lo, 0, 0, Wrap(o.nextPC as int + 4), None)
        && RtMeans(i.op, o.rs, i.extra, e.value)
  {
    hide AddOverflows, AddImmediateOverflows, SubOverflows, Wrap, And, Or, Xor, Bit, LowHalfOf, Congruent, ToWord, Next;
    NextIs(o);
    OverflowIsExact(o.rs, i.extra);
    WrapIsCongruent(o.rs + i.extra);
    WrapIsCongruent(i.extra * 0x1_0000);
    if i.op in {ANDI, ORI, XORI} { ImmediateMeans(i.op, o.rs, i.extra); }
  }

  lemma RtLaw(table: seq<TranslationEntry>, c: Cpu, i: Instruction)
    requires Sound(c) && Executable(i) && GroupOf(i.op) == ToRt
    ensures RtEnds(c, i, Perform(table, c, i))
  {
    hide Execute, OperandsOf, GroupOf, ImmediateOp, RtMeans, Perform, Wrap, Wrote, TrapsWith, Congruent;
    var o := OperandsOf(i, c.regs);
    OperandsAre(i, c.regs);
    ExecuteIs(i, o, table, c.memory);
    RtEffect(i, o);
    WrapIsCongruent(c.regs[NEXT_PC_REG] as int + 4);
    if Execute(i, o, table, c.memory).Finish? { FinishEnds(table, c, i); } else { RaiseEnds(table, c, i); }
  }

  lemma WordOfWrap(w: word)
    ensures ToWord(Wrap(w)) == w
  {
  }

  lemma UnsignedProduct(a: int32, b: int32)
    ensures var p := ToWord(a) as int * ToWord(b) as int; ToWord(High(p)) * WORD_LIMIT + ToWord(Low(p)) == p
  {
    var x, y := ToWord(a) as int, ToWord(b) as int;
    var p := x * y;
    BelowSquare(x, y);
    hide ToWord;
    assert p == p / WORD_LIMIT * WORD_LIMIT + p % WORD_LIMIT;
    WordOfWrap(p / WORD_LIMIT);
    WordOfWrap(p % WORD_LIMIT);
  }

  lemma BelowSquare(x: nat, y: nat)
    requires x < 0x1_0000_0000 && y < 0x1_0000_0000
    ensures 0 <= x * y && x * y / 0x1_0000_0000 < 0x1_0000_0000
  {
    assert x * y <= x * 0xFFFF_FFFF;
  }

  lemma UnsignedQuotient(a: word, b: word)
    requires b != 0
    ensures var q, r := Quotient(a, b), Remainder(a, b);
      0 <= q < WORD_LIMIT && 0 <= r < WORD_LIMIT && q * b + r == a && r < b
  {
    hide Quotient, Remainder;
    QuotientOfWords(a, b);
    DivisionIdentity(a, b);
  }

  lemma QuotientOfWords(a: word, b: word)
    requires b != 0
    ensures 0 <= Quotient(a, b) <= a && 0 <= Remainder(a, b)
  {
    DivisionShrinks(a, b);
  }

  lemma HiLoEffect(i: Instruction, o: Operands)
    requires GroupOf(i.op) == ToHiLo
    ensures var e := HiLoOp(i, o);
      && e.Finish? && e == Finish(0, 0, e.hi, e.lo, 0, 0, Wrap(o.nextPC as int + 4), None)
      && HiLoMeans(i.op, o.rs, o.rt, o.hi, o.lo, e.hi, e.lo)
  {
    var a, b := o.rs, o.rt;
    if i.op == MULT {
      ProductFits(a, b);
      WordsOfProduct(a as int * b as int);
    } else if i.op == MULTU {
      UnsignedProduct(a, b);
    } else if i.op == DIV {
      SignedDivision(a, b);
    } else if i.op == DIVU {
      UnsignedDivision(a, b);
    }
    hide High, Low, ToWord, Wrap, Quotient, Remainder, Abs;
  }

  lemma SignedDivision(a: int32, b: int32)
    ensures b != 0 && !(a == -INT_LIMIT && b == -1) ==>
      var lo, hi := Wrap(Quotient(a, b)), Wrap(Remainder(a, b));
      lo as int * b as int + hi as int == a as int && Abs(hi) < Abs(b) && (hi == 0 || (hi < 0 <==> a < 0))
  {
    hide Quotient, Remainder, Wrap, Abs;
    if b != 0 && !(a == -INT_LIMIT && b == -1) {
      DivisionIdentity(a, b);
      QuotientFits(a, b);
    }
  }

  lemma UnsignedDivision(a: int32, b: int32)
    ensures b != 0 ==>
      && ToWord(b) != 0
      && var lo, hi := Wrap(Quotient(ToWord(a), ToWord(b))), Wrap(Remainder(ToWord(a), ToWord(b)));
      ToWord(lo) as int * ToWord(b) as int + ToWord(hi) as int == ToWord(a) as int && ToWord(hi) < ToWord(b)
  {
    if b != 0 {
      UnsignedQuotient(ToWord(a), ToWord(b));
      WordOfWrap(Quotient(ToWord(a), ToWord(b)));
      WordOfWrap(Remainder(ToWord(a), ToWord(b)));
      hide Quotient, Remainder, Wrap;
    }
  }

  lemma HiLoLaw(table: seq<TranslationEntry>, c: Cpu, i: Instruction)
    requires Sound(c) && Executable(i) && GroupOf(i.op) == ToHiLo
    ensures HiLoEnds(c, i, Perform(table, c, i))
  {
    hide Execute, OperandsOf, GroupOf, HiLoOp, HiLoMeans, Perform, Wrap, Wrote, Congruent;
    var o := OperandsOf(i, c.regs);
    OperandsAre(i, c.regs);
    ExecuteIs(i, o, table, c.memory);
    HiLoEffect(i, o);
    WrapIsCongruent(c.regs[NEXT_PC_REG] as int + 4);
    FinishEnds(table, c, i);
  }

  lemma TargetOfJump(o: Operands, i: Instruction)
    requires 0 <= i.extra < 0x400_0000
    ensures var t, link := JumpTarget(o, i), Wrap(o.nextPC as int + 4);
      ToWord(t) % 0x1000_0000 == 4 * i.extra && ToWord(t) / 0x1000_0000 == ToWord(link) / 0x1000_0000
  {
    var w := ToWord(Wrap(o.nextPC as int + 4));
    HighPart(w, 4 * i.extra);
    WordOfWrap(w - w % 0x1000_0000 + 4 * i.extra);
    hide ToWord, Wrap;
  }

  lemma HighPart(w: word, x: nat)
    requires x < 0x1000_0000
    ensures var t := w - w % 0x1000_0000 + x;
      0 <= t < 0x1_0000_0000 && t % 0x1000_0000 == x && t / 0x1000_0000 == w / 0x1000_0000
  {
    var q := w / 0x1000_0000;
    assert w - w % 0x1000_0000 == 0x1000_0000 * q && q < 16;
  }

  lemma BranchTargets(o: Operands, i: Instruction, taken: bool)
    ensures Congruent(BranchTarget(o, i, taken), o.nextPC as int + if taken then 4 * i.extra as int else 4)
  {
    var y := 4 * i.extra as int;
    WrapIsCongruent(y);
    WrapIsCongruent(o.nextPC as int + Wrap(y));
    WrapIsCongruent(o.nextPC as int + 4);
    hide Wrap;
    SumOfCongruent(Wrap(o.nextPC as int + Wrap(y)), o.nextPC, Wrap(y), y);
  }

  lemma SumOfCongruent(t: int, n: int, x: int, y: int)
    requires (t - (n + x)) % 0x1_0000_0000 == 0 && (x - y) % 0x1_0000_0000 == 0
    ensures (t - (n + y)) % 0x1_0000_0000 == 0
  {
  }

  lemma JumpShape(i: Instruction, o: Operands)
    requires GroupOf(i.op) == Jumps
    ensures var e := JumpOp(i, o);
      && e.Finish? && e == Finish(LinkRegister(i), e.value, o.hi, o.lo, 0, 0, e.pcAfter, None)
      && (LinkRegister(i) != 0 ==> e.value == Wrap(o.nextPC as int + 4))
  {
    hide BranchTarget, JumpTarget, Wrap, Next;
    NextIs(o);
  }

  lemma BranchEffect(i: Instruction, o: Operands)
    requires i.op in {BEQ, BNE, BGTZ, BLEZ, BGEZ, BLTZ, BGEZAL, BLTZAL} && JumpOp(i, o).Finish?
    ensures JumpMeans(i, o.rs, o.rt, Wrap(o.nextPC as int + 4), o.nextPC, JumpOp(i, o).pcAfter)
  {
    hide BranchTarget, JumpTarget, Congruent, ToWord, Wrap, Next;
    NextIs(o);
    BranchTargets(o, i, true);
    BranchTargets(o, i, false);
  }

  lemma JumpEffect(i: Instruction, o: Operands)
    requires Executable(i) && GroupOf(i.op) == Jumps && JumpOp(i, o).Finish?
    ensures JumpMeans(i, o.rs, o.rt, Wrap(o.nextPC as int + 4), o.nextPC, JumpOp(i, o).pcAfter)
  {
    hide BranchTarget, JumpTarget, Congruent, ToWord, Wrap, Next;
    NextIs(o);
    if i.op == J || i.op == JAL { TargetOfJump(o, i); }
    else if i.op != JR && i.op != JALR { BranchEffect(i, o); }
  }

  lemma NextIs(o: Operands)
    ensures Next(o) == Wrap(o.nextPC as int + 4)
  {
  }

  lemma JumpLaw(table: seq<TranslationEntry>, c: Cpu, i: Instruction)
    requires Sound(c) && Executable(i) && GroupOf(i.op) == Jumps
    ensures JumpEnds(c, i, Perform(table, c, i))
  {
    hide Execute, OperandsOf, GroupOf, JumpOp, JumpMeans, LinkRegister, Perform, Wrap, Wrote;
    var o := OperandsOf(i, c.regs);
    OperandsAre(i, c.regs);
    ExecuteIs(i, o, table, c.memory);
    JumpShape(i, o);
    JumpEffect(i, o);
    FinishEnds(table, c, i);
  }

  // ---------------------------------------------------------------- loads and stores

  lemma Alignment(x: int32)
    ensures ToWord(x) % 2 == x as int % 2 && ToWord(x) % 4 == x as int % 4
  {
  }

  lemma ByteReading(x: byte)
    ensures var v: int32 := if x < 128 then x else x - 256; ToWord(v) % 256 == x
  {
  }

  lemma ByteMeans(op: Opcode, memory: seq<byte>, p: nat, m: int32)
    requires (op == LB || op == LBU) && p < |memory|
    ensures LoadMeans(op, memory, p, m, Loaded(op, Load(memory, p, 1), m))
  {
    ByteReading(memory[p]);
    hide ToWord;
  }

  lemma HalfMeans(op: Opcode, memory: seq<byte>, p: nat, m: int32)
    requires (op == LH || op == LHU) && p + 2 <= |memory|
    ensures LoadMeans(op, memory, p, m, Loaded(op, Load(memory, p, 2), m))
  {
  }

  lemma TopByte(b: seq<byte>)
    requires |b| == 4
    ensures BytesToWord(b) / 0x100_0000 == b[3] && BytesToWord(b) % 0x100_0000 == b[0] as int + 256 * (b[1] as int) + 65536 * (b[2] as int)
  {
    var low := b[0] as int + 256 * (b[1] as int) + 65536 * (b[2] as int);
    assert BytesToWord(b) == 0x100_0000 * (b[3] as int) + low && 0 <= low < 0x100_0000;
    hide BytesToWord;
  }

  lemma LowByteReplaced(w: word, x: byte)
    ensures var t := w - w % 256 + x; 0 <= t < 0x1_0000_0000 && t / 256 == w / 256 && t % 256 == x
  {
    var q := w / 256;
    assert w - w % 256 == 256 * q;
  }

  lemma WordMeans(op: Opcode, memory: seq<byte>, p: nat, m: int32)
    requires op in {LW, LWL, LWR} && p + 4 <= |memory|
    ensures LoadMeans(op, memory, p, m, Loaded(op, Load(memory, p, 4), m))
  {
    hide ToWord, Wrap, BytesToWord;
    var b := memory[p..p + 4];
    TopByte(b);
    LowByteReplaced(ToWord(m), b[3]);
    WordOfWrap(ToWord(m) - ToWord(m) % 256 + b[3]);
  }

  lemma LoadedMeans(op: Opcode, memory: seq<byte>, p: nat, m: int32)
    requires GroupOf(op) == Loads && p + LoadWidth(op) <= |memory|
    ensures LoadMeans(op, memory, p, m, Loaded(op, Load(memory, p, LoadWidth(op)), m))
  {
    hide LoadMeans, Loaded, Load;
    if op in {LW, LWL, LWR} { WordMeans(op, memory, p, m); } else if op == LB || op == LBU { ByteMeans(op, memory, p, m); } else { HalfMeans(op, memory, p, m); }
  }

  /** A load gets to memory where its address translates, and otherwise traps, or stops. */
  lemma LoadShape(i: Instruction, o: Operands, table: seq<TranslationEntry>, memory: seq<byte>)
    requires |memory| == MEMORY_SIZE && GroupOf(i.op) == Loads
    ensures var addr, n, e := Wrap(o.rs + i.extra), LoadWidth(i.op), LoadOp(i, o, table, memory);
      if (i.op == LWL || i.op == LWR) && addr as int % 4 != 0 then e == Assertion
      else
        match Translate(table, addr, n, false)
        case Fault(x) => e == Raise(x, addr)
        case Physical(p) =>
          && 0 <= p && p + n <= MEMORY_SIZE
          && e == Finish(0, 0, o.hi, o.lo, i.rt, Loaded(i.op, Load(memory, p, n), o.merged), Wrap(o.nextPC as int + 4), None)
  {
    hide Wrap, Next, Loaded, Load, ToWord;
    var addr, n := Wrap(o.rs + i.extra), LoadWidth(i.op);
    NextIs(o);
    Alignment(addr);
    if Translate(table, addr, n, false).Physical? { AccessStaysInFrame(table, addr, n, false); }
    assert Plus(o.rs, i.extra) == addr;
  }

  lemma LoadLaw(table: seq<TranslationEntry>, c: Cpu, i: Instruction)
    requires Sound(c) && Executable(i) && GroupOf(i.op) == Loads
    ensures LoadEnds(table, c, i, Perform(table, c, i))
  {
    hide Execute, OperandsOf, GroupOf, LoadOp, LoadMeans, Loaded, Load, Wrap, Wrote, TrapsWith, Congruent, Translate, Perform,
      Executable, SameHiLo, GoesOn, Queued, LoadWidth;
    var o := OperandsOf(i, c.regs);
    OperandsAre(i, c.regs);
    ExecuteIs(i, o, table, c.memory);
    LoadShape(i, o, table, c.memory);
    var e := Execute(i, o, table, c.memory);
    if e.Finish? {
      Finishes(table, c, i);
      LoadFinishes(table, c, i, o, e, Perform(table, c, i));
    } else if e.Raise? {
      RaiseEnds(table, c, i);
    } else {
      HaltEnds(table, c, i);
    }
  }

  lemma LoadFinishes(table: seq<TranslationEntry>, c: Cpu, i: Instruction, o: Operands, e: Effect, s: Step)
    requires Sound(c) && Sound(s.cpu) && GroupOf(i.op) == Loads && o == OperandsOf(i, c.regs) && e == LoadOp(i, o, table, c.memory)
    requires e.Finish? && Wrote(c, s, 0) && SameHiLo(c, s) && GoesOn(c, s) && s.cpu.memory == Saved(table, c.memory, e.save)
    requires s.cpu.regs[LOAD_REG] == e.loadReg && s.cpu.regs[LOAD_VALUE_REG] == e.loadValue
    ensures LoadEnds(table, c, i, s)
  {
    hide OperandsOf, GroupOf, LoadOp, LoadMeans, Loaded, Load, Wrap, Wrote, TrapsWith, Translate, SameHiLo, GoesOn, LoadWidth;
    OperandsAre(i, c.regs);
    LoadShape(i, o, table, c.memory);
    LoadedMeans(i.op, c.memory, Translate(table, Wrap(o.rs + i.extra), LoadWidth(i.op), false).address, o.merged);
  }

  /** A load or store that gets to memory. */
  lemma Finishes(table: seq<TranslationEntry>, c: Cpu, i: Instruction)
    requires Sound(c) && Executable(i)
    requires var o := OperandsOf(i, c.regs); var e := Execute(i, o, table, c.memory);
      e.Finish? && e == Finish(0, 0, o.hi, o.lo, e.loadReg, e.loadValue, Wrap(o.nextPC as int + 4), e.save)
    ensures var e, s := Execute(i, OperandsOf(i, c.regs), table, c.memory), Perform(table, c, i);
      && Wrote(c, s, 0) && SameHiLo(c, s) && GoesOn(c, s) && Queued(s, e.loadReg, e.loadValue)
      && s.cpu.regs[LOAD_REG] == e.loadReg && s.cpu.regs[LOAD_VALUE_REG] == e.loadValue
      && s.cpu.memory == Saved(table, c.memory, e.save)
  {
    hide Execute, OperandsOf, Executable, Wrote, Perform, Wrap, Congruent, Saved;
    OperandsAre(i, c.regs);
    FinishEnds(table, c, i);
    WrapIsCongruent(c.regs[NEXT_PC_REG] as int + 4);
  }

  lemma ReadAndWriteAgree(table: seq<TranslationEntry>, addr: int32, n: Width)
    requires Translate(table, addr, n, false).Physical? && Translate(table, addr, n, true).Physical?
    ensures Translate(table, addr, n, false) == Translate(table, addr, n, true)
  {
  }

  lemma WordStored(memory: seq<byte>, p: nat, v: int32)
    requires p + 4 <= |memory|
    ensures Store(memory, p, 4, v)[p..p + 4] == WordToBytes(ToWord(v))
    ensures BytesToWord(Store(memory, p, 4, v)[p..p + 4]) == ToWord(v)
  {
    var r := Store(memory, p, 4, v);
    forall j | 0 <= j < 4 ensures r[p + j] == WordToBytes(ToWord(v))[j] { StoredBytes(memory, p, 4, v, j); }
    hide Store, WordToBytes, BytesToWord;
    assert r[p..p + 4] == WordToBytes(ToWord(v));
    WordRoundTrip(ToWord(v));
  }

  /** What goes into memory. */
  function StoredValue(op: Opcode, was: word, b: int32): (v: int32) {
    if op == SWR then Wrap(was % 0x100_0000 + ToWord(b) % 256 * 0x100_0000) else b
  }

  lemma PartStored(op: Opcode, memory: seq<byte>, p: nat, b: int32)
    requires op in {SB, SH} && p + StoreWidth(op) <= |memory|
    ensures StoreMeans(op, memory, p, b, Store(memory, p, StoreWidth(op), b))
  {
    StoredBytes(memory, p, StoreWidth(op), b, 0);
    if op == SH { StoredBytes(memory, p, 2, b, 1); }
    hide Store, ToWord;
    LowHalf(ToWord(b));
  }

  lemma TopByteReplaced(was: seq<byte>, b: int32)
    requires |was| == 4
    ensures WordToBytes(ToWord(StoredValue(SWR, BytesToWord(was), b))) == was[..3] + [ToWord(b) % 256]
  {
    var x: byte := ToWord(b) % 256;
    var now := was[..3] + [x];
    TopByte(was);
    assert BytesToWord(now) == BytesToWord(was) % 0x100_0000 + x * 0x100_0000;
    hide ToWord, Wrap;
    WordOfWrap(BytesToWord(now));
    BytesRoundTrip(now);
  }

  lemma BytesRoundTrip(b: seq<byte>)
    requires |b| == 4
    ensures WordToBytes(BytesToWord(b)) == b
  {
    var b3: int := b[3];
    var r2: int := b[2] + 256 * b3;
    var r1: int := b[1] + 256 * r2;
    FirstByte(b[0], r1);
    FirstByte(b[1], r2);
    FirstByte(b[2], b3);
    FartherBytes(BytesToWord(b));
  }

  lemma FirstByte(x: byte, r: int)
    ensures (x as int + 256 * r) / 256 == r && (x as int + 256 * r) % 256 == x
  {
  }

  lemma FartherBytes(w: word)
    ensures w / 65536 == w / 256 / 256 && w / 0x100_0000 == w / 256 / 256 / 256
  {
  }

  lemma WholeStored(op: Opcode, memory: seq<byte>, p: nat, b: int32)
    requires op in {SW, SWL, SWR} && p + 4 <= |memory|
    ensures StoreMeans(op, memory, p, b, Store(memory, p, 4, StoredValue(op, BytesToWord(memory[p..p + 4]), b)))
  {
    hide Store, WordToBytes, BytesToWord, ToWord, StoredValue;
    var v := StoredValue(op, BytesToWord(memory[p..p + 4]), b);
    var r := Store(memory, p, 4, v);
    WordStored(memory, p, v);
    OthersStored(op, BytesToWord(memory[p..p + 4]), b);
    if op == SWR {
      TopByteReplaced(memory[p..p + 4], b);
      assert r[p..p + 3] == r[p..p + 4][..3] && r[p + 3] == r[p..p + 4][3];
      assert memory[p..p + 3] == memory[p..p + 4][..3];
    }
  }

  lemma OthersStored(op: Opcode, was: word, b: int32)
    ensures op != SWR ==> StoredValue(op, was, b) == b
  {
  }

  /** The word that a merging store finds. */
  function Before(op: Opcode, memory: seq<byte>, p: int): (w: word) {
    if op == SWR && 0 <= p && p + 4 <= |memory| then BytesToWord(memory[p..p + 4]) else 0
  }

  lemma StoredMeans(op: Opcode, memory: seq<byte>, p: nat, b: int32)
    requires GroupOf(op) == Stores && p + StoreWidth(op) <= |memory|
    ensures StoreMeans(op, memory, p, b, Store(memory, p, StoreWidth(op), StoredValue(op, Before(op, memory, p), b)))
  {
    hide Store, StoreMeans, StoredValue, BytesToWord;
    OthersStored(op, Before(op, memory, p), b);
    if op in {SB, SH} { PartStored(op, memory, p, b); }
    else { OthersStored(op, BytesToWord(memory[p..p + 4]), b); WholeStored(op, memory, p, b); }
  }

  lemma StoreShape(i: Instruction, o: Operands, table: seq<TranslationEntry>, memory: seq<byte>)
    requires |memory| == MEMORY_SIZE && GroupOf(i.op) == Stores
    ensures var addr, n, e := Wrap(o.rs + i.extra), StoreWidth(i.op), StoreOp(i, o, table, memory);
      var merging := i.op == SWL || i.op == SWR;
      if merging && addr as int % 4 != 0 then e == Assertion
      else if merging && Translate(table, addr, n, false).Fault? then e == Raise(Translate(table, addr, n, false).exception, addr)
      else
        match Translate(table, addr, n, true)
        case Fault(x) => e == Raise(x, addr)
        case Physical(p) =>
          && 0 <= p && p + n <= MEMORY_SIZE
          && e == Finish(0, 0, o.hi, o.lo, 0, 0, Wrap(o.nextPC as int + 4),
                         Some(Saving(addr, n, StoredValue(i.op, Before(i.op, memory, p), o.rt))))
  {
    hide Wrap, Next, ToWord, Translate;
    var addr, n := Wrap(o.rs + i.extra), StoreWidth(i.op);
    NextIs(o);
    assert Plus(o.rs, i.extra) == addr;
    if Translate(table, addr, n, true).Physical? {
      AccessStaysInFrame(table, addr, n, true);
      if Translate(table, addr, n, false).Physical? { ReadAndWriteAgree(table, addr, n); }
    }
  }

  lemma StoreLaw(table: seq<TranslationEntry>, c: Cpu, i: Instruction)
    requires Sound(c) && Executable(i) && GroupOf(i.op) == Stores
    ensures StoreEnds(table, c, i, Perform(table, c, i))
  {
    hide Execute, OperandsOf, GroupOf, StoreOp, StoreMeans, StoredValue, Before, Store, Wrap, Wrote, TrapsWith, Congruent, Translate,
      Perform, Executable, SameHiLo, GoesOn, Queued, StoreWidth;
    var o := OperandsOf(i, c.regs);
    OperandsAre(i, c.regs);
    ExecuteIs(i, o, table, c.memory);
    StoreShape(i, o, table, c.memory);
    var e := Execute(i, o, table, c.memory);
    if e.Finish? {
      Finishes(table, c, i);
      StoreFinishes(table, c, i, o, e, Perform(table, c, i));
    } else if e.Raise? {
      RaiseEnds(table, c, i);
    } else {
      HaltEnds(table, c, i);
    }
  }

  lemma StoreFinishes(table: seq<TranslationEntry>, c: Cpu, i: Instruction, o: Operands, e: Effect, s: Step)
    requires Sound(c) && Sound(s.cpu) && GroupOf(i.op) == Stores && o == OperandsOf(i, c.regs) && e == StoreOp(i, o, table, c.memory)
    requires e.Finish? && Wrote(c, s, 0) && SameHiLo(c, s) && GoesOn(c, s) && s.cpu.memory == Saved(table, c.memory, e.save)
    requires Queued(s, e.loadReg, e.loadValue)
    ensures StoreEnds(table, c, i, s)
  {
    hide OperandsOf, GroupOf, StoreOp, StoreMeans, StoredValue, Before, Store, Wrap, Wrote, TrapsWith, Translate,
      SameHiLo, GoesOn, Queued, StoreWidth;
    OperandsAre(i, c.regs);
    StoreShape(i, o, table, c.memory);
    StoredMeans(i.op, c.memory, Translate(table, Wrap(o.rs + i.extra), StoreWidth(i.op), true).address, o.rt);
  }

  // ---------------------------------------------------------------- the main result

  /** Every instruction does what it means, whatever the registers, memory and page table hold. */
  lemma InstructionsMean(table: seq<TranslationEntry>, c: Cpu, i: Instruction)
    requires Sound(c) && Executable(i)
    ensures Means(table, c, i, Perform(table, c, i))
  {
    hide Perform, RdEnds, RtEnds, HiLoEnds, JumpEnds, LoadEnds, StoreEnds, TrapsWith;
    match GroupOf(i.op)
    case ToRd => RdLaw(table, c, i);
    case ToRt => RtLaw(table, c, i);
    case ToHiLo => HiLoLaw(table, c, i);
    case Jumps => JumpLaw(table, c, i);
    case Loads => LoadLaw(table, c, i);
    case Stores => StoreLaw(table, c, i);
    case Traps => TrapLaw(table, c, i);
  }

  lemma TrapLaw(table: seq<TranslationEntry>, c: Cpu, i: Instruction)
    requires Sound(c) && Executable(i) && GroupOf(i.op) == Traps
    ensures TrapsWith(c, Perform(table, c, i), if i.op == SYSCALL then Syscall else IllegalInstr, 0)
  {
    hide Execute, OperandsOf, Perform, TrapsWith;
    ExecuteIs(i, OperandsOf(i, c.regs), table, c.memory);
    RaiseEnds(table, c, i);
  }

  /** OneInstruction fetches the word at the program counter and does what it means. */
  lemma StepMeans(table: seq<TranslationEntry>, c: Cpu)
    requires Sound(c)
    ensures match Translate(table, c.regs[PC_REG], 4, false)
            case Fault(x) => TrapsWith(c, OneStep(table, c), x, c.regs[PC_REG])
            case Physical(p) =>
              && 0 <= p && p + 4 <= MEMORY_SIZE && Executable(Decode(BytesToWord(c.memory[p..p + 4])))
              && Means(table, c, Decode(BytesToWord(c.memory[p..p + 4])), OneStep(table, c))
  {
    hide Means, Decode, Executable, Perform, Translate;
    if Translate(table, c.regs[PC_REG], 4, false).Physical? {
      AccessStaysInFrame(table, c.regs[PC_REG], 4, false);
      var w := BytesToWord(c.memory[Translate(table, c.regs[PC_REG], 4, false).address..Translate(table, c.regs[PC_REG], 4, false).address + 4]);
      DecodedIsExecutable(w);
      InstructionsMean(table, c, Decode(w));
    }
  }

  /** Of BEQ and BNE with the same fields exactly one is taken, in every state. */
  lemma BranchesAreOpposite(table: seq<TranslationEntry>, c: Cpu, i: Instruction)
    requires Sound(c) && i.op == BEQ
    ensures var equal := c.regs[i.rs] == c.regs[i.rt];
      Goes(c, i, Perform(table, c, i), equal) && Goes(c, i, Perform(table, c, i.(op := BNE)), !equal)
  {
    hide Perform, JumpEnds, Congruent;
    JumpLaw(table, c, i);
    JumpLaw(table, c, i.(op := BNE));
    BranchGoes(c, i, Perform(table, c, i));
    BranchGoes(c, i.(op := BNE), Perform(table, c, i.(op := BNE)));
  }

  /** Where a branch goes when it is taken, and when it is not. */
  ghost predicate Goes(c: Cpu, i: Instruction, s: Step, taken: bool)
    requires Sound(c) && Sound(s.cpu)
  {
    Congruent(s.cpu.regs[NEXT_PC_REG], c.regs[NEXT_PC_REG] as int + if taken then 4 * i.extra as int else 4)
  }

  lemma BranchGoes(c: Cpu, i: Instruction, s: Step)
    requires Sound(c) && Sound(s.cpu) && (i.op == BEQ || i.op == BNE) && JumpEnds(c, i, s)
    ensures Goes(c, i, s, if i.op == BEQ then c.regs[i.rs] == c.regs[i.rt] else c.regs[i.rs] != c.regs[i.rt])
  {
    hide Congruent, Wrote, SameHiLo, Queued, Visible, LinkRegister, Wrap;
  }

  // ---------------------------------------------------------------- encoding

  /** The four ways an instruction fills its word: with three registers and a shift amount, with an
      immediate operand, as a branch on a sign, or as a jump. */
  datatype Format = ThreeRegisters(funct: nat) | WithImmediate(major: nat) | OnSign(code: nat) | ToTarget(major: nat) | NoFormat

  /** The numbers that the architecture gives to the op codes. */
  function FormatOf(op: Opcode): (f: Format) {
    match op
    case SLL => ThreeRegisters(0x00) case SRL => ThreeRegisters(0x02) case SRA => ThreeRegisters(0x03)
    case SLLV => ThreeRegisters(0x04) case SRLV => ThreeRegisters(0x06) case SRAV => ThreeRegisters(0x07)
    case JR => ThreeRegisters(0x08) case JALR => ThreeRegisters(0x09) case SYSCALL => ThreeRegisters(0x0C)
    case MFHI => ThreeRegisters(0x10) case MTHI => ThreeRegisters(0x11) case MFLO => ThreeRegisters(0x12)
    case MTLO => ThreeRegisters(0x13) case MULT => ThreeRegisters(0x18) case MULTU => ThreeRegisters(0x19)
    case DIV => ThreeRegisters(0x1A) case DIVU => ThreeRegisters(0x1B)
    case ADD => ThreeRegisters(0x20) case ADDU => ThreeRegisters(0x21) case SUB => ThreeRegisters(0x22)
    case SUBU => ThreeRegisters(0x23) case AND => ThreeRegisters(0x24) case OR => ThreeRegisters(0x25)
    case XOR => ThreeRegisters(0x26) case NOR => ThreeRegisters(0x27) case SLT => ThreeRegisters(0x2A)
    case SLTU => ThreeRegisters(0x2B)
    case BLTZ => OnSign(0x00) case BGEZ => OnSign(0x01) case BLTZAL => OnSign(0x10) case BGEZAL => OnSign(0x11)
    case J => ToTarget(0x02) case JAL => ToTarget(0x03)
    case BEQ => WithImmediate(0x04) case BNE => WithImmediate(0x05) case BLEZ => WithImmediate(0x06)
    case BGTZ => WithImmediate(0x07) case ADDI => WithImmediate(0x08) case ADDIU => WithImmediate(0x09)
    case SLTI => WithImmediate(0x0A) case SLTIU => WithImmediate(0x0B) case ANDI => WithImmediate(0x0C)
    case ORI => WithImmediate(0x0D) case XORI => WithImmediate(0x0E) case LUI => WithImmediate(0x0F)
    case LB => WithImmediate(0x20) case LH => WithImmediate(0x21) case LWL => WithImmediate(0x22)
    case LW => WithImmediate(0x23) case LBU => WithImmediate(0x24) case LHU => WithImmediate(0x25)
    case LWR => WithImmediate(0x26) case SB => WithImmediate(0x28) case SH => WithImmediate(0x29)
    case SWL => WithImmediate(0x2A) case SW => WithImmediate(0x2B) case SWR => WithImmediate(0x2E)
    case RFE | UNIMP | RES | SPECIAL | BCOND => NoFormat
  }

  /** The fields fit the format; those that it has no room for repeat the bits in their place. */
  predicate Encodable(i: Instruction) {
    match FormatOf(i.op)
    case ThreeRegisters(_) => 0 <= i.extra < 32
    case WithImmediate(_) => -0x8000 <= i.extra < 0x8000 && i.rd == i.extra as int % 0x1_0000 / 0x800
    case OnSign(code) => -0x8000 <= i.extra < 0x8000 && i.rd == i.extra as int % 0x1_0000 / 0x800 && i.rt == code
    case ToTarget(_) =>
      && 0 <= i.extra < 0x400_0000
      && i.rs == i.extra as int / 0x20_0000 && i.rt == i.extra as int / 0x1_0000 % 32 && i.rd == i.extra as int / 0x800 % 32
    case NoFormat => false
  }

  function Pack(major: nat, rs: nat, rt: nat, low: nat): (w: nat) {
    major * 0x400_0000 + rs * 0x20_0000 + rt * 0x1_0000 + low
  }

  function Encode(i: Instruction): (w: nat)
    requires Encodable(i)
  {
    match FormatOf(i.op)
    case ThreeRegisters(funct) => Pack(0, i.rs, i.rt, i.rd * 0x800 + i.extra * 0x40 + funct)
    case WithImmediate(major) => Pack(major, i.rs, i.rt, i.extra as int % 0x1_0000)
    case OnSign(code) => Pack(1, i.rs, code, i.extra as int % 0x1_0000)
    case ToTarget(major) => major * 0x400_0000 + i.extra
  }

  lemma PackedFields(major: nat, rs: nat, rt: nat, low: nat)
    requires major < 64 && rs < 32 && rt < 32 && low < 0x1_0000
    ensures var w := Pack(major, rs, rt, low);
      && w < 0x1_0000_0000 && w / 0x400_0000 == major && w / 0x20_0000 % 32 == rs && w / 0x1_0000 % 32 == rt
      && w % 0x1_0000 == low && w / 0x800 % 32 == low / 0x800 && w / 64 % 32 == low / 64 % 32 && w % 64 == low % 64
  {
    HighOf(major, rs, rt, low);
    LowOf(major * 1024 + rs * 32 + rt, low);
  }

  lemma HighOf(major: nat, rs: nat, rt: nat, low: nat)
    requires major < 64 && rs < 32 && rt < 32 && low < 0x1_0000
    ensures var w := Pack(major, rs, rt, low);
      && w == (major * 1024 + rs * 32 + rt) * 0x1_0000 + low && w < 0x1_0000_0000 && w % 0x1_0000 == low
      && w / 0x400_0000 == major && w / 0x20_0000 % 32 == rs && w / 0x1_0000 % 32 == rt
  {
    var w := Pack(major, rs, rt, low);
    assert w / 0x1_0000 == (major * 32 + rs) * 32 + rt;
    assert w / 0x20_0000 == major * 32 + rs;
    LastField(major * 32 + rs, rt);
    LastField(major, rs);
  }

  lemma LastField(q: nat, x: nat)
    ensures (q * 32 + x) % 32 == x % 32
  {
  }

  lemma LowFields(rd: nat, shift: nat, funct: nat)
    requires rd < 32 && shift < 32 && funct < 64
    ensures var low := rd * 0x800 + shift * 0x40 + funct;
      low < 0x1_0000 && low / 0x800 == rd && low / 64 % 32 == shift && low % 64 == funct
  {
    var low := rd * 0x800 + shift * 0x40 + funct;
    assert low / 64 == rd * 32 + shift;
  }

  lemma TargetFields(major: nat, target: nat)
    requires major < 64 && target < 0x400_0000
    ensures var w := major * 0x400_0000 + target;
      && w < 0x1_0000_0000 && w / 0x400_0000 == major && w % 0x400_0000 == target
      && w / 0x20_0000 % 32 == target / 0x20_0000 && w / 0x1_0000 % 32 == target / 0x1_0000 % 32
      && w / 0x800 % 32 == target / 0x800 % 32
  {
    var w := major * 0x400_0000 + target;
    assert w / 0x20_0000 == major * 32 + target / 0x20_0000;
    assert w / 0x1_0000 == (major * 32) * 32 + target / 0x1_0000;
    assert w / 0x800 == (major * 1024) * 32 + target / 0x800;
  }

  /** The tables of the interpreter give back the op code of every number. */
  lemma FunctOfOp(op: Opcode)
    requires FormatOf(op).ThreeRegisters?
    ensures var k := FormatOf(op).funct; k < 64 && SpecialTable(k) == op
  {
    hide OpTable, BranchOp;
  }

  lemma MajorOfOp(op: Opcode)
    requires FormatOf(op).WithImmediate?
    ensures var k := FormatOf(op).major; k < 64 && OpTable(k) == op && op != SPECIAL && op != BCOND && op != J && op != JAL
  {
    hide SpecialTable, BranchOp;
  }

  lemma CodeOfOp(op: Opcode)
    requires FormatOf(op).OnSign?
    ensures FormatOf(op).code < 32 && BranchOp(FormatOf(op).code) == op
  {
    hide OpTable, SpecialTable;
  }

  lemma TargetOfOp(op: Opcode)
    requires FormatOf(op).ToTarget?
    ensures FormatOf(op).major < 64 && OpTable(FormatOf(op).major) == op && (op == J || op == JAL)
  {
    hide SpecialTable, BranchOp;
  }

  lemma TablesStart()
    ensures OpTable(0) == SPECIAL && OpTable(1) == BCOND
  {
  }

  lemma SignExtended(x: int)
    requires -0x8000 <= x < 0x8000
    ensures var h := x % 0x1_0000; 0 <= h < 0x1_0000 && (if h < 0x8000 then h else h - 0x1_0000) == x
  {
  }

  lemma RegistersDecode(i: Instruction)
    requires Encodable(i) && FormatOf(i.op).ThreeRegisters?
    ensures Encode(i) < WORD_LIMIT && Decode(Encode(i)) == i
  {
    hide OpTable, SpecialTable, BranchOp, Pack, FormatOf;
    var funct := FormatOf(i.op).funct;
    FunctOfOp(i.op);
    TablesStart();
    LowFields(i.rd, i.extra, funct);
    PackedFields(0, i.rs, i.rt, i.rd * 0x800 + i.extra * 0x40 + funct);
  }

  lemma ImmediateDecodes(i: Instruction)
    requires Encodable(i) && FormatOf(i.op).WithImmediate?
    ensures Encode(i) < WORD_LIMIT && Decode(Encode(i)) == i
  {
    hide OpTable, SpecialTable, BranchOp, Pack, FormatOf;
    MajorOfOp(i.op);
    SignExtended(i.extra);
    PackedFields(FormatOf(i.op).major, i.rs, i.rt, i.extra as int % 0x1_0000);
  }

  lemma OnSignDecodes(i: Instruction)
    requires Encodable(i) && FormatOf(i.op).OnSign?
    ensures Encode(i) < WORD_LIMIT && Decode(Encode(i)) == i
  {
    hide OpTable, SpecialTable, BranchOp, Pack, FormatOf;
    CodeOfOp(i.op);
    TablesStart();
    SignExtended(i.extra);
    PackedFields(1, i.rs, FormatOf(i.op).code, i.extra as int % 0x1_0000);
  }

  lemma TargetDecodes(i: Instruction)
    requires Encodable(i) && FormatOf(i.op).ToTarget?
    ensures Encode(i) < WORD_LIMIT && Decode(Encode(i)) == i
  {
    hide OpTable, SpecialTable, BranchOp, Pack, FormatOf;
    TargetOfOp(i.op);
    TargetFields(FormatOf(i.op).major, i.extra);
  }

  /** Decoding gives back every instruction that can be encoded. */
  lemma DecodeOfEncode(i: Instruction)
    requires Encodable(i)
    ensures Encode(i) < WORD_LIMIT && Decode(Encode(i)) == i
  {
    hide Decode, Encode, FormatOf;
    match FormatOf(i.op)
    case ThreeRegisters(_) => RegistersDecode(i);
    case WithImmediate(_) => ImmediateDecodes(i);
    case OnSign(_) => OnSignDecodes(i);
    case ToTarget(_) => TargetDecodes(i);
  }

  lemma UnpackedFields(w: word)
    ensures w / 0x400_0000 < 64 && w == Pack(w / 0x400_0000, w / 0x20_0000 % 32, w / 0x1_0000 % 32, w % 0x1_0000)
  {
    var h := w / 0x1_0000;
    assert w == h * 0x1_0000 + w % 0x1_0000;
    assert w / 0x20_0000 == h / 32 && w / 0x400_0000 == h / 1024;
    HighUnpacked(h);
  }

  lemma HighUnpacked(h: nat)
    ensures h == h / 1024 * 1024 + h / 32 % 32 * 32 + h % 32
  {
    assert h / 1024 == h / 32 / 32;
  }

  lemma LowUnpacked(w: word)
    ensures w % 0x1_0000 == w / 0x800 % 32 * 0x800 + w / 64 % 32 * 0x40 + w % 64 && w % 0x1_0000 / 0x800 == w / 0x800 % 32
  {
    var l, q := w % 0x1_0000, w / 0x1_0000;
    assert w == q * 0x1_0000 + l;
    LowOf(q, l);
    SplitLow(l);
  }

  lemma LowOf(q: nat, l: nat)
    requires l < 0x1_0000
    ensures var w := q * 0x1_0000 + l;
      w / 0x800 % 32 == l / 0x800 && w / 64 % 32 == l / 64 % 32 && w % 64 == l % 64
  {
    InPages(q, l);
    InShifts(q, l);
    LastField(q, l / 0x800);
    LastField(q * 32, l / 64);
  }

  lemma InPages(q: nat, l: nat)
    requires l < 0x1_0000
    ensures (q * 0x1_0000 + l) / 0x800 == q * 32 + l / 0x800 && l / 0x800 < 32
  {
  }

  lemma InShifts(q: nat, l: nat)
    ensures (q * 0x1_0000 + l) / 64 == q * 32 * 32 + l / 64 && (q * 0x1_0000 + l) % 64 == l % 64
  {
  }

  lemma SplitLow(l: nat)
    ensures l == l / 0x800 * 0x800 + l / 64 % 32 * 0x40 + l % 64
  {
    assert l / 0x800 == l / 64 / 32;
  }

  lemma TargetUnpacked(w: word)
    ensures var t := w % 0x400_0000;
      && w == w / 0x400_0000 * 0x400_0000 + t && w / 0x400_0000 < 64
      && w / 0x20_0000 % 32 == t / 0x20_0000 && w / 0x1_0000 % 32 == t / 0x1_0000 % 32 && w / 0x800 % 32 == t / 0x800 % 32
  {
    TargetFields(w / 0x400_0000, w % 0x400_0000);
  }

  /** And the numbers of the op codes are those at which the tables have them. */
  lemma NumbersKnow(k: nat)
    requires k < 64
    ensures var op := OpTable(k);
      && (op == SPECIAL <==> k == 0) && (op == BCOND <==> k == 1)
      && (op == J || op == JAL ==> FormatOf(op) == ToTarget(k))
      && (k > 1 && op != J && op != JAL && op != UNIMP && op != RES ==> FormatOf(op) == WithImmediate(k))
  {
    if k < 16 { FirstNumbers(k); } else { LaterNumbers(k); }
  }

  lemma FirstNumbers(k: nat)
    requires k < 16
    ensures var op := OpTable(k);
      && (op == SPECIAL <==> k == 0) && (op == BCOND <==> k == 1)
      && (op == J || op == JAL ==> FormatOf(op) == ToTarget(k))
      && (k > 1 && op != J && op != JAL ==> FormatOf(op) == WithImmediate(k))
  {
  }

  lemma LaterNumbers(k: nat)
    requires 16 <= k < 64
    ensures var op := OpTable(k);
      && op != SPECIAL && op != BCOND && op != J && op != JAL
      && (op != UNIMP && op != RES ==> FormatOf(op) == WithImmediate(k))
  {
  }

  lemma FunctsKnow(k: nat)
    requires k < 64
    ensures SpecialTable(k) == UNIMP || SpecialTable(k) == RES || FormatOf(SpecialTable(k)) == ThreeRegisters(k)
  {
    if k < 16 { FirstFuncts(k); } else if k < 32 { MiddleFuncts(k); } else { LaterFuncts(k); }
  }

  lemma FirstFuncts(k: nat)
    requires k < 16
    ensures SpecialTable(k) == UNIMP || SpecialTable(k) == RES || FormatOf(SpecialTable(k)) == ThreeRegisters(k)
  {
  }

  lemma MiddleFuncts(k: nat)
    requires 16 <= k < 32
    ensures SpecialTable(k) == RES || FormatOf(SpecialTable(k)) == ThreeRegisters(k)
  {
  }

  lemma LaterFuncts(k: nat)
    requires 32 <= k < 64
    ensures SpecialTable(k) == RES || FormatOf(SpecialTable(k)) == ThreeRegisters(k)
  {
  }

  lemma CodesKnow(rt: Register)
    ensures BranchOp(rt) == UNIMP || FormatOf(BranchOp(rt)) == OnSign(rt)
  {
  }

  lemma ExtendedSign(h: nat)
    requires h < 0x1_0000
    ensures var x := if h < 0x8000 then h else h - 0x1_0000; -0x8000 <= x < 0x8000 && x % 0x1_0000 == h
  {
  }

  lemma RegistersEncode(w: word)
    requires OpTable(w / 0x400_0000) == SPECIAL && Decode(w).op != UNIMP && Decode(w).op != RES
    ensures Encodable(Decode(w)) && Encode(Decode(w)) == w
  {
    hide OpTable, SpecialTable, BranchOp, Pack, FormatOf, Decode, Encode, Encodable;
    var funct, rs, rt, rd, shift := w % 64, w / 0x20_0000 % 32, w / 0x1_0000 % 32, w / 0x800 % 32, w / 64 % 32;
    RegistersOf(w);
    NumbersKnow(w / 0x400_0000);
    FunctsKnow(funct);
    UnpackedFields(w);
    LowUnpacked(w);
    RegistersPack(Decode(w), funct);
  }

  lemma RegistersOf(w: word)
    requires OpTable(w / 0x400_0000) == SPECIAL
    ensures Decode(w) == Instruction(SpecialTable(w % 64), w / 0x20_0000 % 32, w / 0x1_0000 % 32, w / 0x800 % 32, w / 64 % 32)
  {
    hide OpTable, SpecialTable, BranchOp;
  }

  lemma RegistersPack(i: Instruction, funct: nat)
    requires FormatOf(i.op) == ThreeRegisters(funct) && 0 <= i.extra < 32
    ensures Encodable(i) && Encode(i) == Pack(0, i.rs, i.rt, i.rd * 0x800 + i.extra * 0x40 + funct)
  {
    hide FormatOf, Pack;
  }

  lemma OnSignEncodes(w: word)
    requires OpTable(w / 0x400_0000) == BCOND && Decode(w).op != UNIMP
    ensures Encodable(Decode(w)) && Encode(Decode(w)) == w
  {
    hide OpTable, SpecialTable, BranchOp, Pack, FormatOf;
    UnpackedFields(w);
    LowUnpacked(w);
    NumbersKnow(w / 0x400_0000);
    CodesKnow(w / 0x1_0000 % 32);
    ExtendedSign(w % 0x1_0000);
  }

  lemma TargetEncodes(w: word)
    requires OpTable(w / 0x400_0000) == J || OpTable(w / 0x400_0000) == JAL
    ensures Encodable(Decode(w)) && Encode(Decode(w)) == w
  {
    hide OpTable, SpecialTable, BranchOp, Pack, FormatOf;
    TargetUnpacked(w);
    NumbersKnow(w / 0x400_0000);
  }

  lemma ImmediateEncodes(w: word)
    requires OpTable(w / 0x400_0000) !in {SPECIAL, BCOND, J, JAL, UNIMP, RES}
    ensures Encodable(Decode(w)) && Encode(Decode(w)) == w
  {
    hide OpTable, SpecialTable, BranchOp, Pack, FormatOf;
    UnpackedFields(w);
    LowUnpacked(w);
    NumbersKnow(w / 0x400_0000);
    ExtendedSign(w % 0x1_0000);
  }

  /** Every word that is not reserved or unimplemented is the encoding of what it decodes to: on
      those words decoding loses nothing. */
  lemma EncodeOfDecode(w: word)
    requires Decode(w).op != UNIMP && Decode(w).op != RES
    ensures Encodable(Decode(w)) && Encode(Decode(w)) == w
  {
    var major := OpTable(w / 0x400_0000);
    hide OpTable, SpecialTable, BranchOp, Encodable, Encode;
    if major == SPECIAL { RegistersEncode(w); }
    else if major == BCOND { OnSignEncodes(w); }
    else if major == J || major == JAL { TargetEncodes(w); }
    else { ImmediateEncodes(w); }
  }
}
