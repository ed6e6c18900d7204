/** machine/mipssim.cc, machine/mipssim.h and RaiseException of machine/machine.cc: decoding
    and executing one instruction, delayed loads, and traps into the kernel. */
module Mips {
  import opened Words
  import opened Collections
  import opened Memory
  import Multiplier

  const HI_REG := 32
  const LO_REG := 33
  const PC_REG := 34
  const NEXT_PC_REG := 35
  const PREV_PC_REG := 36
  const LOAD_REG := 37
  const LOAD_VALUE_REG := 38
  const BAD_VADDR_REG := 39
  const NUM_TOTAL_REGS := 40

  type Register = r: int | 0 <= r < 32

  // ---------------------------------------------------------------- decoding

  /** The opcode numbers; SPECIAL and BCOND only occur in the tables, and RFE nowhere. */
  datatype Opcode =
    | ADD | ADDI | ADDIU | ADDU | AND | ANDI | BEQ | BGEZ | BGEZAL | BGTZ | BLEZ | BLTZ | BLTZAL | BNE
    | DIV | DIVU | J | JAL | JALR | JR | LB | LBU | LH | LHU | LUI | LW | LWL | LWR
    | MFHI | MFLO | MTHI | MTLO | MULT | MULTU | NOR | OR | ORI | RFE | SB | SH | SLL | SLLV
    | SLT | SLTI | SLTIU | SLTU | SRA | SRAV | SRL | SRLV | SUB | SUBU | SW | SWL | SWR | XOR | XORI
    | SYSCALL | UNIMP | RES | SPECIAL | BCOND

  datatype Instruction = Instruction(op: Opcode, rs: Register, rt: Register, rd: Register, extra: int32)

  /** The op code that opTable gives to bits 31 to 26. */
  function OpTable(k: int): (op: Opcode) {
    if k < 16 then
      if k < 8 then
        if k == 0 then SPECIAL else if k == 1 then BCOND else if k == 2 then J else if k == 3 then JAL
        else if k == 4 then BEQ else if k == 5 then BNE else if k == 6 then BLEZ else BGTZ
      else
        if k == 8 then ADDI else if k == 9 then ADDIU else if k == 10 then SLTI else if k == 11 then SLTIU
        else if k == 12 then ANDI else if k == 13 then ORI else if k == 14 then XORI else LUI
    else if k < 20 then UNIMP
    else if k < 32 then RES
    else if k < 40 then
      if k == 32 then LB else if k == 33 then LH else if k == 34 then LWL else if k == 35 then LW
      else if k == 36 then LBU else if k == 37 then LHU else if k == 38 then LWR else RES
    else if k < 48 then
      if k == 40 then SB else if k == 41 then SH else if k == 42 then SWL else if k == 43 then SW
      else if k == 46 then SWR else RES
    else if k < 52 || 56 <= k < 60 then UNIMP
    else RES
  }

  /** The op code that specialTable gives to bits 5 to 0. */
  function SpecialTable(k: int): (op: Opcode) {
    if k < 16 then
      if k == 0 then SLL else if k == 2 then SRL else if k == 3 then SRA else if k == 4 then SLLV
      else if k == 6 then SRLV else if k == 7 then SRAV else if k == 8 then JR else if k == 9 then JALR
      else if k == 12 then SYSCALL else if k == 13 then UNIMP else RES
    else if k < 32 then
      if k == 16 then MFHI else if k == 17 then MTHI else if k == 18 then MFLO else if k == 19 then MTLO
      else if k == 24 then MULT else if k == 25 then MULTU else if k == 26 then DIV else if k == 27 then DIVU
      else RES
    else
      if k == 32 then ADD else if k == 33 then ADDU else if k == 34 then SUB else if k == 35 then SUBU
      else if k == 36 then AND else if k == 37 then OR else if k == 38 then XOR else if k == 39 then NOR
      else if k == 42 then SLT else if k == 43 then SLTU else RES
  }

  function BranchOp(rt: Register): (op: Opcode) {
    if rt == 0 then BLTZ else if rt == 1 then BGEZ else if rt == 16 then BLTZAL else if rt == 17 then BGEZAL else UNIMP
  }

  function Extra(value: word, major: Opcode): (x: int32) {
    if major == SPECIAL then value / 64 % 32
    else if major == J || major == JAL then value % 0x400_0000
    else if value % 0x1_0000 < 0x8000 then value % 0x1_0000 else value % 0x1_0000 - 0x1_0000
  }

  function Decode(value: word): (i: Instruction) {
    var major := OpTable(value / 0x400_0000);
    var rt := value / 0x1_0000 % 32;
    var op := if major == SPECIAL then SpecialTable(value % 64) else if major == BCOND then BranchOp(rt) else major;
    Instruction(op, value / 0x20_0000 % 32, rt, value / 0x800 % 32, Extra(value, major))
  }

  predicate Shift(op: Opcode) { op == SLL || op == SRA || op == SRL }

  predicate Jump(op: Opcode) { op == J || op == JAL }

  predicate InSwitch(op: Opcode) { op != SPECIAL && op != BCOND && op != RFE }

  /** What the switch of OneInstruction can be given. */
  predicate Executable(i: Instruction) {
    && InSwitch(i.op)
    && (Shift(i.op) ==> 0 <= i.extra < 32)
    && (Jump(i.op) ==> 0 <= i.extra < 0x400_0000)
  }

  lemma TableOps(k: int, j: int, rt: Register)
    ensures OpTable(k) != RFE && !Shift(OpTable(k))
    ensures InSwitch(SpecialTable(j)) && !Jump(SpecialTable(j))
    ensures InSwitch(BranchOp(rt)) && !Jump(BranchOp(rt)) && !Shift(BranchOp(rt))
  {
  }

  /** The assertion in the default case of the switch is never reached. */
  lemma DecodedIsExecutable(value: word)
    ensures Executable(Decode(value))
  {
    hide OpTable, SpecialTable, BranchOp;
    TableOps(value / 0x400_0000, value % 64, value / 0x1_0000 % 32);
  }

  // ---------------------------------------------------------------- arithmetic

  function And(a: int32, b: int32): (r: int32) {
    Pow2Word(); BitwiseBound(ToWord(a), ToWord(b), 32);
    ToInt(BitAnd(ToWord(a), ToWord(b)))
  }

  function Or(a: int32, b: int32): (r: int32) {
    Pow2Word(); BitwiseBound(ToWord(a), ToWord(b), 32);
    ToInt(BitOr(ToWord(a), ToWord(b)))
  }

  function Xor(a: int32, b: int32): (r: int32) {
    Pow2Word(); BitwiseBound(ToWord(a), ToWord(b), 32); BitwiseBound(ToWord(b), ToWord(a), 32);
    Or(ToInt(BitAndNot(ToWord(a), ToWord(b))), ToInt(BitAndNot(ToWord(b), ToWord(a))))
  }

  const SIGN_BIT: int32 := -0x8000_0000

  /** Sums and differences of C ints. */
  function Plus(a: int32, b: int32): (r: int32) { Wrap(a + b) }

  function Minus(a: int32, b: int32): (r: int32) { Wrap(a - b) }

  predicate SignBit(x: int32) { And(x, SIGN_BIT) != 0 }

  predicate AddOverflows(a: int32, b: int32) {
    !SignBit(Xor(a, b)) && SignBit(Xor(a, Plus(a, b)))
  }

  /** The test of ADDI compares the sum with its second operand. */
  predicate AddImmediateOverflows(a: int32, e: int32) {
    !SignBit(Xor(a, e)) && SignBit(Xor(e, Plus(a, e)))
  }

  predicate SubOverflows(a: int32, b: int32) {
    SignBit(Xor(a, b)) && SignBit(Xor(a, Minus(a, b)))
  }

  predicate Fits(x: int) { -INT_LIMIT <= x < INT_LIMIT }

  lemma TopBit(w: word)
    ensures TestBit(w, 31) <==> w >= INT_LIMIT
  {
    Pow2Word();
    HighBit(w, 31);
  }

  lemma {:induction false} HighBit(w: nat, k: nat)
    requires w < 2 * Pow2(k)
    ensures TestBit(w, k) <==> w >= Pow2(k)
  {
    if k > 0 { HighBit(w / 2, k - 1); }
  }

  lemma SignBitIsSign(x: int32)
    ensures SignBit(x) <==> x < 0
  {
    Pow2Word();
    MaskTestsBit(ToWord(x), 31);
    TopBit(ToWord(x));
  }

  lemma XorSign(a: int32, b: int32)
    ensures Xor(a, b) < 0 <==> (a < 0) != (b < 0)
  {
    var x, y := ToWord(a), ToWord(b);
    Pow2Word(); BitwiseBound(x, y, 32); BitwiseBound(y, x, 32);
    var p, q := BitAndNot(x, y), BitAndNot(y, x);
    BitwiseBound(p, q, 32);
    BitwiseBits(x, y, 31); BitwiseBits(y, x, 31); BitwiseBits(p, q, 31);
    TopBit(x); TopBit(y); TopBit(BitOr(p, q));
  }

  /** The two sign tests find exactly the sums and differences that 32 bits cannot hold. */
  lemma OverflowIsExact(a: int32, b: int32)
    ensures AddOverflows(a, b) <==> !Fits(a + b)
    ensures AddImmediateOverflows(a, b) <==> !Fits(a + b)
    ensures SubOverflows(a, b) <==> !Fits(a - b)
    ensures Fits(a + b) ==> Plus(a, b) == a + b
    ensures Fits(a - b) ==> Minus(a, b) == a - b
  {
    XorSign(a, b); SignBitIsSign(Xor(a, b));
    XorSign(a, Plus(a, b)); SignBitIsSign(Xor(a, Plus(a, b)));
    XorSign(b, Plus(a, b)); SignBitIsSign(Xor(b, Plus(a, b)));
    XorSign(a, Minus(a, b)); SignBitIsSign(Xor(a, Minus(a, b)));
    hide Xor, SignBit;
  }

  /** Division as C defines it: the quotient is rounded toward zero. */
  function Quotient(a: int, b: int): (q: int)
    requires b != 0
  {
    var m := Abs(a) / Abs(b);
    if (a < 0) == (b < 0) then m else -m
  }

  function Remainder(a: int, b: int): (r: int)
    requires b != 0
  {
    if a < 0 then -(Abs(a) % Abs(b)) else Abs(a) % Abs(b)
  }

  lemma DivisionIdentity(a: int, b: int)
    requires b != 0
    ensures Quotient(a, b) * b + Remainder(a, b) == a
    ensures Abs(Remainder(a, b)) < Abs(b) && (Remainder(a, b) == 0 || (Remainder(a, b) < 0 <==> a < 0))
  {
    var m, r := Abs(a) / Abs(b), Abs(a) % Abs(b);
    assert Abs(a) == m * Abs(b) + r;
    NegatedFactor(m, b);
  }

  lemma NegatedFactor(m: int, b: int)
    ensures m * Abs(b) == (if b < 0 then -(m * b) else m * b) && (-m) * b == -(m * b)
  {
  }

  /** The two words of a product. */
  function High(p: int): (h: int32) { Wrap(p / WORD_LIMIT) }

  function Low(p: int): (l: int32) { Wrap(p % WORD_LIMIT) }

  lemma ProductWords(hi: int32, lo: int32, p: int)
    requires p == hi * WORD_LIMIT + ToWord(lo) || p == ToWord(hi) * WORD_LIMIT + ToWord(lo)
    ensures hi == High(p) && lo == Low(p)
  {
    var q := if p == hi * WORD_LIMIT + ToWord(lo) then hi else ToWord(hi);
    Divides(p, q, ToWord(lo));
    WrapFits(hi);
    WrapFits(lo);
  }

  lemma Divides(p: int, q: int, r: word)
    requires p == q * WORD_LIMIT + r
    ensures p / WORD_LIMIT == q && p % WORD_LIMIT == r
  {
  }

  lemma WrapFits(x: int32)
    ensures Wrap(x) == x && Wrap(ToWord(x)) == x
  {
  }

  // ---------------------------------------------------------------- executing an instruction

  /** Everything an instruction reads from the registers; `merged` is what LWL and LWR take as
      the present value of rt, which may still be on its way there. */
  datatype Operands = Operands(rs: int32, rt: int32, hi: int32, lo: int32, nextPC: int32, merged: int32)

  datatype Saving = Saving(addr: int32, size: Width, value: int32)

  /** What the switch comes to: a trap, a failed assertion, or what to write. Register 0 as
      destination means that no general register is written. */
  datatype Effect =
    | Raise(exception: ExceptionType, badVAddr: int32)
    | Assertion
    | Finish(dest: Register, value: int32, hi: int32, lo: int32,
             loadReg: Register, loadValue: int32, pcAfter: int32, save: Option<Saving>)

  function Next(o: Operands): (pc: int32) { Plus(o.nextPC, 4) }

  function SetReg(o: Operands, r: Register, v: int32): (e: Effect) { Finish(r, v, o.hi, o.lo, 0, 0, Next(o), None) }

  function SetHiLo(o: Operands, hi: int32, lo: int32): (e: Effect) { Finish(0, 0, hi, lo, 0, 0, Next(o), None) }

  function GoTo(o: Operands, pc: int32): (e: Effect) { Finish(0, 0, o.hi, o.lo, 0, 0, pc, None) }

  /** A jump that first puts the return address into a register. */
  function Link(o: Operands, r: Register, pc: int32): (e: Effect) { Finish(r, Next(o), o.hi, o.lo, 0, 0, pc, None) }

  function BranchTarget(o: Operands, i: Instruction, taken: bool): (pc: int32) {
    if taken then Plus(o.nextPC, Wrap(4 * i.extra)) else Next(o)
  }

  function Truth(b: bool): (x: int32) { if b then 1 else 0 }

  /** What a load makes of the value that was read. */
  function Loaded(op: Opcode, v: int32, merged: int32): (r: int32) {
    match op
    case LB => var b := ToWord(v) % 256; if b < 128 then b else b - 256
    case LBU => ToWord(v) % 256
    case LH => var h := LowHalfOf(v); if h < 0x8000 then h else h - 0x1_0000
    case LHU => LowHalfOf(v)
    case LWR => Wrap(ToWord(merged) - ToWord(merged) % 256 + ToWord(v) / 0x100_0000)
    case _ => v
  }

  function LoadEffect(i: Instruction, o: Operands, a: Access, addr: int32): (e: Effect) {
    match a
    case Trapped(x) => Raise(x, addr)
    case Done(v) => Finish(0, 0, o.hi, o.lo, i.rt, Loaded(i.op, v, o.merged), Next(o), None)
  }

  function SaveEffect(o: Operands, table: seq<TranslationEntry>, addr: int32, size: Width, v: int32): (e: Effect) {
    match Translate(table, addr, size, true)
    case Fault(x) => Raise(x, addr)
    case Physical(_) => Finish(0, 0, o.hi, o.lo, 0, 0, Next(o), Some(Saving(addr, size, v)))
  }

  function LowHalfOf(x: int32): (r: int32) { ToWord(x) % 0x1_0000 }

  function ShiftLeft(x: int32, k: nat): (r: int32) { Wrap(x * Pow2(k)) }

  /** Of a C int: the sign is copied in. */
  function ShiftRight(x: int32, k: nat): (r: int32)
    decreases k
  {
    if k == 0 then x else ShiftRight(x / 2, k - 1)
  }

  /** The result of an instruction that goes to rd. */
  function RdValue(op: Opcode, a: int32, b: int32, k: nat, hi: int32, lo: int32): (r: int32) {
    match op
    case ADD | ADDU => Plus(a, b)
    case SUB | SUBU => Minus(a, b)
    case AND => And(a, b)
    case OR => Or(a, a)
    case NOR => -1 - Or(a, b)
    case XOR => Xor(a, b)
    case SLT => Truth(a < b)
    case SLTU => Truth(ToWord(a) < ToWord(b))
    case SLL => ShiftLeft(b, k)
    case SLLV => ShiftLeft(b, ToWord(a) % 32)
    case SRA | SRL => ShiftRight(b, k)
    case SRAV | SRLV => ShiftRight(b, ToWord(a) % 32)
    case MFHI => hi
    case _ => lo
  }

  function RegisterOp(i: Instruction, o: Operands): (e: Effect)
    requires Executable(i)
  {
    if i.op == ADD && AddOverflows(o.rs, o.rt) then Raise(Overflow, 0)
    else if i.op == SUB && SubOverflows(o.rs, o.rt) then Raise(Overflow, 0)
    else SetReg(o, i.rd, RdValue(i.op, o.rs, o.rt, if Shift(i.op) then i.extra else 0, o.hi, o.lo))
  }

  /** Instructions whose result goes to rt. */
  function ImmediateOp(i: Instruction, o: Operands): (e: Effect) {
    match i.op
    case ADDI => if AddImmediateOverflows(o.rs, i.extra) then Raise(Overflow, 0) else SetReg(o, i.rt, Plus(o.rs, i.extra))
    case ADDIU => SetReg(o, i.rt, Plus(o.rs, i.extra))
    case ANDI => SetReg(o, i.rt, And(o.rs, LowHalfOf(i.extra)))
    case ORI => SetReg(o, i.rt, Or(o.rs, LowHalfOf(i.extra)))
    case XORI => SetReg(o, i.rt, Xor(o.rs, LowHalfOf(i.extra)))
    case SLTI => SetReg(o, i.rt, Truth(o.rs < i.extra))
    case SLTIU => SetReg(o, i.rt, Truth(ToWord(o.rs) < ToWord(i.extra)))
    case LUI => SetReg(o, i.rt, Wrap(i.extra * 0x1_0000))
    case _ => Assertion
  }

  /** Instructions that write the Hi and Lo registers. */
  function HiLoOp(i: Instruction, o: Operands): (e: Effect) {
    var a, b := o.rs, o.rt;
    match i.op
    case MTHI => SetHiLo(o, a, o.lo)
    case MTLO => SetHiLo(o, o.hi, a)
    case MULT => SetHiLo(o, High(a * b), Low(a * b))
    case MULTU => var p := ToWord(a) * ToWord(b); SetHiLo(o, High(p), Low(p))
    case DIV => if b == 0 then SetHiLo(o, 0, 0) else SetHiLo(o, Wrap(Remainder(a, b)), Wrap(Quotient(a, b)))
    case DIVU =>
      if b == 0 then SetHiLo(o, 0, 0)
      else SetHiLo(o, Wrap(Remainder(ToWord(a), ToWord(b))), Wrap(Quotient(ToWord(a), ToWord(b))))
    case _ => Assertion
  }

  /** Branches and jumps. The linking ones write the return address before they read rs. */
  function JumpOp(i: Instruction, o: Operands): (e: Effect) {
    match i.op
    case BEQ => GoTo(o, BranchTarget(o, i, o.rs == o.rt))
    case BNE => GoTo(o, BranchTarget(o, i, o.rs != o.rt))
    case BGTZ => GoTo(o, BranchTarget(o, i, o.rs > 0))
    case BLEZ => GoTo(o, BranchTarget(o, i, o.rs <= 0))
    case BGEZ => GoTo(o, BranchTarget(o, i, o.rs >= 0))
    case BLTZ => GoTo(o, BranchTarget(o, i, o.rs < 0))
    case BGEZAL => Link(o, 31, BranchTarget(o, i, (if i.rs == 31 then Next(o) else o.rs) >= 0))
    case BLTZAL => Link(o, 31, BranchTarget(o, i, (if i.rs == 31 then Next(o) else o.rs) < 0))
    case J => GoTo(o, JumpTarget(o, i))
    case JAL => Link(o, 31, JumpTarget(o, i))
    case JR => GoTo(o, o.rs)
    case JALR => Link(o, i.rd, if i.rs == i.rd then Next(o) else o.rs)
    case _ => Assertion
  }

  function JumpTarget(o: Operands, i: Instruction): (pc: int32) {
    var w := ToWord(Next(o));
    Wrap(w - w % 0x1000_0000 + 4 * i.extra)
  }

  /** Loads; the loaded value is handed on, to be written after the next instruction. */
  function LoadOp(i: Instruction, o: Operands, table: seq<TranslationEntry>, memory: seq<byte>): (e: Effect)
    requires |memory| == MEMORY_SIZE
  {
    var addr := Plus(o.rs, i.extra);
    match i.op
    case LB | LBU => LoadEffect(i, o, ReadResult(table, memory, addr, 1), addr)
    case LH | LHU =>
      if addr % 2 != 0 then Raise(AddressError, addr) else LoadEffect(i, o, ReadResult(table, memory, addr, 2), addr)
    case LW =>
      if addr % 4 != 0 then Raise(AddressError, addr) else LoadEffect(i, o, ReadResult(table, memory, addr, 4), addr)
    case LWL | LWR =>
      if addr % 4 != 0 then Assertion else LoadEffect(i, o, ReadResult(table, memory, addr, 4), addr)
    case _ => Assertion
  }

  /** How many bytes a store writes. */
  function WidthOf(i: Instruction): (size: Width) {
    if i.op == SB then 1 else if i.op == SH then 2 else 4
  }

  /** Stores. */
  function StoreOp(i: Instruction, o: Operands, table: seq<TranslationEntry>, memory: seq<byte>): (e: Effect)
    requires |memory| == MEMORY_SIZE
  {
    var addr := Plus(o.rs, i.extra);
    match i.op
    case SB => SaveEffect(o, table, addr, 1, o.rt)
    case SH => SaveEffect(o, table, addr, 2, o.rt)
    case SW => SaveEffect(o, table, addr, 4, o.rt)
    case SWL =>
      if addr % 4 != 0 then Assertion
      else
        (match ReadResult(table, memory, addr, 4)
         case Trapped(x) => Raise(x, addr)
         case Done(_) => SaveEffect(o, table, addr, 4, o.rt))
    case SWR =>
      if addr % 4 != 0 then Assertion
      else
        (match ReadResult(table, memory, addr, 4)
         case Trapped(x) => Raise(x, addr)
         case Done(v) => SaveEffect(o, table, addr, 4, Wrap(ToWord(v) % 0x100_0000 + ToWord(o.rt) % 256 * 0x100_0000)))
    case _ => Assertion
  }

  datatype Group = ToRd | ToRt | ToHiLo | Jumps | Loads | Stores | Traps

  function GroupOf(op: Opcode): (g: Group) {
    match op
    case ADD | SUB | ADDU | SUBU | AND | OR | NOR | XOR | SLT | SLTU | SLL | SLLV | SRA | SRL | SRAV | SRLV | MFHI | MFLO => ToRd
    case ADDI | ADDIU | ANDI | ORI | XORI | SLTI | SLTIU | LUI => ToRt
    case MTHI | MTLO | MULT | MULTU | DIV | DIVU => ToHiLo
    case BEQ | BNE | BGTZ | BLEZ | BGEZ | BLTZ | BGEZAL | BLTZAL | J | JAL | JR | JALR => Jumps
    case LB | LBU | LH | LHU | LW | LWL | LWR => Loads
    case SB | SH | SW | SWL | SWR => Stores
    case SYSCALL | UNIMP | RES | RFE | SPECIAL | BCOND => Traps
  }

  /** The switch of OneInstruction. */
  function Execute(i: Instruction, o: Operands, table: seq<TranslationEntry>, memory: seq<byte>): (e: Effect)
    requires Executable(i) && |memory| == MEMORY_SIZE
  {
    match GroupOf(i.op)
    case ToRd => RegisterOp(i, o)
    case ToRt => ImmediateOp(i, o)
    case ToHiLo => HiLoOp(i, o)
    case Jumps => JumpOp(i, o)
    case Loads => LoadOp(i, o, table, memory)
    case Stores => StoreOp(i, o, table, memory)
    case Traps => if i.op == SYSCALL then Raise(Syscall, 0) else Raise(IllegalInstr, 0)
  }

  // ---------------------------------------------------------------- one step, as a function of the state

  /** The registers, and the bytes of physical memory. */
  datatype Cpu = Cpu(regs: seq<int32>, memory: seq<byte>)

  /** What holds between instructions: r0 is zero and a pending load aims at a general register. */
  predicate Sound(c: Cpu) {
    |c.regs| == NUM_TOTAL_REGS && |c.memory| == MEMORY_SIZE && c.regs[0] == 0 && 0 <= c.regs[LOAD_REG] < 32
  }

  datatype Outcome = Completed | Trap(exception: ExceptionType) | Halted

  datatype Step = Step(outcome: Outcome, cpu: Cpu)

  function OperandsOf(i: Instruction, regs: seq<int32>): (o: Operands)
    requires |regs| == NUM_TOTAL_REGS
  {
    Operands(regs[i.rs], regs[i.rt], regs[HI_REG], regs[LO_REG], regs[NEXT_PC_REG],
             if regs[LOAD_REG] == i.rt then regs[LOAD_VALUE_REG] else regs[i.rt])
  }

  /** Machine::DelayedLoad. */
  function AfterLoad(regs: seq<int32>, nextReg: Register, nextValue: int32): (r: seq<int32>)
    requires |regs| == NUM_TOTAL_REGS && 0 <= regs[LOAD_REG] < 32
    ensures |r| == NUM_TOTAL_REGS && r[LOAD_REG] == nextReg && r[0] == 0
  {
    regs[regs[LOAD_REG] := regs[LOAD_VALUE_REG]][LOAD_REG := nextReg][LOAD_VALUE_REG := nextValue][0 := 0]
  }

  /** The registers as the exception handler finds them. */
  function AtHandler(regs: seq<int32>, badVAddr: int32): (r: seq<int32>)
    requires |regs| == NUM_TOTAL_REGS && 0 <= regs[LOAD_REG] < 32
    ensures |r| == NUM_TOTAL_REGS && r[LOAD_REG] == 0 && r[0] == 0
  {
    AfterLoad(regs[BAD_VADDR_REG := badVAddr], 0, 0)
  }

  /** The registers at the end of the switch. */
  function Written(regs: seq<int32>, e: Effect): (r: seq<int32>)
    requires e.Finish? && |regs| == NUM_TOTAL_REGS
    ensures |r| == NUM_TOTAL_REGS && r[LOAD_REG] == regs[LOAD_REG]
  {
    regs[e.dest := e.value][HI_REG := e.hi][LO_REG := e.lo]
  }

  /** The registers after an instruction that ran to its end. */
  function AtEnd(regs: seq<int32>, e: Effect): (r: seq<int32>)
    requires e.Finish? && |regs| == NUM_TOTAL_REGS && 0 <= regs[LOAD_REG] < 32
    ensures |r| == NUM_TOTAL_REGS
  {
    var loaded := AfterLoad(Written(regs, e), e.loadReg, e.loadValue);
    loaded[PREV_PC_REG := loaded[PC_REG]][PC_REG := loaded[NEXT_PC_REG]][NEXT_PC_REG := e.pcAfter]
  }

  function Saved(table: seq<TranslationEntry>, memory: seq<byte>, save: Option<Saving>): (r: seq<byte>)
    requires |memory| == MEMORY_SIZE
    ensures |r| == MEMORY_SIZE
  {
    match save
    case None => memory
    case Some(s) => WriteResult(table, memory, s.addr, s.size, s.value)
  }

  function Perform(table: seq<TranslationEntry>, c: Cpu, i: Instruction): (s: Step)
    requires Sound(c) && Executable(i)
    ensures Sound(s.cpu)
  {
    match Execute(i, OperandsOf(i, c.regs), table, c.memory)
    case Raise(x, bad) => Step(Trap(x), Cpu(AtHandler(c.regs, bad), c.memory))
    case Assertion => Step(Halted, c)
    case e: Effect => Step(Completed, Cpu(AtEnd(c.regs, e), Saved(table, c.memory, e.save)))
  }

  /** Machine::OneInstruction. Whatever the instruction word and the state, r0 stays zero and a
      pending load keeps aiming at a general register. */
  function OneStep(table: seq<TranslationEntry>, c: Cpu): (s: Step)
    requires Sound(c)
    ensures Sound(s.cpu)
  {
    match ReadResult(table, c.memory, c.regs[PC_REG], 4)
    case Trapped(x) => Step(Trap(x), Cpu(AtHandler(c.regs, c.regs[PC_REG]), c.memory))
    case Done(raw) => DecodedIsExecutable(ToWord(raw)); Perform(table, c, Decode(ToWord(raw)))
  }

  /** CheckIfDue carries out the pending load before it calls the handler of an interrupt. */
  function Interrupted(c: Cpu): (r: Cpu)
    requires Sound(c)
    ensures Sound(r)
  {
    Cpu(AfterLoad(c.regs, 0, 0), c.memory)
  }

  /** Machine::Run until something traps: at[k] says whether an interrupt comes just before
      instruction k, and tables[k] is the page table at that moment. */
  function Steps(tables: seq<seq<TranslationEntry>>, c: Cpu, at: seq<bool>): (s: Step)
    requires Sound(c) && |tables| == |at|
    ensures Sound(s.cpu)
  {
    if at == [] then Step(Completed, c)
    else
      var s := OneStep(tables[0], if at[0] then Interrupted(c) else c);
      if s.outcome.Completed? then Steps(tables[1..], s.cpu, at[1..]) else s
  }

  lemma {:induction false} StepsExtend(tables: seq<seq<TranslationEntry>>, c: Cpu, at: seq<bool>, table: seq<TranslationEntry>, b: bool)
    requires Sound(c) && |tables| == |at| && Steps(tables, c, at).outcome.Completed?
    ensures var d := Steps(tables, c, at).cpu;
      Steps(tables + [table], c, at + [b]) == OneStep(table, if b then Interrupted(d) else d)
    decreases |at|
  {
    hide OneStep, Interrupted;
    if at == [] {
      assert tables + [table] == [table] && at + [b] == [b];
    } else {
      assert (tables + [table])[1..] == tables[1..] + [table] && (at + [b])[1..] == at[1..] + [b];
      StepsExtend(tables[1..], OneStep(tables[0], if at[0] then Interrupted(c) else c).cpu, at[1..], table, b);
    }
  }

  // ---------------------------------------------------------------- what every instruction keeps

  /** Registers at the entry of a handler are those before the instruction, with the pending
      load carried out. */
  ghost predicate OnlyLoadApplied(before: seq<int32>, after: seq<int32>)
    requires |before| == |after| == NUM_TOTAL_REGS && 0 <= before[LOAD_REG] < 32
  {
    && after[0] == 0 && after[LOAD_REG] == 0
    && (before[LOAD_REG] != 0 ==> after[before[LOAD_REG]] == before[LOAD_VALUE_REG])
    && forall r | 1 <= r < LOAD_REG && r != before[LOAD_REG] :: after[r] == before[r]
  }

  /** Precise exceptions: an instruction that traps has changed no memory, no program counter,
      no Hi or Lo and no general register but the target of the load that was pending. */
  lemma TrapIsPrecise(table: seq<TranslationEntry>, c: Cpu)
    requires Sound(c)
    ensures OneStep(table, c).outcome.Trap? ==>
              OneStep(table, c).cpu.memory == c.memory && OnlyLoadApplied(c.regs, OneStep(table, c).cpu.regs)
  {
    hide Execute, Decode, Executable, ReadResult, OperandsOf;
  }

  /** An instruction that does not trap moves on by one step through the delay slot, and a
      pending load arrives even if the instruction itself wrote the same register. */
  lemma CompletedMovesOn(table: seq<TranslationEntry>, c: Cpu)
    requires Sound(c)
    ensures var r := OneStep(table, c).cpu.regs; OneStep(table, c).outcome.Completed? ==>
      && r[PC_REG] == c.regs[NEXT_PC_REG] && r[PREV_PC_REG] == c.regs[PC_REG]
      && r[BAD_VADDR_REG] == c.regs[BAD_VADDR_REG]
      && (c.regs[LOAD_REG] != 0 ==> r[c.regs[LOAD_REG]] == c.regs[LOAD_VALUE_REG])
  {
    hide Execute, Decode, Executable, ReadResult, OperandsOf;
  }

  // ---------------------------------------------------------------- what an instruction reads and writes

  predicate UsesRs(op: Opcode) {
    match op
    case J | JAL | LUI | MFHI | MFLO | SLL | SRA | SRL | SYSCALL | UNIMP | RES => false
    case _ => true
  }

  /** OR reads rs twice, and rt not at all. */
  predicate UsesRt(op: Opcode) {
    match op
    case ADD | ADDU | SUB | SUBU | AND | NOR | XOR | SLT | SLTU | SLL | SLLV | SRA | SRAV | SRL | SRLV
      | BEQ | BNE | DIV | DIVU | MULT | MULTU | SB | SH | SW | SWL | SWR => true
    case _ => false
  }

  function Dest(i: Instruction): (r: Register) {
    match GroupOf(i.op)
    case ToRd => i.rd
    case ToRt => i.rt
    case _ => if i.op in {BGEZAL, BLTZAL, JAL} then 31 else if i.op == JALR then i.rd else 0
  }

  predicate Agree(i: Instruction, o: Operands, p: Operands) {
    && (UsesRs(i.op) ==> o.rs == p.rs) && (UsesRt(i.op) ==> o.rt == p.rt)
    && (i.op == LWR ==> o.merged == p.merged)
    && o.hi == p.hi && o.lo == p.lo && o.nextPC == p.nextPC
  }

  lemma RdValueReads(op: Opcode, a: int32, b: int32, k: nat, hi: int32, lo: int32, a': int32, b': int32)
    requires GroupOf(op) == ToRd && (UsesRs(op) ==> a == a') && (UsesRt(op) ==> b == b')
    ensures RdValue(op, a, b, k, hi, lo) == RdValue(op, a', b', k, hi, lo)
  {
    hide And, Or, Xor, Wrap, Plus, Minus, ToWord, ShiftRight, ShiftLeft, Truth;
    if !UsesRs(op) || !UsesRt(op) {
      assert op == MFHI || op == MFLO || op == SLL || op == SRA || op == SRL || op == OR;
      hide GroupOf, UsesRs, UsesRt;
    }
  }

  lemma RegisterReads(i: Instruction, o: Operands, p: Operands)
    requires Executable(i) && Agree(i, o, p) && GroupOf(i.op) == ToRd
    ensures RegisterOp(i, o) == RegisterOp(i, p)
  {
    hide RdValue, GroupOf, Wrap, Plus, Minus, ToWord, And, Or, Xor, AddOverflows, SubOverflows;
    var k := if Shift(i.op) then i.extra else 0;
    RdValueReads(i.op, o.rs, o.rt, k, o.hi, o.lo, p.rs, p.rt);
    if i.op == ADD || i.op == SUB {
      assert o.rs == p.rs && o.rt == p.rt;
    }
  }

  lemma ImmediateReads(i: Instruction, o: Operands, p: Operands)
    requires Agree(i, o, p) && GroupOf(i.op) == ToRt
    ensures ImmediateOp(i, o) == ImmediateOp(i, p)
  {
    hide And, Or, Xor, Wrap, Plus, Minus, ToWord, AddImmediateOverflows, LowHalfOf, Truth;
  }

  lemma JumpReads(i: Instruction, o: Operands, p: Operands)
    requires Agree(i, o, p) && GroupOf(i.op) == Jumps
    ensures JumpOp(i, o) == JumpOp(i, p)
  {
    hide Wrap, Plus, Minus, ToWord;
  }

  lemma HiLoReads(i: Instruction, o: Operands, p: Operands)
    requires Agree(i, o, p) && GroupOf(i.op) == ToHiLo
    ensures HiLoOp(i, o) == HiLoOp(i, p)
  {
    assert UsesRs(i.op);
    hide Wrap, Plus, Minus, ToWord, Quotient, Remainder, High, Low;
  }

  lemma MemoryReads(i: Instruction, o: Operands, p: Operands, table: seq<TranslationEntry>, memory: seq<byte>)
    requires |memory| == MEMORY_SIZE && Agree(i, o, p) && GroupOf(i.op) in {Loads, Stores}
    ensures GroupOf(i.op) == Loads ==> LoadOp(i, o, table, memory) == LoadOp(i, p, table, memory)
    ensures GroupOf(i.op) == Stores ==> StoreOp(i, o, table, memory) == StoreOp(i, p, table, memory)
  {
    hide ReadResult, Translate, Wrap, Plus, Minus, ToWord, LowHalfOf;
  }

  /** UsesRs and UsesRt name every register that an instruction depends on. */
  lemma ReadsOnlyOperands(i: Instruction, o: Operands, p: Operands, table: seq<TranslationEntry>, memory: seq<byte>)
    requires Executable(i) && |memory| == MEMORY_SIZE && Agree(i, o, p)
    ensures Execute(i, o, table, memory) == Execute(i, p, table, memory)
  {
    hide Agree, RegisterOp, ImmediateOp, HiLoOp, JumpOp, LoadOp, StoreOp, Executable, GroupOf;
    match GroupOf(i.op)
    case ToRd => RegisterReads(i, o, p);
    case ToRt => ImmediateReads(i, o, p);
    case Jumps => JumpReads(i, o, p);
    case ToHiLo => HiLoReads(i, o, p);
    case Loads | Stores => MemoryReads(i, o, p, table, memory);
    case Traps =>
  }

  lemma RegisterWrites(i: Instruction, o: Operands)
    requires Executable(i)
    ensures RegisterOp(i, o).Finish? ==> RegisterOp(i, o).dest == i.rd && RegisterOp(i, o).save == None
  {
    hide RdValue, AddOverflows, SubOverflows;
  }

  lemma ImmediateWrites(i: Instruction, o: Operands)
    ensures ImmediateOp(i, o).Finish? ==> ImmediateOp(i, o).dest == i.rt && ImmediateOp(i, o).save == None
  {
    hide And, Or, Xor, Wrap, Plus, Minus, ToWord, AddImmediateOverflows, LowHalfOf, Truth;
  }

  lemma HiLoWrites(i: Instruction, o: Operands)
    ensures HiLoOp(i, o).Finish? ==> HiLoOp(i, o).dest == 0 && HiLoOp(i, o).save == None
  {
    hide Wrap, Plus, Minus, ToWord, Quotient, Remainder, High, Low;
  }

  lemma OtherWrites(i: Instruction, o: Operands, table: seq<TranslationEntry>, memory: seq<byte>)
    requires |memory| == MEMORY_SIZE
    ensures GroupOf(i.op) == Jumps && JumpOp(i, o).Finish? ==> JumpOp(i, o).dest == Dest(i) && JumpOp(i, o).save == None
    ensures var e := LoadOp(i, o, table, memory); e.Finish? ==> e.dest == 0 && e.save == None
    ensures StoreOp(i, o, table, memory).Finish? ==> StoreOp(i, o, table, memory).dest == 0
  {
    hide ReadResult, Translate, Wrap, Plus, Minus, ToWord, Loaded, BranchTarget, JumpTarget, Next;
  }

  /** Dest names the general register that an instruction writes at once. */
  lemma WritesOnlyDest(i: Instruction, o: Operands, table: seq<TranslationEntry>, memory: seq<byte>)
    requires Executable(i) && |memory| == MEMORY_SIZE
    ensures Execute(i, o, table, memory).Finish? ==> Execute(i, o, table, memory).dest == Dest(i)
  {
    hide RegisterOp, ImmediateOp, HiLoOp, JumpOp, LoadOp, StoreOp, Executable;
    match GroupOf(i.op)
    case ToRd => RegisterWrites(i, o);
    case ToRt => ImmediateWrites(i, o);
    case ToHiLo => HiLoWrites(i, o);
    case _ => OtherWrites(i, o, table, memory);
  }

  // ---------------------------------------------------------------- what arithmetic leaves in the registers

  /** ADD, ADDI and SUB trap exactly when 32 bits cannot hold the result, and otherwise leave
      the exact result. */
  lemma AdditionIsExact(table: seq<TranslationEntry>, c: Cpu, i: Instruction)
    requires Sound(c) && Executable(i) && i.op in {ADD, ADDI, SUB}
    ensures var a, b := c.regs[i.rs], c.regs[i.rt];
      var exact := if i.op == ADD then a + b else if i.op == SUB then a - b else a + i.extra;
      var s := Perform(table, c, i);
      && s.outcome == (if Fits(exact) then Completed else Trap(Overflow))
      && (Fits(exact) && Dest(i) != 0 ==>
            s.cpu.regs[Dest(i)] == if Dest(i) == c.regs[LOAD_REG] then c.regs[LOAD_VALUE_REG] else exact)
  {
    var o := OperandsOf(i, c.regs);
    AdditionEffect(i, o, table, c.memory);
    hide Execute, Wrap, Plus, Minus;
  }

  function Exact(i: Instruction, o: Operands): (x: int) {
    if i.op == ADD then o.rs + o.rt else if i.op == SUB then o.rs - o.rt else o.rs + i.extra
  }

  lemma AdditionEffect(i: Instruction, o: Operands, table: seq<TranslationEntry>, memory: seq<byte>)
    requires Executable(i) && |memory| == MEMORY_SIZE && i.op in {ADD, ADDI, SUB}
    ensures Execute(i, o, table, memory) ==
      if Fits(Exact(i, o)) then SetReg(o, Dest(i), Exact(i, o)) else Raise(Overflow, 0)
  {
    OverflowIsExact(o.rs, o.rt);
    OverflowIsExact(o.rs, i.extra);
    hide AddImmediateOverflows, AddOverflows, SubOverflows, Wrap, Plus, Minus;
  }

  lemma ProductFits(a: int32, b: int32)
    ensures -INT_LIMIT * INT_LIMIT <= a * b <= INT_LIMIT * INT_LIMIT
  {
    Multiplier.MagnitudeBound(Abs(a), Abs(b));
    assert a * b == Abs(a) * Abs(b) || a * b == -(Abs(a) * Abs(b));
  }

  lemma WordsOfProduct(p: int)
    requires -INT_LIMIT * INT_LIMIT <= p <= INT_LIMIT * INT_LIMIT
    ensures High(p) * WORD_LIMIT + ToWord(Low(p)) == p
  {
    var q := p / WORD_LIMIT;
    assert p == q * WORD_LIMIT + p % WORD_LIMIT;
    WrapFits(q);
    WrapFits(ToInt(p % WORD_LIMIT));
  }

  /** MULT leaves the exact signed product in Hi and Lo. */
  lemma MultiplyIsExact(table: seq<TranslationEntry>, c: Cpu, i: Instruction)
    requires Sound(c) && Executable(i) && i.op == MULT
    ensures var r := Perform(table, c, i).cpu.regs;
      r[HI_REG] as int * WORD_LIMIT + ToWord(r[LO_REG]) as int == c.regs[i.rs] as int * c.regs[i.rt] as int
  {
    var p := c.regs[i.rs] as int * c.regs[i.rt] as int;
    ProductFits(c.regs[i.rs], c.regs[i.rt]);
    WordsOfProduct(p);
    HiLoEnd(table, c, i);
    hide Perform, High, Low, ToWord, Executable;
  }

  /** DIV leaves a quotient and a remainder that make up the dividend, except for the one
      quotient that 32 bits cannot hold; the remainder has the sign of the dividend, so both
      are determined. */
  lemma DivideIsExact(table: seq<TranslationEntry>, c: Cpu, i: Instruction)
    requires Sound(c) && Executable(i) && i.op == DIV
    ensures var a, b, r := c.regs[i.rs], c.regs[i.rt], Perform(table, c, i).cpu.regs;
      && (b == 0 ==> r[HI_REG] == r[LO_REG] == 0)
      && (b != 0 && !(a == -INT_LIMIT && b == -1) ==>
            && r[LO_REG] as int * b as int + r[HI_REG] as int == a as int && Abs(r[HI_REG]) < Abs(b)
            && (r[HI_REG] == 0 || (r[HI_REG] < 0 <==> a < 0)))
  {
    var a, b := c.regs[i.rs], c.regs[i.rt];
    HiLoEnd(table, c, i);
    hide Perform, Quotient, Remainder, Wrap, Plus, Minus, Abs, Executable;
    if b != 0 && !(a == -INT_LIMIT && b == -1) {
      DivisionIdentity(a, b);
      QuotientFits(a, b);
    }
  }

  lemma HiLoEnd(table: seq<TranslationEntry>, c: Cpu, i: Instruction)
    requires Sound(c) && Executable(i) && (i.op == MULT || i.op == DIV)
    ensures var s, e := Perform(table, c, i), HiLoOp(i, OperandsOf(i, c.regs));
      s.outcome == Completed && e.Finish? && s.cpu.regs[HI_REG] == e.hi && s.cpu.regs[LO_REG] == e.lo
  {
    hide Quotient, Remainder, High, Low, ToWord, Wrap, Plus, Minus;
  }

  lemma QuotientFits(a: int32, b: int32)
    requires b != 0 && !(a == -INT_LIMIT && b == -1)
    ensures Wrap(Quotient(a, b)) == Quotient(a, b) && Wrap(Remainder(a, b)) == Remainder(a, b)
  {
    DivisionIdentity(a, b);
    var m := Abs(a) / Abs(b);
    assert m <= Abs(a) && (Abs(b) > 1 ==> 2 * m <= Abs(a)) by { DivisionShrinks(Abs(a), Abs(b)); }
    WrapFits(Quotient(a, b));
    WrapFits(Remainder(a, b));
  }

  lemma DivisionShrinks(x: nat, d: nat)
    requires d > 0
    ensures x / d <= x && (d > 1 ==> 2 * (x / d) <= x)
  {
    var q := x / d;
    assert x == q * d + x % d;
    Grows(q, d);
  }

  lemma Grows(q: nat, d: nat)
    requires d > 0
    ensures q <= q * d && (d > 1 ==> 2 * q <= q * d)
  {
    assert q * d == q + q * (d - 1);
    if d > 1 { assert q * (d - 1) == q + q * (d - 2); }
  }
}
