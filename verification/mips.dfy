/**
 The MIPS R2/3000 simulator (machine/mipssim.cc, SIM_FIX build): one instruction at a time, with delayed loads.

 The slots of `registers[]` beyond the 32 general ones are named fields of Cpu.
 */
module Mips {
  import opened Common
  import opened Bits
  import opened Memory
  import opened Multiplier

  type Reg = r: nat | r < 32

  datatype Op =
    | ADD | ADDI | ADDIU | ADDU | AND | ANDI | BEQ | BGEZ | BGEZAL | BGTZ | BLEZ | BLTZ | BLTZAL | BNE
    | DIV | DIVU | J | JAL | JALR | JR | LB | LBU | LH | LHU | LUI | LW | LWL | LWR
    | MFHI | MFLO | MTHI | MTLO | MULT | MULTU | NOR | OR | ORI | SB | SH | SLL | SLLV | SLT | SLTI | SLTIU | SLTU
    | SRA | SRAV | SRL | SRLV | SUB | SUBU | SW | SWL | SWR | XOR | XORI | SYSCALL | UNIMP | RES

  datatype Instruction = Instruction(op: Op, rs: Reg, rt: Reg, rd: Reg, extra: Word)

  datatype Cpu = Cpu(
    gpr: seq<Word>, hi: Word, lo: Word, pc: Word, nextPc: Word, prevPc: Word,
    loadReg: Reg, loadValue: Word, badVAddr: Word)
  {
    predicate Valid() {
      |gpr| == 32
    }
  }

  // ---------------------------------------------------------------- decoding

  /** opTable: SPECIAL and BCOND are decoded further. */
  function PrimaryOp(i: nat): Op {
    match i
    case 2 => J case 3 => JAL case 4 => BEQ case 5 => BNE case 6 => BLEZ case 7 => BGTZ
    case 8 => ADDI case 9 => ADDIU case 10 => SLTI case 11 => SLTIU
    case 12 => ANDI case 13 => ORI case 14 => XORI case 15 => LUI
    case 16 => UNIMP case 17 => UNIMP case 18 => UNIMP case 19 => UNIMP
    case 32 => LB case 33 => LH case 34 => LWL case 35 => LW case 36 => LBU case 37 => LHU case 38 => LWR
    case 40 => SB case 41 => SH case 42 => SWL case 43 => SW case 46 => SWR
    case 48 => UNIMP case 49 => UNIMP case 50 => UNIMP case 51 => UNIMP
    case 56 => UNIMP case 57 => UNIMP case 58 => UNIMP case 59 => UNIMP
    case _ => RES
  }

  /** specialTable, indexed by the funct field. */
  function SpecialOp(i: nat): Op {
    match i
    case 0 => SLL case 2 => SRL case 3 => SRA case 4 => SLLV case 6 => SRLV case 7 => SRAV
    case 8 => JR case 9 => JALR case 12 => SYSCALL case 13 => UNIMP
    case 16 => MFHI case 17 => MTHI case 18 => MFLO case 19 => MTLO
    case 24 => MULT case 25 => MULTU case 26 => DIV case 27 => DIVU
    case 32 => ADD case 33 => ADDU case 34 => SUB case 35 => SUBU
    case 36 => AND case 37 => OR case 38 => XOR case 39 => NOR case 42 => SLT case 43 => SLTU
    case _ => RES
  }

  function BranchOp(value: Word): Op {
    var i := And(value, 0x1f_0000);
    if i == 0 then BLTZ else if i == 0x1_0000 then BGEZ
    else if i == 0x10_0000 then BLTZAL else if i == 0x11_0000 then BGEZAL else UNIMP
  }

  /** Five bits of an instruction; dividing by 2^k is `>> k` on an unsigned word. */
  function Field(value: Word, unit: nat): Reg
    requires unit > 0
  {
    And(value / unit, 0x1f)
  }

  /** The immediate, sign-extended; the jump target; or the shift amount. */
  function Extra(value: Word, primary: nat): Word {
    var low := And(value, 0xffff);
    if primary == 0 then Field(value, 0x40)
    else if primary == 2 || primary == 3 then And(value, 0x3ff_ffff)
    else if And(low, 0x8000) != 0 then Or32(low, 0xffff_0000)
    else low
  }

  function Decode(value: Word): Instruction {
    var primary := And(value / 0x400_0000, 0x3f);
    var op :=
      if primary == 0 then SpecialOp(And(value, 0x3f))
      else if primary == 1 then BranchOp(value)
      else PrimaryOp(primary);
    Instruction(op, Field(value, 0x20_0000), Field(value, 0x1_0000), Field(value, 0x800), Extra(value, primary))
  }

  // ---------------------------------------------------------------- 32-bit arithmetic

  function Wrap(x: int): Word {
    x % W
  }

  function Or32(x: Word, y: Word): Word {
    Pow2Width();
    OrBound(x, y, 32);
    Or(x, y)
  }

  function Xor32(x: Word, y: Word): Word {
    Pow2Width();
    XorBound(x, y, 32);
    Xor(x, y)
  }

  function Not32(x: Word): Word {
    W - 1 - x
  }

  function Shl(x: Word, k: nat): Word {
    Wrap(x * Pow2(k))
  }

  /** The arithmetic shift that C makes of `>>` on an int. */
  function Sar(x: Word, k: nat): (r: Word) {
    Wrap(ToInt(x) / Pow2(k))
  }

  /** C division truncates toward zero. */
  function TruncDiv(x: int, y: int): int
    requires y != 0
  {
    var q := (if x < 0 then -x else x) / (if y < 0 then -y else y);
    if (x < 0) != (y < 0) then -q else q
  }

  const SIGN_BIT: Word := 0x8000_0000

  predicate SignSet(x: Word) {
    And(x, SIGN_BIT) != 0
  }

  function MultHi(a: Word, b: Word, signedArith: bool): Word {
    Product(a, b, signedArith) / W
  }

  function MultLo(a: Word, b: Word, signedArith: bool): Word {
    Product(a, b, signedArith) % W
  }

  // ---------------------------------------------------------------- unaligned loads and stores

  /** LWL: the bytes of the aligned word up to byte `byte` go to the top of the register. */
  function LwlMerge(byte: nat, value: Word, old_: Word): Word {
    match 3 - byte
    case 0 => value
    case 1 => Or32(Shl(value, 8), And(old_, 0xff))
    case 2 => Or32(Shl(value, 16), And(old_, 0xffff))
    case _ => Or32(Shl(value, 24), And(old_, 0xff_ffff))
  }

  /** LWR: the bytes of the aligned word from byte `byte` go to the bottom of the register. */
  function LwrMerge(byte: nat, value: Word, old_: Word): Word {
    match 3 - byte
    case 0 => Or32(And(old_, 0xffff_ff00), And(Sar(value, 24), 0xff))
    case 1 => Or32(And(old_, 0xffff_0000), And(Sar(value, 16), 0xffff))
    case 2 => Or32(And(old_, 0xff00_0000), And(Sar(value, 8), 0xff_ffff))
    case _ => value
  }

  /** SWL: the top of the register goes to the bytes of the aligned word up to byte `byte`. */
  function SwlMerge(byte: nat, value: Word, register: Word): Word {
    match 3 - byte
    case 0 => register
    case 1 => Or32(And(value, 0xff00_0000), And(Sar(register, 8), 0xff_ffff))
    case 2 => Or32(And(value, 0xffff_0000), And(Sar(register, 16), 0xffff))
    case _ => Or32(And(value, 0xffff_ff00), And(Sar(register, 24), 0xff))
  }

  /** SWR: the bottom of the register goes to the bytes of the aligned word from byte `byte`. */
  function SwrMerge(byte: nat, value: Word, register: Word): Word {
    match 3 - byte
    case 0 => Or32(Shl(register, 24), And(value, 0xff_ffff))
    case 1 => Or32(Shl(register, 16), And(value, 0xffff))
    case 2 => Or32(Shl(register, 8), And(value, 0xff))
    case _ => register
  }

  // ---------------------------------------------------------------- one instruction

  /** What the switch of OneInstruction decides: at most one general register written at once, the new hi and lo,
      the next program counter, the delayed load to record (register 0 for none) and the memory; or an exception. */
  datatype Effect =
    | Effect(write: Option<(Reg, Word)>, hi: Word, lo: Word, pcAfter: Word, load: (Reg, Word), mem: Memory)
    | Raise(exception: Exception, badVAddr: Word, mem: Memory)

  /** The values an instruction can see: registers rs and rt, what LWL and LWR merge into, and the special registers. */
  datatype Operands = Operands(s: Word, t: Word, merge: Word, hi: Word, lo: Word, nextPc: Word)

  function Branch(nextPc: Word, taken: bool, extra: Word): Word {
    if taken then Wrap(nextPc + Shl(extra, 2)) else Wrap(nextPc + 4)
  }

  /** What a load makes of the word `raw` that ReadMem delivered. */
  function LoadedValue(op: Op, raw: Word, byte: nat, merge: Word): Word {
    match op
    case LB => if And(raw, 0x80) != 0 then Or32(raw, 0xffff_ff00) else And(raw, 0xff)
    case LBU => And(raw, 0xff)
    case LH => if And(raw, 0x8000) != 0 then Or32(raw, 0xffff_0000) else And(raw, 0xffff)
    case LHU => And(raw, 0xffff)
    case LWL => LwlMerge(byte, raw, merge)
    case LWR => LwrMerge(byte, raw, merge)
    case _ => raw
  }

  function WithMemory(plain: Effect, m: Memory): Effect
    requires plain.Effect?
  {
    Effect(plain.write, plain.hi, plain.lo, plain.pcAfter, plain.load, m)
  }

  /** `plain` is the effect of an instruction that does nothing but advance. */
  function LoadInto(plain: Effect, i: Instruction, m: Memory, addr: Word, size: nat, byte: nat, merge: Word): Effect
    requires m.Valid() && plain.Effect? && (size == 1 || size == 2 || size == 4)
  {
    var r := Fetched(m, addr, size);
    if r.exception != NoException then Raise(r.exception, addr, r.mem)
    else plain.(load := (i.rt, LoadedValue(i.op, r.value, byte, merge)), mem := r.mem)
  }

  function Stores(plain: Effect, m: Memory, addr: Word, size: nat, value: Word): Effect
    requires m.Valid() && plain.Effect? && (size == 1 || size == 2 || size == 4)
  {
    var r := Stored(m, addr, size, value);
    if r.exception != NoException then Raise(r.exception, addr, r.mem)
    else WithMemory(plain, r.mem)
  }

  function StoreUnaligned(plain: Effect, op: Op, m: Memory, tmp: Word, t: Word): Effect
    requires m.Valid() && plain.Effect?
  {
    var byte := And(tmp, 3);
    var r := Fetched(m, tmp - byte, 4);
    if r.exception != NoException then Raise(r.exception, tmp - byte, r.mem)
    else Stores(plain, r.mem, tmp - byte, 4, if op == SWL then SwlMerge(byte, r.value, t) else SwrMerge(byte, r.value, t))
  }

  /** The instructions that only compute: their result, or None for the overflow exception. */
  function Compute(s: Word, t: Word, hi: Word, lo: Word, i: Instruction): Option<Word> {
    var x := i.extra;
    match i.op
    case ADD => var sum := Wrap(s + t); if !SignSet(Xor32(s, t)) && SignSet(Xor32(s, sum)) then None else Some(sum)
    case ADDI => var sum := Wrap(s + x); if !SignSet(Xor32(s, x)) && SignSet(Xor32(x, sum)) then None else Some(sum)
    case SUB => var diff := Wrap(s - t); if SignSet(Xor32(s, t)) && SignSet(Xor32(s, diff)) then None else Some(diff)
    case ADDIU => Some(Wrap(s + x))
    case ADDU => Some(Wrap(s + t))
    case SUBU => Some(Wrap(s - t))
    case AND => Some(And(s, t))
    case ANDI => Some(And(s, And(x, 0xffff)))
    case OR => Some(Or32(s, t))
    case ORI => Some(Or32(s, And(x, 0xffff)))
    case XOR => Some(Xor32(s, t))
    case XORI => Some(Xor32(s, And(x, 0xffff)))
    case NOR => Some(Not32(Or32(s, t)))
    case LUI => Some(Shl(x, 16))
    case SLL => Some(Shl(t, x))
    case SLLV => Some(Shl(t, And(s, 0x1f)))
    case SRA => Some(Sar(t, x))
    case SRL => Some(Sar(t, x))
    case SRAV => Some(Sar(t, And(s, 0x1f)))
    case SRLV => Some(Sar(t, And(s, 0x1f)))
    case SLT => Some(if ToInt(s) < ToInt(t) then 1 else 0)
    case SLTI => Some(if ToInt(s) < ToInt(x) then 1 else 0)
    case SLTU => Some(if s < t then 1 else 0)
    case SLTIU => Some(if s < x then 1 else 0)
    case MFHI => Some(hi)
    case MFLO => Some(lo)
    case _ => None
  }

  predicate Computes(op: Op) {
    match op
    case ADD | ADDI | ADDIU | ADDU | AND | ANDI | LUI | MFHI | MFLO | NOR | OR | ORI | SLL | SLLV | SLT |
         SLTI | SLTIU | SLTU | SRA | SRAV | SRL | SRLV | SUB | SUBU | XOR | XORI => true
    case _ => false
  }

  predicate Immediate(op: Op) {
    match op
    case ADDI | ADDIU | ANDI | LUI | ORI | SLTI | SLTIU | XORI => true
    case _ => false
  }

  predicate Transfers(op: Op) {
    match op
    case LB | LBU | LH | LHU | LW | LWL | LWR | SB | SH | SW | SWL | SWR => true
    case _ => false
  }

  /** The loads and stores; `addr` is registers[rs] + extra and `t` is registers[rt]. */
  function Transfer(plain: Effect, i: Instruction, m: Memory, addr: Word, t: Word, merge: Word): Effect
    requires m.Valid() && plain.Effect?
  {
    match i.op
    case LB => LoadInto(plain, i, m, addr, 1, 0, 0)
    case LBU => LoadInto(plain, i, m, addr, 1, 0, 0)
    case LH => if And(addr, 1) != 0 then Raise(AddressErrorException, addr, m) else LoadInto(plain, i, m, addr, 2, 0, 0)
    case LHU => if And(addr, 1) != 0 then Raise(AddressErrorException, addr, m) else LoadInto(plain, i, m, addr, 2, 0, 0)
    case LW => if And(addr, 3) != 0 then Raise(AddressErrorException, addr, m) else LoadInto(plain, i, m, addr, 4, 0, 0)
    case LWL => LoadInto(plain, i, m, addr - And(addr, 3), 4, And(addr, 3), merge)
    case LWR => LoadInto(plain, i, m, addr - And(addr, 3), 4, And(addr, 3), merge)
    case SB => Stores(plain, m, addr, 1, t)
    case SH => Stores(plain, m, addr, 2, t)
    case SW => Stores(plain, m, addr, 4, t)
    case _ => StoreUnaligned(plain, i.op, m, addr, t)
  }

  /** Branches, jumps, multiplication and division, and the traps. */
  function Control(plain: Effect, i: Instruction, nextPc: Word, s: Word, t: Word, m: Memory): Effect
    requires plain.Effect?
  {
    var next := Wrap(nextPc + 4);
    match i.op
    case BEQ => plain.(pcAfter := Branch(nextPc, s == t, i.extra))
    case BNE => plain.(pcAfter := Branch(nextPc, s != t, i.extra))
    case BGEZ => plain.(pcAfter := Branch(nextPc, !SignSet(s), i.extra))
    case BGTZ => plain.(pcAfter := Branch(nextPc, ToInt(s) > 0, i.extra))
    case BLEZ => plain.(pcAfter := Branch(nextPc, ToInt(s) <= 0, i.extra))
    case BLTZ => plain.(pcAfter := Branch(nextPc, SignSet(s), i.extra))
    case BGEZAL => plain.(write := Some((31, next)), pcAfter := Branch(nextPc, !SignSet(if i.rs == 31 then next else s), i.extra))
    case BLTZAL => plain.(write := Some((31, next)), pcAfter := Branch(nextPc, SignSet(if i.rs == 31 then next else s), i.extra))
    case J => plain.(pcAfter := Or32(And(next, 0xf000_0000), Shl(i.extra, 2)))
    case JAL => plain.(write := Some((31, next)), pcAfter := Or32(And(next, 0xf000_0000), Shl(i.extra, 2)))
    case JR => plain.(pcAfter := s)
    case JALR => plain.(write := Some((i.rd, next)), pcAfter := if i.rs == i.rd then next else s)
    case DIV =>
      if t == 0 then plain.(hi := 0, lo := 0) else
        var q := TruncDiv(ToInt(s), ToInt(t));
        plain.(lo := Wrap(q), hi := Wrap(ToInt(s) - q * ToInt(t)))
    case DIVU => if t == 0 then plain.(hi := 0, lo := 0) else plain.(lo := s / t, hi := s % t)
    case MTHI => plain.(hi := s)
    case MTLO => plain.(lo := s)
    case MULT => plain.(hi := MultHi(s, t, true), lo := MultLo(s, t, true))
    case MULTU => plain.(hi := MultHi(s, t, false), lo := MultLo(s, t, false))
    case SYSCALL => Raise(SyscallException, 0, m)
    case _ => Raise(IllegalInstrException, 0, m)
  }

  /** The switch of OneInstruction. */
  function Execute(o: Operands, i: Instruction, m: Memory): Effect
    requires m.Valid()
  {
    var plain := Effect(None, o.hi, o.lo, Wrap(o.nextPc + 4), (0, 0), m);
    if Computes(i.op) then
      match Compute(o.s, o.t, o.hi, o.lo, i)
      case None => Raise(OverflowException, 0, m)
      case Some(v) => plain.(write := Some((if Immediate(i.op) then i.rt else i.rd, v)))
    else if Transfers(i.op) then Transfer(plain, i, m, Wrap(o.s + i.extra), o.t, o.merge)
    else Control(plain, i, o.nextPc, o.s, o.t, m)
  }

  /** Apply the pending load, record the next one, keep register 0 at zero. */
  function DelayedLoad(c: Cpu, nextReg: Reg, nextValue: Word): (r: Cpu)
    requires c.Valid()
    ensures r.Valid() && r.gpr[0] == 0
  {
    c.(gpr := c.gpr[c.loadReg := c.loadValue][0 := 0], loadReg := nextReg, loadValue := nextValue)
  }

  /** Machine::RaiseException up to the call of the kernel's handler. */
  function RaiseException(c: Cpu, badVAddr: Word): Cpu
    requires c.Valid()
  {
    DelayedLoad(c.(badVAddr := badVAddr), 0, 0)
  }

  function OperandsOf(c: Cpu, i: Instruction): Operands
    requires c.Valid()
  {
    Operands(c.gpr[i.rs], c.gpr[i.rt], if c.loadReg == i.rt then c.loadValue else c.gpr[i.rt], c.hi, c.lo, c.nextPc)
  }

  /** `exception` is NoException when the instruction completed. */
  datatype Result = Result(exception: Exception, cpu: Cpu, mem: Memory)

  /** The registers when the switch is left. */
  function Applied(c: Cpu, e: Effect): (r: Cpu)
    requires c.Valid() && e.Effect?
    ensures r.Valid()
  {
    var written := if e.write.Some? then c.(gpr := c.gpr[e.write.value.0 := e.write.value.1]) else c;
    written.(hi := e.hi, lo := e.lo)
  }

  function Finish(c: Cpu, e: Effect): Result
    requires c.Valid()
  {
    match e
    case Raise(exception, badVAddr, mem) => Result(exception, RaiseException(c, badVAddr), mem)
    case Effect(write, hi, lo, pcAfter, load, mem) =>
      var loaded := DelayedLoad(Applied(c, e), load.0, load.1);
      Result(NoException, loaded.(prevPc := c.pc, pc := c.nextPc, nextPc := pcAfter), mem)
  }

  function OneInstruction(c: Cpu, m: Memory): Result
    requires c.Valid() && m.Valid()
  {
    var fetch := Fetched(m, c.pc, 4);
    if fetch.exception != NoException then Result(fetch.exception, RaiseException(c, c.pc), fetch.mem)
    else
      var i := Decode(fetch.value);
      Finish(c, Execute(OperandsOf(c, i), i, fetch.mem))
  }
}
