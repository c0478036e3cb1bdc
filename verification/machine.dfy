/**
 The simulated CPU in its own form (machine/machine.h, machine/mipssim.cc): an array of registers changed in place,
 instruction by instruction, over the address unit.
 */
module Simulator {
  import opened Common
  import opened Bits
  import opened Memory
  import opened Multiplier
  import M = Mips

  const HI_REG := 32
  const LO_REG := 33
  const PC_REG := 34
  const NEXT_PC_REG := 35
  const PREV_PC_REG := 36
  const LOAD_REG := 37
  const LOAD_VALUE_REG := 38
  const BAD_VADDR_REG := 39
  const NUM_TOTAL_REGS := 40

  /** The named registers that the array holds. */
  ghost function CpuOf(r: seq<Word>): M.Cpu
    requires |r| == NUM_TOTAL_REGS && r[LOAD_REG] < 32
  {
    M.Cpu(r[..32], r[HI_REG], r[LO_REG], r[PC_REG], r[NEXT_PC_REG], r[PREV_PC_REG], r[LOAD_REG], r[LOAD_VALUE_REG],
          r[BAD_VADDR_REG])
  }

  /** Where a branch or jump goes, from its registers after the return address is written. */
  function JumpTarget(i: M.Instruction, nextPc: Word, s: Word, t: Word): Word {
    if i.op == M.BEQ then M.Branch(nextPc, s == t, i.extra)
    else if i.op == M.BNE then M.Branch(nextPc, s != t, i.extra)
    else if i.op == M.BGEZ || i.op == M.BGEZAL then M.Branch(nextPc, !M.SignSet(s), i.extra)
    else if i.op == M.BLTZ || i.op == M.BLTZAL then M.Branch(nextPc, M.SignSet(s), i.extra)
    else if i.op == M.BGTZ then M.Branch(nextPc, ToInt(s) > 0, i.extra)
    else if i.op == M.BLEZ then M.Branch(nextPc, ToInt(s) <= 0, i.extra)
    else if i.op == M.J || i.op == M.JAL then M.Or32(And(M.Wrap(nextPc + 4), 0xf000_0000), M.Shl(i.extra, 2))
    else s
  }

  /** The register that a jump or branch links to. */
  function LinkReg(i: M.Instruction): Option<M.Reg> {
    if i.op == M.JALR then Some(i.rd)
    else if i.op == M.JAL || i.op == M.BGEZAL || i.op == M.BLTZAL then Some(31)
    else None
  }

  lemma JumpEffect(c: M.Cpu, i: M.Instruction, m: Memory)
    requires c.Valid() && IsJump(i.op)
    ensures var next := M.Wrap(c.nextPc + 4);
      var link := LinkReg(i);
      var linked := if link.Some? then c.gpr[link.value := next] else c.gpr;
      M.Control(M.Effect(None, c.hi, c.lo, next, (0, 0), m), i, c.nextPc, c.gpr[i.rs], c.gpr[i.rt], m) ==
        M.Effect(if link.Some? then Some((link.value, next)) else None, c.hi, c.lo,
                 JumpTarget(i, c.nextPc, linked[i.rs], linked[i.rt]), (0, 0), m)
  {
    hide M.SignSet, M.Branch, ToInt, M.Or32, M.Shl, And, M.Wrap;
  }

  function LoadSize(op: M.Op): (r: nat)
    ensures r == 1 || r == 2 || r == 4
  {
    if op == M.LB || op == M.LBU then 1 else if op == M.LH || op == M.LHU then 2 else 4
  }

  predicate Misaligned(op: M.Op, addr: Word) {
    ((op == M.LH || op == M.LHU) && And(addr, 1) != 0) || (op == M.LW && And(addr, 3) != 0)
  }

  /** How a load or store ends: with the load it leaves pending, or with an exception. */
  function Outcome(c: M.Cpu, exception: Exception, badVAddr: Word, load: (M.Reg, Word), m: Memory): M.Effect {
    if exception == NoException then M.Effect(None, c.hi, c.lo, M.Wrap(c.nextPc + 4), load, m)
    else M.Raise(exception, badVAddr, m)
  }

  function Plain(c: M.Cpu, m: Memory): (e: M.Effect)
    ensures e.Effect?
  {
    M.Effect(None, c.hi, c.lo, M.Wrap(c.nextPc + 4), (0, 0), m)
  }

  /** The loads in one form. */
  lemma LoadEffect(c: M.Cpu, i: M.Instruction, m: Memory, addr: Word, t: Word, merge: Word)
    requires m.Valid() && IsLoad(i.op)
    ensures M.Transfer(Plain(c, m), i, m, addr, t, merge) ==
      if Misaligned(i.op, addr) then Outcome(c, AddressErrorException, addr, (i.rt, 0), m) else
        var byte := if i.op == M.LWL || i.op == M.LWR then And(addr, 3) else 0;
        var r := Fetched(m, addr - byte, LoadSize(i.op));
        Outcome(c, r.exception, addr - byte, (i.rt, M.LoadedValue(i.op, r.value, byte, merge)), r.mem)
  {
    hide And, Fetched, M.Transfer, M.LoadInto, M.LoadedValue, Misaligned, Plain, Outcome, LoadSize;
    TransferLoads(Plain(c, m), i, m, addr, t, merge);
    if Misaligned(i.op, addr) {
      RaiseOutcome(c, addr, (i.rt, 0), m);
    } else if i.op == M.LWL || i.op == M.LWR {
      MergesWord(i.op);
      LoadIs(c, i, m, addr - And(addr, 3), 4, And(addr, 3), merge);
    } else {
      LoadIs(c, i, m, addr, LoadSize(i.op), 0, merge);
      MergeUnused(Plain(c, m), i, m, addr, LoadSize(i.op), merge);
    }
  }

  lemma MergesWord(op: M.Op)
    ensures op == M.LWL || op == M.LWR ==> LoadSize(op) == 4
  {
  }

  lemma TransferLoads(plain: M.Effect, i: M.Instruction, m: Memory, addr: Word, t: Word, merge: Word)
    requires m.Valid() && plain.Effect? && IsLoad(i.op)
    ensures M.Transfer(plain, i, m, addr, t, merge) ==
      if Misaligned(i.op, addr) then M.Raise(AddressErrorException, addr, m)
      else if i.op == M.LWL || i.op == M.LWR then M.LoadInto(plain, i, m, addr - And(addr, 3), 4, And(addr, 3), merge)
      else M.LoadInto(plain, i, m, addr, LoadSize(i.op), 0, 0)
  {
    hide And, M.LoadInto, M.StoreUnaligned, M.Stores;
  }

  lemma RaiseOutcome(c: M.Cpu, addr: Word, load: (M.Reg, Word), m: Memory)
    ensures Outcome(c, AddressErrorException, addr, load, m) == M.Raise(AddressErrorException, addr, m)
  {
  }

  lemma LoadIs(c: M.Cpu, i: M.Instruction, m: Memory, addr: Word, size: nat, byte: nat, merge: Word)
    requires m.Valid() && (size == 1 || size == 2 || size == 4)
    ensures var r := Fetched(m, addr, size);
      M.LoadInto(Plain(c, m), i, m, addr, size, byte, merge) ==
        Outcome(c, r.exception, addr, (i.rt, M.LoadedValue(i.op, r.value, byte, merge)), r.mem)
  {
    hide Fetched, M.LoadedValue, M.Wrap;
  }

  /** Only LWL and LWR look at the register they load. */
  lemma MergeUnused(plain: M.Effect, i: M.Instruction, m: Memory, addr: Word, size: nat, merge: Word)
    requires m.Valid() && plain.Effect? && i.op != M.LWL && i.op != M.LWR && (size == 1 || size == 2 || size == 4)
    ensures M.LoadInto(plain, i, m, addr, size, 0, merge) == M.LoadInto(plain, i, m, addr, size, 0, 0)
  {
  }

  function StoreSize(op: M.Op): (r: nat)
    ensures r == 1 || r == 2 || r == 4
  {
    if op == M.SB then 1 else if op == M.SH then 2 else 4
  }

  lemma StoreEffect(plain: M.Effect, i: M.Instruction, m: Memory, addr: Word, t: Word, merge: Word)
    requires m.Valid() && plain.Effect? && M.Transfers(i.op) && !IsLoad(i.op)
    ensures M.Transfer(plain, i, m, addr, t, merge) ==
      if i.op == M.SWL || i.op == M.SWR then M.StoreUnaligned(plain, i.op, m, addr, t)
      else M.Stores(plain, m, addr, StoreSize(i.op), t)
  {
    hide And, M.LoadInto, M.StoreUnaligned, M.Stores;
  }

  /** Remainder and quotient; zeros for a divisor of zero. */
  function Divided(s: Word, t: Word, signedArith: bool): (Word, Word) {
    if t == 0 then (0, 0)
    else if signedArith then
      var q := M.TruncDiv(ToInt(s), ToInt(t));
      (M.Wrap(ToInt(s) - q * ToInt(t)), M.Wrap(q))
    else (s % t, s / t)
  }

  /** What the instructions on HI and LO leave there. */
  lemma HiLoEffect(plain: M.Effect, i: M.Instruction, nextPc: Word, s: Word, t: Word, m: Memory)
    requires plain.Effect? && IsHiLo(i.op)
    ensures M.Control(plain, i, nextPc, s, t, m) ==
      if i.op == M.MTHI then plain.(hi := s) else if i.op == M.MTLO then plain.(lo := s)
      else if i.op == M.MULT || i.op == M.MULTU then plain.(hi := M.MultHi(s, t, i.op == M.MULT), lo := M.MultLo(s, t, i.op == M.MULT))
      else plain.(hi := Divided(s, t, i.op == M.DIV).0, lo := Divided(s, t, i.op == M.DIV).1)
  {
    hide ToInt, M.TruncDiv, M.MultHi, M.MultLo, M.Branch, M.SignSet, M.Or32, M.Shl, M.Wrap, And;
  }

  /** SWL and SWR step by step. */
  lemma MergeEffect(plain: M.Effect, op: M.Op, m: Memory, addr: Word, byte: nat, t: Word)
    requires m.Valid() && plain.Effect? && byte == And(addr, 3)
    ensures var r := Fetched(m, addr - byte, 4);
      var value := if op == M.SWL then M.SwlMerge(byte, r.value, t) else M.SwrMerge(byte, r.value, t);
      var s := Stored(r.mem, addr - byte, 4, value);
      M.StoreUnaligned(plain, op, m, addr, t) ==
        if r.exception != NoException then M.Raise(r.exception, addr - byte, r.mem)
        else if s.exception != NoException then M.Raise(s.exception, addr - byte, s.mem)
        else M.WithMemory(plain, s.mem)
  {
    hide And, Fetched, Stored, M.SwlMerge, M.SwrMerge;
  }

  class Machine {
    const registers: array<Word>
    const unit: AddressUnit

    ghost predicate Valid()
      reads registers, unit
    {
      && registers.Length == NUM_TOTAL_REGS && registers[LOAD_REG] < 32
      && unit.Valid() && registers as object != unit.mainMemory && registers as object != unit.Entries()
    }

    constructor (unit: AddressUnit)
      requires unit.Valid()
      ensures Valid() && this.unit == unit && fresh(registers)
      ensures forall i :: 0 <= i < NUM_TOTAL_REGS ==> registers[i] == 0
    {
      this.unit := unit;
      registers := new Word[NUM_TOTAL_REGS](i => 0);
    }

    ghost function Cpu(): (c: M.Cpu)
      requires Valid()
      reads registers, unit
      ensures c.Valid()
    {
      CpuOf(registers[..])
    }

    ghost function Mem(): (m: Memory)
      requires Valid()
      reads registers, unit, unit.mainMemory, unit.Entries()
      ensures m.Valid()
    {
      unit.View()
    }

    method DelayedLoad(nextReg: M.Reg, nextValue: Word)
      requires Valid()
      modifies registers
      ensures Valid() && Cpu() == M.DelayedLoad(old(Cpu()), nextReg, nextValue)
    {
      registers[registers[LOAD_REG]] := registers[LOAD_VALUE_REG];
      registers[LOAD_REG] := nextReg;
      registers[LOAD_VALUE_REG] := nextValue;
      registers[0] := 0;
      assert registers[..32] == old(registers[..32])[old(registers[LOAD_REG]) := old(registers[LOAD_VALUE_REG])][0 := 0];
    }

    /** Up to the call of the kernel's handler. */
    method RaiseException(badVAddr: Word)
      requires Valid()
      modifies registers
      ensures Valid() && Cpu() == M.RaiseException(old(Cpu()), badVAddr)
    {
      registers[BAD_VADDR_REG] := badVAddr;
      assert Cpu() == old(Cpu()).(badVAddr := badVAddr);
      DelayedLoad(0, 0);
    }

    /** The effect the switch should have, on the registers as they are and a memory it does not touch. */
    ghost function Wanted(i: M.Instruction, m: Memory): M.Effect
      requires Valid()
      reads registers, unit
    {
      var c := Cpu();
      M.Control(M.Effect(None, c.hi, c.lo, M.Wrap(c.nextPc + 4), (0, 0), m), i, c.nextPc, c.gpr[i.rs], c.gpr[i.rt], m)
    }

    /** Branches and jumps. */
    method Jump(i: M.Instruction, ghost m: Memory) returns (pcAfter: Word)
      requires Valid() && IsJump(i.op)
      modifies registers
      ensures Valid()
      ensures var e := old(Wanted(i, m)); e.Effect? && pcAfter == e.pcAfter && Cpu() == M.Applied(old(Cpu()), e)
      ensures old(Wanted(i, m)).load == (0, 0) && old(Wanted(i, m)).mem == m
    {
      hide M.Control, JumpTarget, IsJump, M.Wrap, LinkReg;
      ghost var c := Cpu();
      JumpEffect(c, i, m);
      var link := LinkReg(i);
      if link.Some? {
        registers[link.value] := M.Wrap((registers[NEXT_PC_REG] as int) + 4);
        assert registers[..32] == c.gpr[link.value := M.Wrap(c.nextPc + 4)];
      }
      pcAfter := JumpTarget(i, registers[NEXT_PC_REG], registers[i.rs], registers[i.rt]);
    }

    /** Multiplications, divisions and moves to the special registers. */
    method HiLo(i: M.Instruction, ghost m: Memory)
      requires Valid() && IsHiLo(i.op)
      modifies registers
      ensures Valid()
      ensures var e := old(Wanted(i, m)); e.Effect? && Cpu() == M.Applied(old(Cpu()), e)
      ensures var e := old(Wanted(i, m)); e.pcAfter == M.Wrap(old(Cpu()).nextPc + 4) && e.load == (0, 0) && e.mem == m
    {
      hide M.MultHi, M.MultLo, Divided, M.Control, M.Wrap;
      var s, t := registers[i.rs], registers[i.rt];
      HiLoEffect(M.Effect(None, registers[HI_REG], registers[LO_REG], M.Wrap((registers[NEXT_PC_REG] as int) + 4), (0, 0), m),
                 i, registers[NEXT_PC_REG], s, t, m);
      if i.op == M.MTHI {
        registers[HI_REG] := s;
      } else if i.op == M.MTLO {
        registers[LO_REG] := s;
      } else if i.op == M.MULT || i.op == M.MULTU {
        Multiply(s, t, i.op == M.MULT);
      } else {
        Divide(s, t, i.op == M.DIV);
      }
    }

    method Multiply(s: Word, t: Word, signedArith: bool)
      requires Valid()
      modifies registers
      ensures Valid() && Cpu() == old(Cpu()).(hi := M.MultHi(s, t, signedArith), lo := M.MultLo(s, t, signedArith))
    {
      hide Multiplier.Product;
      registers[HI_REG], registers[LO_REG] := Mult(s, t, signedArith);
      assert registers[..32] == old(registers[..32]);
    }

    /** Division by zero leaves zeros. */
    method Divide(s: Word, t: Word, signedArith: bool)
      requires Valid()
      modifies registers
      ensures Valid() && Cpu() == old(Cpu()).(hi := Divided(s, t, signedArith).0, lo := Divided(s, t, signedArith).1)
    {
      hide ToInt, M.TruncDiv, M.Wrap;
      if t == 0 {
        registers[LO_REG], registers[HI_REG] := 0, 0;
      } else if signedArith {
        var q := M.TruncDiv(ToInt(s), ToInt(t));
        registers[LO_REG], registers[HI_REG] := M.Wrap(q), M.Wrap(ToInt(s) - q * ToInt(t));
      } else {
        registers[LO_REG], registers[HI_REG] := s / t, s % t;
      }
      assert registers[..32] == old(registers[..32]);
    }

    /** The effect of a load or store. */
    ghost function WantedTransfer(i: M.Instruction): M.Effect
      requires Valid()
      reads registers, unit, unit.mainMemory, unit.Entries()
    {
      var c := Cpu();
      var o := M.OperandsOf(c, i);
      M.Transfer(Plain(c, Mem()), i, Mem(), M.Wrap(o.s + i.extra), o.t, o.merge)
    }

    method LoadData(i: M.Instruction) returns (exception: Exception, badVAddr: Word, loadValue: Word)
      requires Valid() && IsLoad(i.op)
      modifies unit.Entries()
      ensures Valid() && Cpu() == old(Cpu())
      ensures old(WantedTransfer(i)) == Outcome(Cpu(), exception, badVAddr, (i.rt, loadValue), Mem())
    {
      hide Fetched, And, M.LoadedValue, M.Transfer, M.Wrap, Outcome, Plain, Misaligned, LoadSize;
      var addr := M.Wrap((registers[i.rs] as int) + i.extra);
      var merge := if registers[LOAD_REG] == i.rt then registers[LOAD_VALUE_REG] else registers[i.rt];
      assert WantedTransfer(i) == M.Transfer(Plain(Cpu(), Mem()), i, Mem(), addr, registers[i.rt], merge);
      hide M.OperandsOf, WantedTransfer;
      LoadEffect(Cpu(), i, Mem(), addr, registers[i.rt], merge);
      if Misaligned(i.op, addr) {
        exception, badVAddr, loadValue := AddressErrorException, addr, 0;
      } else {
        var byte := if i.op == M.LWL || i.op == M.LWR then And(addr, 3) else 0;
        badVAddr := addr - byte;
        exception, loadValue := unit.ReadMem(badVAddr, LoadSize(i.op));
        loadValue := M.LoadedValue(i.op, loadValue, byte, merge);
      }
    }

    method StoreData(i: M.Instruction) returns (exception: Exception, badVAddr: Word)
      requires Valid() && M.Transfers(i.op) && !IsLoad(i.op)
      modifies unit.mainMemory, unit.Entries()
      ensures Valid() && Cpu() == old(Cpu())
      ensures old(WantedTransfer(i)) == Outcome(Cpu(), exception, badVAddr, (0, 0), Mem())
    {
      hide M.Transfer, M.StoreUnaligned, M.Stores, M.Wrap, Outcome, StoreSize, Plain;
      var t := registers[i.rt];
      var addr := M.Wrap((registers[i.rs] as int) + i.extra);
      ghost var plain, merge := Plain(Cpu(), Mem()), M.OperandsOf(Cpu(), i).merge;
      assert WantedTransfer(i) == M.Transfer(plain, i, Mem(), addr, t, merge);
      hide M.OperandsOf, WantedTransfer;
      StoreEffect(plain, i, Mem(), addr, t, merge);
      if i.op == M.SWL || i.op == M.SWR {
        exception, badVAddr := StoreMerged(i.op, addr, t);
      } else {
        exception, badVAddr := StoreWhole(addr, StoreSize(i.op), t);
      }
    }

    /** SWL and SWR. */
    method StoreMerged(op: M.Op, addr: Word, t: Word) returns (exception: Exception, badVAddr: Word)
      requires Valid()
      modifies unit.mainMemory, unit.Entries()
      ensures Valid() && Cpu() == old(Cpu())
      ensures old(M.StoreUnaligned(Plain(Cpu(), Mem()), op, Mem(), addr, t)) ==
        Outcome(Cpu(), exception, badVAddr, (0, 0), Mem())
    {
      hide Fetched, Stored, And, M.SwlMerge, M.SwrMerge, M.StoreUnaligned, M.Wrap;
      var byte, value := And(addr, 3), 0;
      MergeEffect(Plain(Cpu(), Mem()), op, Mem(), addr, byte, t);
      badVAddr := addr - byte;
      exception, value := unit.ReadMem(badVAddr, 4);
      if exception == NoException {
        value := if op == M.SWL then M.SwlMerge(byte, value, t) else M.SwrMerge(byte, value, t);
        exception := unit.WriteMem(badVAddr, 4, value);
      }
    }

    /** SB, SH and SW. */
    method StoreWhole(addr: Word, size: nat, t: Word) returns (exception: Exception, badVAddr: Word)
      requires Valid() && (size == 1 || size == 2 || size == 4)
      modifies unit.mainMemory, unit.Entries()
      ensures Valid() && Cpu() == old(Cpu())
      ensures old(M.Stores(Plain(Cpu(), Mem()), Mem(), addr, size, t)) == Outcome(Cpu(), exception, badVAddr, (0, 0), Mem())
    {
      hide Stored, M.Wrap;
      badVAddr := addr;
      exception := unit.WriteMem(addr, size, t);
    }

    /** System calls and illegal instructions. */
    method Trap(i: M.Instruction, ghost m: Memory) returns (exception: Exception)
      requires Valid() && !M.Computes(i.op) && !M.Transfers(i.op) && !IsJump(i.op) && !IsHiLo(i.op)
      ensures exception != NoException && Wanted(i, m) == M.Raise(exception, 0, m)
    {
      exception := if i.op == M.SYSCALL then SyscallException else IllegalInstrException;
    }

    /** The switch of OneInstruction. */
    method Execute(i: M.Instruction)
        returns (exception: Exception, badVAddr: Word, pcAfter: Word, loadReg: M.Reg, loadValue: Word)
      requires Valid()
      modifies registers, unit.mainMemory, unit.Entries()
      ensures Valid()
      ensures var c := old(Cpu());
        var e := M.Execute(M.OperandsOf(c, i), i, old(Mem()));
        && Mem() == e.mem
        && if exception == NoException
           then e.Effect? && Cpu() == M.Applied(c, e) && pcAfter == e.pcAfter && (loadReg, loadValue) == e.load
           else e == M.Raise(exception, badVAddr, e.mem) && Cpu() == c
    {
      hide M.Compute, M.Transfer, M.Control, M.Wrap, JumpTarget;
      exception, badVAddr := NoException, 0;
      pcAfter := M.Wrap((registers[NEXT_PC_REG] as int) + 4);
      loadReg, loadValue := 0, 0;
      if M.Computes(i.op) {
        match M.Compute(registers[i.rs], registers[i.rt], registers[HI_REG], registers[LO_REG], i) {
          case None => exception := OverflowException;
          case Some(v) =>
            var target := if M.Immediate(i.op) then i.rt else i.rd;
            registers[target] := v;
            assert registers[..32] == old(registers[..32])[target := v];
        }
      } else if IsLoad(i.op) {
        exception, badVAddr, loadValue := LoadData(i);
        loadReg := i.rt;
      } else if M.Transfers(i.op) {
        exception, badVAddr := StoreData(i);
      } else if IsJump(i.op) {
        pcAfter := Jump(i, Mem());
      } else if IsHiLo(i.op) {
        HiLo(i, Mem());
      } else {
        exception := Trap(i, Mem());
      }
    }

    method OneInstruction() returns (exception: Exception)
      requires Valid()
      modifies registers, unit.mainMemory, unit.Entries()
      ensures Valid()
      ensures var r := M.OneInstruction(old(Cpu()), old(Mem()));
        exception == r.exception && Cpu() == r.cpu && Mem() == r.mem
    {
      hide M.Decode, Fetched, M.Execute, M.Wrap, M.OperandsOf, M.RaiseException;
      var raw, badVAddr, pcAfter, nextLoadReg, nextLoadValue;
      exception, raw := unit.ReadMem(registers[PC_REG], 4);
      if exception != NoException {
        RaiseException(registers[PC_REG]);
        return;
      }
      exception, badVAddr, pcAfter, nextLoadReg, nextLoadValue := Execute(M.Decode(raw));
      if exception != NoException {
        RaiseException(badVAddr);
        return;
      }
      DelayedLoad(nextLoadReg, nextLoadValue);
      ghost var loaded := Cpu();
      registers[PREV_PC_REG] := registers[PC_REG];
      registers[PC_REG] := registers[NEXT_PC_REG];
      registers[NEXT_PC_REG] := pcAfter;
      assert registers[..32] == loaded.gpr;
    }
  }

  predicate IsJump(op: M.Op) {
    match op
    case BEQ | BNE | BGEZ | BGEZAL | BGTZ | BLEZ | BLTZ | BLTZAL | J | JAL | JALR | JR => true
    case _ => false
  }

  predicate IsLoad(op: M.Op) {
    match op
    case LB | LBU | LH | LHU | LW | LWL | LWR => true
    case _ => false
  }

  predicate IsHiLo(op: M.Op) {
    match op
    case DIV | DIVU | MTHI | MTLO | MULT | MULTU => true
    case _ => false
  }
}
