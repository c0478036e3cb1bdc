/**
 Delayed loads and interrupts (machine/mipssim.cc, DelayedLoad; machine/interrupt.cc, CheckIfDue):
 an interrupt applies the pending load early, and a program that keeps its load delay slots clean cannot tell.
 */
module DelaySlot {
  import opened Common
  import opened Bits
  import opened Memory
  import opened Multiplier
  import opened Mips

  predicate ReadsS(op: Op) {
    match op
    case J | JAL | LUI | MFHI | MFLO | SLL | SRA | SRL | SYSCALL | UNIMP | RES => false
    case _ => true
  }

  predicate ReadsT(op: Op) {
    match op
    case ADD | ADDU | AND | OR | XOR | NOR | SUB | SUBU | SLT | SLTU | SLL | SLLV | SRA | SRAV | SRL | SRLV |
         BEQ | BNE | DIV | DIVU | MULT | MULTU | SB | SH | SW | SWL | SWR => true
    case _ => false
  }

  /** The register an instruction writes at once, not counting its delayed load. */
  function Target(i: Instruction): Option<Reg> {
    if Computes(i.op) then Some(if Immediate(i.op) then i.rt else i.rd)
    else if i.op == BGEZAL || i.op == BLTZAL || i.op == JAL then Some(31)
    else if i.op == JALR then Some(i.rd)
    else None
  }

  /** The instruction neither reads nor writes register `r`; LWL and LWR may merge into it. */
  predicate LeavesAlone(i: Instruction, r: Reg) {
    (ReadsS(i.op) ==> i.rs != r) && (ReadsT(i.op) ==> i.rt != r) && Target(i) != Some(r)
  }

  /** Two operand sets that look the same to the instruction. */
  predicate SameTo(i: Instruction, o: Operands, o': Operands) {
    && (ReadsS(i.op) ==> o.s == o'.s)
    && (ReadsT(i.op) ==> o.t == o'.t)
    && (i.op == LWL || i.op == LWR ==> o.merge == o'.merge)
    && o.hi == o'.hi && o.lo == o'.lo && o.nextPc == o'.nextPc
  }

  lemma ComputeSame(o: Operands, o': Operands, i: Instruction)
    requires SameTo(i, o, o') && Computes(i.op)
    ensures Compute(o.s, o.t, o.hi, o.lo, i) == Compute(o'.s, o'.t, o'.hi, o'.lo, i)
  {
    hide Or32, Xor32, Shl, Sar, SignSet, And;
  }

  lemma TransferSame(plain: Effect, i: Instruction, m: Memory, addr: Word, t: Word, t': Word, merge: Word, merge': Word)
    requires m.Valid() && plain.Effect? && Transfers(i.op)
    requires (ReadsT(i.op) ==> t == t') && (i.op == LWL || i.op == LWR ==> merge == merge')
    ensures Transfer(plain, i, m, addr, t, merge) == Transfer(plain, i, m, addr, t', merge')
  {
  }

  lemma ControlSame(plain: Effect, i: Instruction, nextPc: Word, s: Word, s': Word, t: Word, t': Word, m: Memory)
    requires plain.Effect? && !Transfers(i.op) && !Computes(i.op)
    requires (ReadsS(i.op) ==> s == s') && (ReadsT(i.op) ==> t == t')
    ensures Control(plain, i, nextPc, s, t, m) == Control(plain, i, nextPc, s', t', m)
  {
  }

  /** Execute depends on no more than ReadsS and ReadsT say. */
  lemma ExecuteSame(o: Operands, o': Operands, i: Instruction, m: Memory)
    requires m.Valid() && SameTo(i, o, o')
    ensures Execute(o, i, m) == Execute(o', i, m)
  {
    hide Compute, Transfer, Control;
    var plain := Effect(None, o.hi, o.lo, Wrap(o.nextPc + 4), (0, 0), m);
    if Computes(i.op) {
      ComputeSame(o, o', i);
    } else if Transfers(i.op) {
      TransferSame(plain, i, m, Wrap(o.s + i.extra), o.t, o'.t, o.merge, o'.merge);
    } else {
      ControlSame(plain, i, o.nextPc, o.s, o'.s, o.t, o'.t, m);
    }
  }

  lemma TransferWrites(plain: Effect, i: Instruction, m: Memory, addr: Word, t: Word, merge: Word)
    requires m.Valid() && plain.Effect? && plain.write == None && plain.load.0 == 0 && plain.mem.Valid()
    ensures var e := Transfer(plain, i, m, addr, t, merge);
      && e.mem.Valid()
      && (e.Effect? ==> e.write == None && (e.load.0 == 0 || e.load.0 == i.rt))
  {
    hide Fetched, Stored, LoadedValue, And;
  }

  lemma ControlWrites(plain: Effect, i: Instruction, nextPc: Word, s: Word, t: Word, m: Memory)
    requires plain.Effect? && plain.write == None && plain.mem == m && !Computes(i.op)
    ensures var e := Control(plain, i, nextPc, s, t, m);
      && e.mem == m
      && (e.Effect? ==> e.load == plain.load && (e.write.Some? ==> Target(i) == Some(e.write.value.0)))
  {
    hide And, Or32, Shl, MultHi, MultLo, SignSet;
  }

  lemma ExecuteWrites(o: Operands, i: Instruction, m: Memory)
    requires m.Valid()
    ensures var e := Execute(o, i, m); e.Effect? && e.write.Some? ==> Target(i) == Some(e.write.value.0)
    ensures var e := Execute(o, i, m); e.Effect? ==> e.load.0 == 0 || e.load.0 == i.rt
    ensures Execute(o, i, m).mem.Valid()
  {
    hide Compute, Transfer, Control;
    var plain := Effect(None, o.hi, o.lo, Wrap(o.nextPc + 4), (0, 0), m);
    if Transfers(i.op) {
      TransferWrites(plain, i, m, Wrap(o.s + i.extra), o.t, o.merge);
    } else if !Computes(i.op) {
      ControlWrites(plain, i, o.nextPc, o.s, o.t, m);
    }
  }

  // ---------------------------------------------------------------- an early flush is invisible

  /** What an interrupt leaves: the pending load applied, none recorded. */
  function Settle(c: Cpu): Cpu
    requires c.Valid()
  {
    DelayedLoad(c, 0, 0)
  }

  /** The state without the value of a pending load of register 0, which nothing will ever see. */
  function Live(c: Cpu): Cpu {
    if c.loadReg == 0 then c.(loadValue := 0) else c
  }

  predicate Good(c: Cpu) {
    c.Valid() && c.gpr[0] == 0
  }

  /** The instruction about to run is no hazard to the pending load. */
  predicate SlotClean(c: Cpu, m: Memory)
    requires c.Valid() && m.Valid()
  {
    var fetch := Fetched(m, c.pc, 4);
    c.loadReg != 0 && fetch.exception == NoException ==> LeavesAlone(Decode(fetch.value), c.loadReg)
  }

  predicate SameOutcome(r: Result, r': Result) {
    r.exception == r'.exception && r.mem == r'.mem && Live(r.cpu) == Live(r'.cpu)
  }

  /** Finishing from the settled state gives what finishing from the unsettled one gives. */
  lemma FinishSettled(c: Cpu, e: Effect, r: Reg)
    requires Good(c) && (e.Effect? && e.write.Some? ==> r == 0 || e.write.value.0 != r) && r == c.loadReg
    ensures Finish(Settle(c), e) == Finish(c, e)
  {
    var f := Settle(c);
    if e.Effect? && e.write.Some? {
      var d, v := e.write.value.0, e.write.value.1;
      assert f.gpr[d := v][0 := 0][0 := 0] == c.gpr[d := v][r := c.loadValue][0 := 0];
    } else {
      assert f.gpr[0 := 0][0 := 0] == f.gpr;
    }
  }

  /** A merge of LWL or LWR that differs only matters if it goes to register 0. */
  lemma MergeDead(c: Cpu, o: Operands, o': Operands, i: Instruction, m: Memory)
    requires Good(c) && m.Valid() && o' == o.(merge := o'.merge) && i.rt == 0
    ensures SameOutcome(Finish(c, Execute(o, i, m)), Finish(c, Execute(o', i, m)))
  {
    hide Compute, Control, Fetched, Stored, LwlMerge, LwrMerge, StoreUnaligned, Stores, And;
    if i.op != LWL && i.op != LWR {
      ExecuteSame(o, o', i, m);
    }
  }

  /** An interrupt before a clean instruction changes nothing that the instruction leaves behind. */
  lemma FlushInvisible(c: Cpu, m: Memory)
    requires Good(c) && m.Valid() && SlotClean(c, m)
    ensures SameOutcome(OneInstruction(Settle(c), m), OneInstruction(c, m))
    ensures c.loadReg != 0 ==> OneInstruction(Settle(c), m) == OneInstruction(c, m)
  {
    hide Execute, Decode, Fetched;
    var f := Settle(c);
    var fetch := Fetched(m, c.pc, 4);
    if fetch.exception != NoException {
      assert f.gpr[0 := 0][0 := 0] == f.gpr;
    } else {
      var i := Decode(fetch.value);
      var o, o' := OperandsOf(c, i), OperandsOf(f, i);
      ExecuteWrites(o, i, fetch.mem);
      FinishSettled(c, Execute(o, i, fetch.mem), c.loadReg);
      if c.loadReg != 0 {
        ExecuteSame(o, o', i, fetch.mem);
      } else {
        assert f.gpr == c.gpr;
        if i.rt == 0 {
          MergeDead(f, o, o', i, fetch.mem);
        } else {
          ExecuteSame(o, o', i, fetch.mem);
        }
      }
    }
  }

  /** States that differ in a dead value only stay so. */
  lemma LiveIsEnough(c: Cpu, c': Cpu, m: Memory)
    requires Good(c) && Good(c') && m.Valid() && Live(c) == Live(c')
    ensures SameOutcome(OneInstruction(c, m), OneInstruction(c', m))
  {
    hide Execute, Decode, Fetched;
    var fetch := Fetched(m, c.pc, 4);
    if c.loadReg == 0 && fetch.exception == NoException {
      var i := Decode(fetch.value);
      var o, o' := OperandsOf(c, i), OperandsOf(c', i);
      ExecuteWrites(o', i, fetch.mem);
      FinishLive(c, c', Execute(o', i, fetch.mem));
      if i.rt == 0 {
        MergeDead(c, o, o', i, fetch.mem);
      } else {
        ExecuteSame(o, o', i, fetch.mem);
      }
    }
  }

  lemma FinishLive(c: Cpu, c': Cpu, e: Effect)
    requires Good(c) && Good(c') && Live(c) == Live(c') && c.loadReg == 0
    ensures Finish(c, e) == Finish(c', e)
  {
    if e.Effect? && e.write.Some? {
      var d, v := e.write.value.0, e.write.value.1;
      assert c.gpr[d := v][0 := c.loadValue][0 := 0] == c'.gpr[d := v][0 := c'.loadValue][0 := 0];
    } else {
      assert c.gpr[0 := c.loadValue][0 := 0] == c'.gpr[0 := c'.loadValue][0 := 0];
    }
  }

  /** Register 0 is zero after every instruction, completed or trapped. */
  lemma RegisterZero(c: Cpu, m: Memory)
    requires c.Valid() && m.Valid()
    ensures Good(OneInstruction(c, m).cpu) && OneInstruction(c, m).mem.Valid()
  {
    hide Execute, Decode, Fetched;
    var fetch := Fetched(m, c.pc, 4);
    if fetch.exception == NoException {
      var i := Decode(fetch.value);
      ExecuteWrites(OperandsOf(c, i), i, fetch.mem);
    }
  }

  /** Without a clean slot the flush shows: ADDU $2, $1, $0 behind a load of another value into $1. */
  lemma HazardSeen(c: Cpu, m: Memory)
    requires Good(c) && m.Valid() && c.loadReg == 1 && c.loadValue != c.gpr[1]
    ensures var i := Instruction(ADDU, 1, 0, 2, 0);
      var flushed := Finish(Settle(c), Execute(OperandsOf(Settle(c), i), i, m));
      var unflushed := Finish(c, Execute(OperandsOf(c, i), i, m));
      !LeavesAlone(i, c.loadReg) && flushed.cpu.gpr[2] != unflushed.cpu.gpr[2]
  {
    hide Transfer, Control;
    assert Wrap(c.gpr[1] + 0) == c.gpr[1] && Wrap(c.loadValue + 0) == c.loadValue;
  }

  // ---------------------------------------------------------------- whole programs

  datatype State = State(cpu: Cpu, mem: Memory)
  {
    predicate Valid() {
      Good(cpu) && mem.Valid()
    }
  }

  /** The kernel's exception handler: it may change any register but register 0, and the memory. */
  type Kernel = (Exception, Cpu, Memory) -> State

  ghost predicate Sane(kernel: Kernel) {
    forall e: Exception, c: Cpu, m: Memory :: Good(c) && m.Valid() ==> kernel(e, c, m).Valid()
  }

  /** One turn of the loop of Machine::Run, without interrupts. */
  ghost function Turn(s: State, kernel: Kernel): (t: State)
    requires s.Valid() && Sane(kernel)
    ensures t.Valid()
  {
    RegisterZero(s.cpu, s.mem);
    var r := OneInstruction(s.cpu, s.mem);
    if r.exception == NoException then State(r.cpu, r.mem) else kernel(r.exception, r.cpu, r.mem)
  }

  /** Machine::Run: after turn `k` an interrupt comes if `interrupts[k]`. */
  ghost function Run(s: State, interrupts: seq<bool>, kernel: Kernel): (r: State)
    requires s.Valid() && Sane(kernel)
    ensures r.Valid()
    decreases |interrupts|
  {
    if interrupts == [] then s else
      var t := Turn(s, kernel);
      Run(if interrupts[0] then t.(cpu := Settle(t.cpu)) else t, interrupts[1..], kernel)
  }

  /** The run of `n` instructions without interrupts keeps its load delay slots clean. */
  ghost predicate Clean(s: State, n: nat, kernel: Kernel)
    requires s.Valid() && Sane(kernel)
    decreases n
  {
    n == 0 || (SlotClean(s.cpu, s.mem) && Clean(Turn(s, kernel), n - 1, kernel))
  }

  function Never(n: nat): seq<bool> {
    seq(n, i => false)
  }

  /** The run that is interrupted is level with the one that is not, or one flush ahead. */
  predicate Keeps(s: State, t: State)
    requires s.Valid() && t.Valid()
  {
    t.mem == s.mem && (Live(t.cpu) == Live(s.cpu) || t.cpu == Settle(s.cpu))
  }

  lemma SettleLive(c: Cpu, c': Cpu)
    requires c.Valid() && c'.Valid() && Live(c) == Live(c')
    ensures Settle(c) == Settle(c')
  {
    if c.loadReg == 0 {
      assert c.gpr[0 := c.loadValue][0 := 0] == c'.gpr[0 := c'.loadValue][0 := 0];
    }
  }

  lemma SettleGood(c: Cpu)
    requires c.Valid()
    ensures Good(Settle(c))
  {
  }

  lemma SettleTwice(c: Cpu)
    requires c.Valid()
    ensures Settle(Settle(c)) == Settle(c)
  {
    var f := Settle(c);
    assert f.gpr[0 := 0][0 := 0] == f.gpr;
  }

  lemma TurnKeeps(s: State, t: State, kernel: Kernel)
    requires s.Valid() && t.Valid() && Sane(kernel) && Keeps(s, t) && SlotClean(s.cpu, s.mem)
    ensures Turn(s, kernel).mem == Turn(t, kernel).mem && Live(Turn(s, kernel).cpu) == Live(Turn(t, kernel).cpu)
  {
    hide OneInstruction, SlotClean;
    if t.cpu == Settle(s.cpu) {
      FlushInvisible(s.cpu, s.mem);
    } else {
      LiveIsEnough(t.cpu, s.cpu, s.mem);
    }
    TrapSettles(s.cpu, s.mem);
    TrapSettles(t.cpu, t.mem);
  }

  /** The kernel finds no load pending. */
  lemma TrapSettles(c: Cpu, m: Memory)
    requires c.Valid() && m.Valid()
    ensures var r := OneInstruction(c, m); r.exception != NoException ==> r.cpu.loadReg == 0 && r.cpu.loadValue == 0
  {
    hide Execute, Decode, Fetched;
  }

  /** Interrupts at any points of a run whose delay slots are clean leave no trace: once the pending loads are applied,
      registers and memory are those of the run without interrupts. */
  lemma {:induction false} InterruptsInvisible(s: State, t: State, interrupts: seq<bool>, kernel: Kernel)
    requires s.Valid() && t.Valid() && Sane(kernel) && Keeps(s, t) && Clean(s, |interrupts|, kernel)
    ensures var plain := Run(s, Never(|interrupts|), kernel);
      var actual := Run(t, interrupts, kernel);
      actual.mem == plain.mem && Settle(actual.cpu) == Settle(plain.cpu)
    decreases |interrupts|
  {
    hide Turn, SlotClean, Live, Settle;
    if interrupts == [] {
      SettleTwice(s.cpu);
      if t.cpu != Settle(s.cpu) {
        SettleLive(s.cpu, t.cpu);
      }
    } else {
      TurnKeeps(s, t, kernel);
      var s', t' := Turn(s, kernel), Turn(t, kernel);
      SettleLive(s'.cpu, t'.cpu);
      var next := if interrupts[0] then t'.(cpu := Settle(t'.cpu)) else t';
      SettleGood(t'.cpu);
      assert Keeps(s', next);
      assert Never(|interrupts|)[1..] == Never(|interrupts| - 1);
      InterruptsInvisible(s', next, interrupts[1..], kernel);
    }
  }
}
