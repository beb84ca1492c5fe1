/** Where the compiler departs from the interpreter: what the simulation theorem asks of a
    64-bit compare and of a MOV is what it takes for the emitted code to be right. */
module JitLimits {
  import opened Words
  import opened Reach
  import opened Rv32
  import opened Rv32Machine
  import opened Bpf
  import opened JitEmit
  import opened JitCore
  import opened JitJump
  import opened JitFrame
  import opened JitInsn
  import opened JitProgram

  /** A branch whose distance has just outgrown 13 bits goes 8 KiB back. */
  lemma BranchWraps(k: int)
    requires 1024 <= k < 1026
    ensures BranchBy(BrField(4 * k)) == Some(k - 2048)
  {
    assert BrField(4 * k) == 2 * k;
  }

  lemma DecidedJumps(op: JmpOp, ah: U32, al: U32, bh: U32, bl: U32)
    requires Decided(op, ah, bh)
    ensures Jumps64(op, Join(ah, al), Join(bh, bl))
  {
    if op == JSET {
      CommonHalves(ah, al, bh, bl);
    } else if op != JNE {
      CompareHalves(op, ah, al, bh, bl);
    }
  }

  /** Lead cannot be left out of the range: when the last branch of a 64-bit compare is in range
      and its first is not, every state the upper halves decide makes BPF jump, while the code
      goes 8 KiB short of the target. */
  lemma FarBranchMisses(op: JmpOp, code: seq<Rv>, at: int, m: Mach, a: Pair, b: Pair, k: int) returns (x': RegFile)
    requires Usable(a) && Usable(b) && CodeAt(code, at, CoreJump64(op, a, b, 4 * k))
    requires Is13b(4 * k) && !Is13b(4 * k + Lead(op)) && Decided(op, m.x[a.hi], m.x[b.hi])
    ensures Jumps64(op, Val(m.x, a), Val(m.x, b))
    ensures var target := at + |CoreJump64(op, a, b, 4 * k)| - 1 + k;
      JustT0(m.x, x') && Runs(code, Config(at, m), Config(target - 2048, Mach(x', m.mem)))
  {
    DecidedJumps(op, m.x[a.hi], m.x[a.lo], m.x[b.hi], m.x[b.lo]);
    x' := m.x;
    if op == JSET {
      x' := TestMisses(code, at, m, a, b, k);
    } else if op == JNE {
      assert 4 * k + 4 == 4 * (k + 1);
      BranchWraps(k + 1);
      StepAt(code, at, CoreJump64(op, a, b, 4 * k), Config(at, m));
    } else {
      OrderedMisses(op, code, at, m, a, b, k);
    }
  }

  lemma OrderedMisses(op: JmpOp, code: seq<Rv>, at: int, m: Mach, a: Pair, b: Pair, k: int)
    requires Usable(a) && Usable(b) && op != JEQ && op != JNE && op != JSET
    requires CodeAt(code, at, CoreJump64(op, a, b, 4 * k))
    requires 1022 <= k < 1024 && Decided(op, m.x[a.hi], m.x[b.hi])
    ensures |CoreJump64(op, a, b, 4 * k)| == 3 && Runs(code, Config(at, m), Config(at + 2 + k - 2048, m))
  {
    OrderedCode(op, a, b, k);
    var first, blk := First(op, a, b),
      [Branch(First(op, a, b), 4 * (k + 2)), Branch(Then(op, a, b), 4 * 2), Branch(Last(op, a, b), 4 * k)];
    assert Holds(first, m.x);
    BranchWraps(k + 2);
    StepAt(code, at, blk, Config(at, m));
  }

  lemma TestMisses(code: seq<Rv>, at: int, m: Mach, a: Pair, b: Pair, k: int) returns (x': RegFile)
    requires Usable(a) && Usable(b) && CodeAt(code, at, CoreJump64(JSET, a, b, 4 * k))
    requires 1022 <= k < 1024 && Bits32(And, m.x[a.hi], m.x[b.hi]) != 0
    ensures JustT0(m.x, x') && Runs(code, Config(at, m), Config(at + 3 + k - 2048, Mach(x', m.mem)))
  {
    var blk := CoreJump64(JSET, a, b, 4 * k);
    x' := SetReg(m.x, T0, Bits32(And, m.x[a.hi], m.x[b.hi]));
    assert 4 * k + 8 == 4 * (k + 2);
    BranchWraps(k + 2);
    StepAt(code, at, blk, Config(at, m));
    StepAt(code, at, blk, Config(at + 1, Mach(x', m.mem)));
    RunsTrans(code, Config(at, m), Config(at + 1, Mach(x', m.mem)), Config(at + 3 + k - 2048, Mach(x', m.mem)));
  }

  // ---------------------------------------------------------------- exactly when a compare is right

  /** A compiled state for any register values: a frame of twelve words below address 64. */
  function StateOf(regs: BpfRegs): Mach {
    Mach(seq(32, r requires 0 <= r < 32 => HomeReg(regs, r)), map a: U32 | 16 <= a < 64 :: HomeWord(regs, a))
  }

  function HomeReg(regs: BpfRegs, r: int): U32 {
    match r
    case 8 => 64
    case 9 => Lo(regs[0])
    case 18 => Hi(regs[0])
    case 10 => Lo(regs[1])
    case 11 => Hi(regs[1])
    case 12 => Lo(regs[2])
    case 13 => Hi(regs[2])
    case 14 => Lo(regs[3])
    case 15 => Hi(regs[3])
    case 16 => Lo(regs[4])
    case 17 => Hi(regs[4])
    case 19 => Lo(regs[5])
    case 20 => Hi(regs[5])
    case 21 => Lo(regs[10])
    case 22 => Hi(regs[10])
    case _ => 0
  }

  function HomeWord(regs: BpfRegs, a: U32): U32 {
    match a
    case 60 => Hi(regs[6])
    case 56 => Lo(regs[6])
    case 52 => Hi(regs[7])
    case 48 => Lo(regs[7])
    case 44 => Hi(regs[8])
    case 40 => Lo(regs[8])
    case 36 => Hi(regs[9])
    case 32 => Lo(regs[9])
    case _ => 0
  }

  lemma StateOfIs(regs: BpfRegs)
    ensures Rel(regs, StateOf(regs))
  {
    var m := StateOf(regs);
    forall o | SlotOffset(o) ensures Slot(m.x[FP], o) in m.mem {
      SlotIs(m.x[FP], o);
    }
    forall r: BpfReg {:trigger RegVal(m, r)} | r <= 10 ensures RegVal(m, r) == regs[r] {
      HomeShape(r);
      JoinParts(regs[r]);
    }
  }

  lemma JoinParts(w: U64)
    ensures Join(Hi(w), Lo(w)) == w
  {
  }

  /** Register values the first branch of the compare decides on. */
  lemma SometimesDecided(insn: Insn, op: JmpOp, x: bool) returns (regs: BpfRegs)
    requires !NeverFirst(insn, op, x)
    ensures Decided(op, Hi(regs[insn.dst]), Hi(Operand(insn, x, regs)))
  {
    var ah, bh := DecidedHalves(insn, op, x);
    var zeros: BpfRegs := seq(12, _ => 0);
    regs := if x then zeros[insn.src := Join(bh, 0)][insn.dst := Join(ah, 0)] else zeros[insn.dst := Join(ah, 0)];
  }

  /** Upper halves that decide: any two for two registers, for an immediate those it has. */
  lemma DecidedHalves(insn: Insn, op: JmpOp, x: bool) returns (ah: U32, bh: U32)
    requires !NeverFirst(insn, op, x)
    ensures Decided(op, ah, bh)
    ensures if x then insn.dst == insn.src ==> ah == bh else bh == Hi(SignExtend(insn.imm))
  {
    if x {
      bh := if op == JSET then 0xffff_ffff else 1;
    } else {
      bh := if insn.imm < 0x8000_0000 then 0 else 0xffff_ffff;
    }
    ah := DecidedBy(op, bh);
  }

  lemma DecidedBy(op: JmpOp, bh: U32) returns (ah: U32)
    requires op != JEQ && (op == JSET ==> bh == 0xffff_ffff)
    requires (op == JLT || op == JLE) ==> bh > 0
    requires (op == JGT || op == JGE) ==> bh < 0xffff_ffff
    requires bh == 0 || bh == 1 || bh == 0xffff_ffff
    ensures Decided(op, ah, bh) && (op == JSET ==> ah == bh)
  {
    match op {
      case JNE => ah := if bh == 0 then 1 else 0;
      case JSET =>
        ah := bh;
        AndSelf(bh);
      case JLT => ah := 0;
      case JLE => ah := 0;
      case JGT => ah := bh + 1;
      case JGE => ah := bh + 1;
      case JSLT => ah := 0x8000_0000;
      case JSLE => ah := 0x8000_0000;
      case JSGT => ah := 0x7fff_ffff;
      case JSGE => ah := 0x7fff_ffff;
    }
  }

  /** Where the code emitted for a compare is to go: its target or its end. */
  ghost function Goal(insn: Insn, op: JmpOp, x: bool, k: int, regs: BpfRegs): int {
    |EmitJump64(insn, op, x, 4 * k)| + if Jumps64(op, regs[insn.dst], Operand(insn, x, regs)) then k - 1 else 0
  }

  /** Run by itself, the code for a compare goes where the interpreter goes. */
  ghost predicate GoesRight(insn: Insn, op: JmpOp, x: bool, k: int, regs: BpfRegs, m: Mach) {
    exists m' :: Arrives(EmitJump64(insn, op, x, 4 * k), 0, m, Goal(insn, op, x, k, regs), m', regs)
  }

  ghost predicate AlwaysRight(insn: Insn, op: JmpOp, x: bool, k: int) {
    forall regs: BpfRegs, m: Mach {:trigger Rel(regs, m)} :: Rel(regs, m) ==> GoesRight(insn, op, x, k, regs, m)
  }

  lemma NearGoesRight(insn: Insn, op: JmpOp, x: bool, k: int, regs: BpfRegs, m: Mach)
    requires insn.dst <= 10 && insn.src <= 10 && Is13b(4 * k) && NearEnough(insn, op, x, k) && Rel(regs, m)
    ensures GoesRight(insn, op, x, k, regs, m)
  {
    var blk, pc := EmitJump64(insn, op, x, 4 * k), Goal(insn, op, x, k, regs);
    NearIsReach(insn, op, x, k, regs);
    var m' := Jmp64Runs(blk, 0, m, insn, op, x, k, blk, pc, regs);
  }

  lemma FewInsns(insn: Insn, op: JmpOp, x: bool, off: int)
    ensures |EmitJump64(insn, op, x, off)| <= 20
  {
    assert |LoadOperand(insn, x)| <= 8;
  }

  lemma FarFetched(code: seq<Rv>, at: int, m: Mach, m1: Mach, get: seq<Rv>, op: JmpOp, rd: Pair, rs: Pair, k: int)
    returns (m2: Mach)
    requires Usable(rd) && Usable(rs) && Exec(get, m) == Some(m1)
    requires CodeAt(code, at, get + CoreJump64(op, rd, rs, 4 * k))
    requires Is13b(4 * k) && !Is13b(4 * k + Lead(op)) && Decided(op, m1.x[rd.hi], m1.x[rs.hi])
    ensures Jumps64(op, Val(m1.x, rd), Val(m1.x, rs))
    ensures Runs(code, Config(at, m), Config(at + |get + CoreJump64(op, rd, rs, 4 * k)| - 1 + k - 2048, m2))
  {
    CodeAtPart(code, at, get, CoreJump64(op, rd, rs, 4 * k));
    RunBlock(code, at, get, m);
    var x' := FarBranchMisses(op, code, at + |get|, m1, rd, rs, k);
    m2 := Mach(x', m1.mem);
    RunsTrans(code, Config(at, m), Config(at + |get|, m1),
      Config(at + |get + CoreJump64(op, rd, rs, 4 * k)| - 1 + k - 2048, m2));
  }

  lemma FarWith(code: seq<Rv>, at: int, insn: Insn, op: JmpOp, x: bool, k: int, get: seq<Rv>, rd: Pair, rs: Pair,
                regs: BpfRegs, m: Mach) returns (m2: Mach)
    requires insn.dst <= 10 && insn.src <= 10 && Is13b(4 * k) && !Is13b(4 * k + Lead(op)) && Rel(regs, m)
    requires Decided(op, Hi(regs[insn.dst]), Hi(Operand(insn, x, regs)))
    requires rd == At(Home(insn.dst), TMP1) && rs == At(SourcePair(insn, x), TMP2) && get == Fetch64(insn, x)
    requires Usable(rd) && Usable(rs) && CodeAt(code, at, get + CoreJump64(op, rd, rs, 4 * k))
    ensures Jumps64(op, regs[insn.dst], Operand(insn, x, regs))
    ensures Runs(code, Config(at, m), Config(at + |get + CoreJump64(op, rd, rs, 4 * k)| - 1 + k - 2048, m2))
  {
    var m1 := Fetch64Runs(insn, x, m, regs);
    m2 := FarFetched(code, at, m, m1, get, op, rd, rs, k);
  }

  /** With the first branch out of range and taken, the code leaves 8 KiB short of the target. */
  lemma FarGoesWrong(code: seq<Rv>, at: int, insn: Insn, op: JmpOp, x: bool, k: int, regs: BpfRegs, m: Mach)
    returns (m2: Mach)
    requires insn.dst <= 10 && insn.src <= 10 && Is13b(4 * k) && !Is13b(4 * k + Lead(op)) && Rel(regs, m)
    requires Decided(op, Hi(regs[insn.dst]), Hi(Operand(insn, x, regs)))
    requires CodeAt(code, at, EmitJump64(insn, op, x, 4 * k))
    ensures Jumps64(op, regs[insn.dst], Operand(insn, x, regs))
    ensures Runs(code, Config(at, m), Config(at + Goal(insn, op, x, k, regs) - 2048, m2))
  {
    OperandsApart(insn, x);
    var rd, rs := At(Home(insn.dst), TMP1), At(SourcePair(insn, x), TMP2);
    m2 := FarWith(code, at, insn, op, x, k, Fetch64(insn, x), rd, rs, regs, m);
  }

  /** The condition on a 64-bit compare is exact: for a distance the compiler accepts, the code
      goes where the interpreter goes from every state just when the first branch is in range or
      never taken. */
  lemma NearEnoughExact(insn: Insn, op: JmpOp, x: bool, k: int)
    requires insn.dst <= 10 && insn.src <= 10 && Is13b(4 * k)
    ensures AlwaysRight(insn, op, x, k) <==> NearEnough(insn, op, x, k)
  {
    if NearEnough(insn, op, x, k) {
      forall regs: BpfRegs, m: Mach {:trigger Rel(regs, m)} | Rel(regs, m) ensures GoesRight(insn, op, x, k, regs, m) {
        NearGoesRight(insn, op, x, k, regs, m);
      }
    } else {
      var regs := SometimesDecided(insn, op, x);
      StateOfIs(regs);
      FarNotRight(insn, op, x, k, regs, StateOf(regs));
    }
  }

  lemma FarNotRight(insn: Insn, op: JmpOp, x: bool, k: int, regs: BpfRegs, m: Mach)
    requires insn.dst <= 10 && insn.src <= 10 && Is13b(4 * k) && !Is13b(4 * k + Lead(op)) && Rel(regs, m)
    requires Decided(op, Hi(regs[insn.dst]), Hi(Operand(insn, x, regs)))
    ensures !GoesRight(insn, op, x, k, regs, m)
  {
    var blk, goal := EmitJump64(insn, op, x, 4 * k), Goal(insn, op, x, k, regs);
    var m2 := FarGoesWrong(blk, 0, insn, op, x, k, regs, m);
    FewInsns(insn, op, x, 4 * k);
    forall m' ensures !Runs(blk, Config(0, m), Config(goal, m')) {
      if Runs(blk, Config(0, m), Config(goal, m')) {
        HaltsOnce(Stepper(blk), Config(0, m), Config(goal, m'), Config(goal - 2048, m2));
      }
    }
  }

  // ---------------------------------------------------------------- MOV by register, immediate 1

  predicate MovOne(insn: Insn) {
    (insn.code == Alu64(BMOV, true) || insn.code == Alu32(BMOV, true)) && insn.imm == 1
  }

  function MovOneCode(insn: Insn): seq<Rv>
    requires MovOne(insn)
  {
    if insn.code.Alu64? then EmitAlu64(insn, BMOV, true).value else EmitAlu32(insn, BMOV, true, false)
  }

  /** Whatever the source register, the compiled code zero-extends the destination. */
  lemma MovOneRuns(code: seq<Rv>, at: int, m: Mach, insn: Insn, regs: BpfRegs) returns (m': Mach)
    requires MovOne(insn) && Rel(regs, m) && insn.dst <= 10 && CodeAt(code, at, MovOneCode(insn))
    ensures Arrives(code, at, m, at + |MovOneCode(insn)|, m', regs[insn.dst := Lo(regs[insn.dst])])
  {
    var rd := At(Home(insn.dst), TMP1);
    var m1 := FetchDst64(insn.dst, m, regs);
    RegExec1(Mv(rd.hi, ZERO), m1.x);
    MvIsCopy(rd.hi, ZERO, m1.x);
    m' := Block64(code, at, Get64(Home(insn.dst), TMP1), [Mv(rd.hi, ZERO)], Put64(Home(insn.dst), rd), m, m1,
      insn.dst, Home(insn.dst), rd, Lo(regs[insn.dst]), regs,
      regs[insn.dst := Lo(regs[insn.dst])]);
  }

  function Interpreted(insn: Insn, regs: BpfRegs): U64
    requires MovOne(insn)
  {
    if insn.code.Alu64? then regs[insn.src] else Lo(regs[insn.src])
  }

  lemma InterpretedIs(prog: seq<Insn>, pc: int, regs: BpfRegs)
    requires 0 <= pc < |prog| && MovOne(prog[pc])
    ensures BpfStep(prog, pc, regs) == Continue(pc + 1, regs[prog[pc].dst := Interpreted(prog[pc], regs)])
  {
  }

  /** So MovOk is exact: the two agree on all registers just for a 32-bit MOV of a register to itself. */
  lemma MovOneExact(insn: Insn)
    requires MovOne(insn)
    ensures (forall regs: BpfRegs :: Interpreted(insn, regs) == Lo(regs[insn.dst])) <==> MovOk(insn)
  {
    if !MovOk(insn) {
      var regs: BpfRegs := seq(12, r => if r == insn.src then 0x1_0000_0001 else 0);
      assert Interpreted(insn, regs) != Lo(regs[insn.dst]);
    }
  }
}
