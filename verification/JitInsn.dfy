/** The code emitted for one BPF instruction does to the compiled state what the interpreter
    does to its registers. */
module JitInsn {
  import opened Words
  import opened Reach
  import opened Rv32
  import opened Rv32Machine
  import opened Bpf
  import opened JitEmit
  import opened JitCore
  import opened JitBytes
  import opened JitShift
  import opened JitJump
  import opened JitFrame

  /** From `at` with state `m`, `code` comes to `at'` with a state that agrees with `regs`. */
  ghost predicate Arrives(code: seq<Rv>, at: int, m: Mach, at': int, m': Mach, regs: BpfRegs) {
    Runs(code, Config(at, m), Config(at', m')) && Rel(regs, m') && Outside(m, m')
  }

  lemma ArrivesAfter(code: seq<Rv>, at: int, m: Mach, at1: int, m1: Mach, at': int, m': Mach, regs: BpfRegs)
    requires Runs(code, Config(at, m), Config(at1, m1)) && Outside(m, m1) && Arrives(code, at1, m1, at', m', regs)
    ensures Arrives(code, at, m, at', m', regs)
  {
    RunsTrans(code, Config(at, m), Config(at1, m1), Config(at', m'));
    OutsideTrans(m, m1, m');
  }

  // ---------------------------------------------------------------- operands

  /** Both operands are in registers; only scratch registers changed. */
  ghost predicate Ready(m: Mach, m1: Mach, rd: Pair, rs: Pair) {
    Quiet(m, m1) && Usable(rd) && Usable(rs) && Apart(rd, rs)
  }

  lemma OperandsApart(insn: Insn, x: bool)
    ensures var rd, rs := At(Home(insn.dst), TMP1), At(SourcePair(insn, x), TMP2);
      Usable(rd) && Usable(rs) && Apart(rd, rs)
        && !(rs.hi == TMP1.hi || rs.hi == TMP1.lo || rs.lo == TMP1.hi || rs.lo == TMP1.lo)
      && (insn.dst != insn.src || !x ==>
         !(rd.hi == TMP2.hi || rd.hi == TMP2.lo || rd.lo == TMP2.hi || rd.lo == TMP2.lo))
      && !(rd.hi == TMP2.hi || rd.hi == TMP2.lo || rd.lo == TMP2.hi || rd.lo == TMP2.lo)
  {
    HomeShape(insn.dst);
    HomeShape(insn.src);
    if insn.dst != insn.src {
      HomesDiffer(insn.dst, insn.src);
    }
  }

  /** Loading the immediate, if there is one, into TMP2. */
  lemma LoadOperandRuns(insn: Insn, x: bool, m: Mach) returns (m1: Mach)
    ensures Exec(LoadOperand(insn, x), m) == Some(m1) && m1.mem == m.mem
    ensures Loaded2(m.x, m1.x, TMP2) || Only(m.x, m1.x, TMP2)
    ensures Quiet(m, m1)
    ensures !x ==> Val(m1.x, TMP2) == SignExtend(insn.imm)
  {
    if x {
      m1 := m;
    } else {
      EmitImm32Computes(m.x, TMP2, insn.imm);
      ExecRegOnly(EmitImm32(TMP2, insn.imm), m);
      m1 := Mach(RegExec(EmitImm32(TMP2, insn.imm), m.x), m.mem);
    }
  }

  lemma QuietTrans(m: Mach, m1: Mach, m2: Mach)
    requires Quiet(m, m1) && Quiet(m1, m2)
    ensures Quiet(m, m2)
  {
    forall r: Reg {:trigger m2.x[r]} | !Scratch(r) ensures m2.x[r] == m.x[r] {
      assert m1.x[r] == m.x[r];
    }
  }

  lemma Exec3(a: seq<Rv>, b: seq<Rv>, c: seq<Rv>, m: Mach, m1: Mach, m2: Mach, m3: Mach)
    requires Exec(a, m) == Some(m1) && Exec(b, m1) == Some(m2) && Exec(c, m2) == Some(m3)
    ensures Exec(a + (b + c), m) == Some(m3)
  {
    ExecConcat(a, b + c, m);
    ExecConcat(b, c, m1);
  }

  function Fetch64(insn: Insn, x: bool): seq<Rv> {
    LoadOperand(insn, x) + (Get64(Home(insn.dst), TMP1) + Get64(SourcePair(insn, x), TMP2))
  }

  function Fetch32(insn: Insn, x: bool): seq<Rv> {
    LoadOperand(insn, x) + (Get32(Home(insn.dst), TMP1) + Get32(SourcePair(insn, x), TMP2))
  }

  /** The fetch of the second operand leaves the first alone. */
  lemma Fetch64Runs(insn: Insn, x: bool, m: Mach, regs: BpfRegs) returns (m3: Mach)
    requires Rel(regs, m) && insn.dst <= 10 && insn.src <= 10
    ensures Exec(Fetch64(insn, x), m) == Some(m3)
    ensures var rd, rs := At(Home(insn.dst), TMP1), At(SourcePair(insn, x), TMP2);
      Ready(m, m3, rd, rs) && Val(m3.x, rd) == regs[insn.dst] && Val(m3.x, rs) == Operand(insn, x, regs)
  {
    OperandsApart(insn, x);
    var m1 := LoadOperandRuns(insn, x, m);
    RelQuiet(regs, m, m1);
    GetRuns(m1, insn.dst, TMP1);
    var m2 := Exec(Get64(Home(insn.dst), TMP1), m1).value;
    assert Quiet(m1, m2);
    QuietTrans(m, m1, m2);
    RelQuiet(regs, m1, m2);
    assert RegVal(m1, insn.dst) == regs[insn.dst];
    if x {
      GetRuns(m2, insn.src, TMP2);
      assert RegVal(m2, insn.src) == regs[insn.src];
    }
    m3 := Exec(Get64(SourcePair(insn, x), TMP2), m2).value;
    Exec3(LoadOperand(insn, x), Get64(Home(insn.dst), TMP1), Get64(SourcePair(insn, x), TMP2), m, m1, m2, m3);
    QuietTrans(m, m2, m3);
  }

  lemma Fetch32Runs(insn: Insn, x: bool, m: Mach, regs: BpfRegs) returns (m3: Mach)
    requires Rel(regs, m) && insn.dst <= 10 && insn.src <= 10
    ensures Exec(Fetch32(insn, x), m) == Some(m3)
    ensures var rd, rs := At(Home(insn.dst), TMP1), At(SourcePair(insn, x), TMP2);
      Ready(m, m3, rd, rs) && m3.x[rd.lo] == Lo(regs[insn.dst]) && m3.x[rs.lo] == Lo(Operand(insn, x, regs))
  {
    OperandsApart(insn, x);
    var m1 := LoadOperandRuns(insn, x, m);
    RelQuiet(regs, m, m1);
    GetLowRuns(m1, insn.dst, TMP1);
    var m2 := Exec(Get32(Home(insn.dst), TMP1), m1).value;
    assert Quiet(m1, m2);
    QuietTrans(m, m1, m2);
    RelQuiet(regs, m1, m2);
    assert RegVal(m1, insn.dst) == regs[insn.dst];
    if x {
      GetLowRuns(m2, insn.src, TMP2);
      assert RegVal(m2, insn.src) == regs[insn.src];
    }
    m3 := Exec(Get32(SourcePair(insn, x), TMP2), m2).value;
    Exec3(LoadOperand(insn, x), Get32(Home(insn.dst), TMP1), Get32(SourcePair(insn, x), TMP2), m, m1, m2, m3);
    QuietTrans(m, m2, m3);
  }

  /** The destination alone. */
  lemma FetchDst64(dst: BpfReg, m: Mach, regs: BpfRegs) returns (m1: Mach)
    requires Rel(regs, m) && dst <= 10
    ensures Exec(Get64(Home(dst), TMP1), m) == Some(m1) && Quiet(m, m1)
    ensures Usable(At(Home(dst), TMP1)) && Val(m1.x, At(Home(dst), TMP1)) == regs[dst]
  {
    GetRuns(m, dst, TMP1);
    m1 := Exec(Get64(Home(dst), TMP1), m).value;
    assert RegVal(m, dst) == regs[dst];
  }

  lemma FetchDst32(dst: BpfReg, m: Mach, regs: BpfRegs) returns (m1: Mach)
    requires Rel(regs, m) && dst <= 10
    ensures Exec(Get32(Home(dst), TMP1), m) == Some(m1) && Quiet(m, m1)
    ensures Usable(At(Home(dst), TMP1)) && m1.x[At(Home(dst), TMP1).lo] == Lo(regs[dst])
  {
    GetLowRuns(m, dst, TMP1);
    m1 := Exec(Get32(Home(dst), TMP1), m).value;
    assert RegVal(m, dst) == regs[dst];
  }

  // ---------------------------------------------------------------- fetch, compute, store

  ghost predicate SameBut(regs: BpfRegs, regs': BpfRegs, dst: BpfReg, v: U64) {
    forall r: BpfReg {:trigger regs'[r]} :: r <= 10 ==> regs'[r] == if r == dst then v else regs[r]
  }

  lemma CoreTouches(m: Mach, m1: Mach, x2: RegFile, dst: BpfReg)
    requires Quiet(m, m1) && Only(m1.x, x2, At(Home(dst), TMP1))
    ensures Touches(m, Mach(x2, m1.mem), dst)
  {
    forall r: Reg {:trigger x2[r]} | !Scratch(r) && r != Home(dst).hi && r != Home(dst).lo ensures x2[r] == m.x[r] {
      assert m1.x[r] == m.x[r];
    }
  }

  lemma Split(code: seq<Rv>, at: int, get: seq<Rv>, core: seq<Rv>, put: seq<Rv>)
    requires CodeAt(code, at, get + core + put)
    ensures CodeAt(code, at, get) && CodeAt(code, at + |get|, core) && CodeAt(code, at + |get| + |core|, put)
    ensures |get + core + put| == |get| + |core| + |put|
  {
    CodeAtPart(code, at, get + core, put);
    CodeAtPart(code, at, get, core);
  }

  lemma RunsTrans3(code: seq<Rv>, a: Config, b: Config, c: Config, d: Config)
    requires Runs(code, a, b) && Runs(code, b, c) && Runs(code, c, d)
    ensures Runs(code, a, d)
  {
    RunsTrans(code, a, b, c);
    RunsTrans(code, a, c, d);
  }

  lemma FirstRuns(code: seq<Rv>, at: int, get: seq<Rv>, core: seq<Rv>, put: seq<Rv>, m: Mach, m1: Mach)
    requires CodeAt(code, at, get + core + put) && Exec(get, m) == Some(m1)
    ensures Runs(code, Config(at, m), Config(at + |get|, m1))
  {
    Split(code, at, get, core, put);
    RunBlock(code, at, get, m);
  }

  lemma LastRuns(code: seq<Rv>, at: int, get: seq<Rv>, core: seq<Rv>, put: seq<Rv>, m2: Mach, m3: Mach)
    requires CodeAt(code, at, get + core + put) && Exec(put, m2) == Some(m3)
    ensures Runs(code, Config(at + |get| + |core|, m2), Config(at + |get + core + put|, m3))
  {
    Split(code, at, get, core, put);
    RunBlock(code, at + |get| + |core|, put, m2);
  }

  lemma ThreeRuns(code: seq<Rv>, at: int, get: seq<Rv>, core: seq<Rv>, put: seq<Rv>, m: Mach, m1: Mach, m2: Mach,
                  m3: Mach)
    requires CodeAt(code, at, get + core + put)
    requires Exec(get, m) == Some(m1) && Exec(put, m2) == Some(m3)
    requires Runs(code, Config(at + |get|, m1), Config(at + |get| + |core|, m2))
    ensures Runs(code, Config(at, m), Config(at + |get + core + put|, m3))
  {
    FirstRuns(code, at, get, core, put, m, m1);
    LastRuns(code, at, get, core, put, m2, m3);
    RunsTrans3(code, Config(at, m), Config(at + |get|, m1), Config(at + |get| + |core|, m2),
      Config(at + |get + core + put|, m3));
  }

  lemma ThreeBlocks(code: seq<Rv>, at: int, get: seq<Rv>, core: seq<Rv>, put: seq<Rv>, m: Mach, m1: Mach, m3: Mach)
    requires CodeAt(code, at, get + core + put) && AllRegOnly(core)
    requires Exec(get, m) == Some(m1) && Exec(put, Mach(RegExec(core, m1.x), m1.mem)) == Some(m3)
    ensures Runs(code, Config(at, m), Config(at + |get + core + put|, m3))
  {
    Split(code, at, get, core, put);
    RegBlockRuns(code, at + |get|, core, m1);
    ThreeRuns(code, at, get, core, put, m, m1, Mach(RegExec(core, m1.x), m1.mem), m3);
  }

  /** Storing what was computed into the destination pair. */
  lemma Settle64(m: Mach, m1: Mach, x2: RegFile, dst: BpfReg, p: Pair, rd: Pair, v: U64, regs: BpfRegs, regs': BpfRegs)
    returns (m': Mach)
    requires p == Home(dst) && rd == At(p, TMP1)
    requires Rel(regs, m) && SameBut(regs, regs', dst, v) && rd.InRegs() && Quiet(m, m1)
    requires Only(m1.x, x2, rd) && Val(x2, rd) == v
    ensures Exec(Put64(p, rd), Mach(x2, m1.mem)) == Some(m')
    ensures Rel(regs', m') && Outside(m, m')
  {
    CoreTouches(m, m1, x2, dst);
    PutRuns(m, Mach(x2, m1.mem), dst);
    m' := Exec(Put64(p, rd), Mach(x2, m1.mem)).value;
    RelUpdated(regs, regs', m, m', dst, v);
  }

  lemma Settle32(m: Mach, m1: Mach, x2: RegFile, dst: BpfReg, p: Pair, rd: Pair, v: U32, regs: BpfRegs, regs': BpfRegs)
    returns (m': Mach)
    requires p == Home(dst) && rd == At(p, TMP1)
    requires Rel(regs, m) && SameBut(regs, regs', dst, v) && rd.InRegs() && Quiet(m, m1)
    requires Only(m1.x, x2, rd) && x2[rd.lo] == v
    ensures Exec(Put32(p, rd, false), Mach(x2, m1.mem)) == Some(m')
    ensures Rel(regs', m') && Outside(m, m')
  {
    CoreTouches(m, m1, x2, dst);
    PutLowRuns(m, Mach(x2, m1.mem), dst);
    m' := Exec(Put32(p, rd, false), Mach(x2, m1.mem)).value;
    RelUpdated(regs, regs', m, m', dst, v);
  }

  lemma RunsArrive(code: seq<Rv>, at: int, get: seq<Rv>, core: seq<Rv>, put: seq<Rv>, m: Mach, m1: Mach, m2: Mach,
                   m3: Mach,
                   regs': BpfRegs)
    requires CodeAt(code, at, get + core + put) && Exec(get, m) == Some(m1) && Exec(put, m2) == Some(m3)
    requires Runs(code, Config(at + |get|, m1), Config(at + |get| + |core|, m2))
    requires Rel(regs', m3) && Outside(m, m3)
    ensures Arrives(code, at, m, at + |get + core + put|, m3, regs')
  {
    ThreeRuns(code, at, get, core, put, m, m1, m2, m3);
  }

  /** Fetch, code that leaves `v` in the destination pair, store. */
  lemma Middle64(code: seq<Rv>, at: int, get: seq<Rv>, core: seq<Rv>, put: seq<Rv>, m: Mach, m1: Mach, x2: RegFile,
                 dst: BpfReg, p: Pair, rd: Pair, v: U64, regs: BpfRegs, regs': BpfRegs) returns (m': Mach)
    requires p == Home(dst) && rd == At(p, TMP1) && rd.InRegs() && put == Put64(p, rd)
    requires Rel(regs, m) && SameBut(regs, regs', dst, v)
    requires Exec(get, m) == Some(m1) && Quiet(m, m1)
    requires Runs(code, Config(at + |get|, m1), Config(at + |get| + |core|, Mach(x2, m1.mem)))
    requires Only(m1.x, x2, rd) && Val(x2, rd) == v
    requires CodeAt(code, at, get + core + put)
    ensures Arrives(code, at, m, at + |get + core + put|, m', regs')
  {
    m' := Settle64(m, m1, x2, dst, p, rd, v, regs, regs');
    RunsArrive(code, at, get, core, put, m, m1, Mach(x2, m1.mem), m', regs');
  }

  lemma BlocksArrive(code: seq<Rv>, at: int, get: seq<Rv>, core: seq<Rv>, put: seq<Rv>, m: Mach, m1: Mach, m3: Mach,
                     regs': BpfRegs)
    requires CodeAt(code, at, get + core + put) && AllRegOnly(core)
    requires Exec(get, m) == Some(m1) && Exec(put, Mach(RegExec(core, m1.x), m1.mem)) == Some(m3)
    requires Rel(regs', m3) && Outside(m, m3)
    ensures Arrives(code, at, m, at + |get + core + put|, m3, regs')
  {
    ThreeBlocks(code, at, get, core, put, m, m1, m3);
  }

  /** Fetch, compute `v` by a register-only block, store. */
  lemma Block64(code: seq<Rv>, at: int, get: seq<Rv>, core: seq<Rv>, put: seq<Rv>, m: Mach, m1: Mach,
                dst: BpfReg, p: Pair, rd: Pair, v: U64, regs: BpfRegs, regs': BpfRegs) returns (m': Mach)
    requires p == Home(dst) && rd == At(p, TMP1) && rd.InRegs() && put == Put64(p, rd)
    requires Rel(regs, m) && SameBut(regs, regs', dst, v)
    requires Exec(get, m) == Some(m1) && Quiet(m, m1) && Computes(core, m1.x, rd, v)
    requires CodeAt(code, at, get + core + put)
    ensures Arrives(code, at, m, at + |get + core + put|, m', regs')
  {
    m' := Settle64(m, m1, RegExec(core, m1.x), dst, p, rd, v, regs, regs');
    BlocksArrive(code, at, get, core, put, m, m1, m', regs');
  }

  lemma Block32(code: seq<Rv>, at: int, get: seq<Rv>, core: seq<Rv>, put: seq<Rv>, m: Mach, m1: Mach,
                dst: BpfReg, p: Pair, rd: Pair, v: U32, regs: BpfRegs, regs': BpfRegs) returns (m': Mach)
    requires p == Home(dst) && rd == At(p, TMP1) && rd.InRegs() && put == Put32(p, rd, false)
    requires Rel(regs, m) && SameBut(regs, regs', dst, v)
    requires Exec(get, m) == Some(m1) && Quiet(m, m1)
    requires AllRegOnly(core) && Only(m1.x, RegExec(core, m1.x), rd) && RegExec(core, m1.x)[rd.lo] == v
    requires CodeAt(code, at, get + core + put)
    ensures Arrives(code, at, m, at + |get + core + put|, m', regs')
  {
    m' := Settle32(m, m1, RegExec(core, m1.x), dst, p, rd, v, regs, regs');
    BlocksArrive(code, at, get, core, put, m, m1, m', regs');
  }

  // ---------------------------------------------------------------- 64-bit arithmetic

  /** Instructions without a shift: one block of register instructions. */
  lemma CoreComputes(op: AluOp, x: RegFile, rd: Pair, rs: Pair)
    requires Usable(rd) && Usable(rs) && Apart(rd, rs)
    requires op != BDIV && op != BMOD && !IsShift(op)
    ensures Computes(Core64(op, rd, rs), x, rd, Op64(op, Val(x, rd), Val(x, rs)).value)
  {
    match op {
      case BMOV => CoreMov(x, rd, rs);
      case BADD => CoreAdd(x, rd, rs);
      case BSUB => CoreSub(x, rd, rs);
      case BMUL => CoreMul(x, rd, rs);
      case BNEG => CoreNeg(x, rd, rs, Val(x, rs));
      case BAND => CoreBits(x, rd, rs);
      case BOR => CoreBits(x, rd, rs);
      case BXOR => CoreBits(x, rd, rs);
    }
  }

  lemma CoreRuns(op: AluOp, code: seq<Rv>, at: int, m: Mach, rd: Pair, rs: Pair) returns (x': RegFile)
    requires Usable(rd) && Usable(rs) && Apart(rd, rs)
    requires op != BDIV && op != BMOD && Op64(op, Val(m.x, rd), Val(m.x, rs)).Some?
    requires CodeAt(code, at, Core64(op, rd, rs))
    ensures Runs(code, Config(at, m), Config(at + |Core64(op, rd, rs)|, Mach(x', m.mem)))
    ensures Val(x', rd) == Op64(op, Val(m.x, rd), Val(m.x, rs)).value && Only(m.x, x', rd)
  {
    if IsShift(op) {
      x' := ShiftRuns(op, code, at, m, rd, rs);
      ShiftLength(op, rd, rs);
    } else {
      CoreComputes(op, m.x, rd, rs);
      RegBlockRuns(code, at, Core64(op, rd, rs), m);
      x' := RegExec(Core64(op, rd, rs), m.x);
    }
  }

  lemma ShiftLength(op: AluOp, rd: Pair, rs: Pair)
    requires IsShift(op) && rd.InRegs() && rs.InRegs()
    ensures |Core64(op, rd, rs)| == 12
  {
  }

  /** MOV by register with immediate 1 is taken for a zero extension of the destination. */
  predicate MovOk(insn: Insn) {
    (insn.code.Alu64? || insn.code.Alu32?) && insn.code.op == BMOV && insn.code.x && insn.imm == 1 ==>
      insn.code.Alu32? && insn.dst == insn.src
  }

  function After64(insn: Insn, op: AluOp, x: bool, regs: BpfRegs): BpfRegs
    requires Op64(op, regs[insn.dst], Operand(insn, x, regs)).Some?
  {
    var a, b := regs[insn.dst], Operand(insn, x, regs);
    WithAx(op, true, a, b, regs)[insn.dst := Op64(op, a, b).value]
  }

  lemma After64Is(insn: Insn, op: AluOp, x: bool, regs: BpfRegs)
    requires Op64(op, regs[insn.dst], Operand(insn, x, regs)).Some? && insn.dst <= 10
    ensures SameBut(regs, After64(insn, op, x, regs), insn.dst, Op64(op, regs[insn.dst], Operand(insn, x, regs)).value)
  {
  }

  lemma ImmediateComputes(op: AluOp, x: RegFile, rd: Pair, imm: U32)
    requires Usable(rd) && (op == BMOV || IsShift(op)) && Op64(op, Val(x, rd), SignExtend(imm)).Some?
    ensures Computes(CoreImm64(op, rd, imm), x, rd, Op64(op, Val(x, rd), SignExtend(imm)).value)
  {
    if op == BMOV {
      EmitImm32Computes(x, rd, imm);
    } else {
      CoreImmShift(op, x, rd, imm);
    }
  }

  /** FetchDst64 for parts given by name. */
  lemma FetchDstAs(dst: BpfReg, p: Pair, rd: Pair, get: seq<Rv>, m: Mach, regs: BpfRegs) returns (m1: Mach)
    requires Rel(regs, m) && dst <= 10 && p == Home(dst) && rd == At(p, TMP1) && get == Get64(p, TMP1)
    ensures Exec(get, m) == Some(m1) && Quiet(m, m1) && Usable(rd) && Val(m1.x, rd) == regs[dst]
  {
    m1 := FetchDst64(dst, m, regs);
  }

  lemma ImmediateGives(op: AluOp, x: RegFile, rd: Pair, imm: U32, a: U64, v: U64, core: seq<Rv>)
    requires Usable(rd) && (op == BMOV || IsShift(op)) && Val(x, rd) == a
    requires Op64(op, a, SignExtend(imm)) == Some(v) && core == CoreImm64(op, rd, imm)
    ensures Computes(core, x, rd, v)
  {
    ImmediateComputes(op, x, rd, imm);
  }

  lemma ImmediateIn(code: seq<Rv>, at: int, m: Mach, dst: BpfReg, imm: U32, op: AluOp, v: U64, p: Pair, rd: Pair,
                    get: seq<Rv>, core: seq<Rv>, put: seq<Rv>, regs: BpfRegs, regs': BpfRegs) returns (m': Mach)
    requires Rel(regs, m) && dst <= 10 && p == Home(dst) && rd == At(p, TMP1) && rd.InRegs()
    requires get == Get64(p, TMP1) && core == CoreImm64(op, rd, imm) && put == Put64(p, rd)
    requires (op == BMOV || IsShift(op)) && Op64(op, regs[dst], SignExtend(imm)) == Some(v)
    requires SameBut(regs, regs', dst, v) && CodeAt(code, at, get + core + put)
    ensures Arrives(code, at, m, at + |get + core + put|, m', regs')
  {
    var m1 := FetchDstAs(dst, p, rd, get, m, regs);
    ImmediateGives(op, m1.x, rd, imm, regs[dst], v, core);
    m' := Block64(code, at, get, core, put, m, m1, dst, p, rd, v, regs, regs');
  }

  lemma Immediate64(code: seq<Rv>, at: int, m: Mach, insn: Insn, op: AluOp, v: U64, blk: seq<Rv>, regs: BpfRegs,
                    regs': BpfRegs)
    returns (m': Mach)
    requires Rel(regs, m) && insn.dst <= 10 && (op == BMOV || IsShift(op))
    requires Op64(op, regs[insn.dst], SignExtend(insn.imm)) == Some(v) && SameBut(regs, regs', insn.dst, v)
    requires At(Home(insn.dst), TMP1).InRegs()
    requires var rd := At(Home(insn.dst), TMP1);
      blk == Get64(Home(insn.dst), TMP1) + CoreImm64(op, rd, insn.imm) + Put64(Home(insn.dst), rd)
    requires CodeAt(code, at, blk)
    ensures Arrives(code, at, m, at + |blk|, m', regs')
  {
    var p, rd := Home(insn.dst), At(Home(insn.dst), TMP1);
    m' := ImmediateIn(code, at, m, insn.dst, insn.imm, op, v, p, rd, Get64(p, TMP1), CoreImm64(op, rd, insn.imm),
                      Put64(p, rd), regs, regs');
  }

  lemma Neg64(code: seq<Rv>, at: int, m: Mach, insn: Insn, x: bool, regs: BpfRegs) returns (m': Mach)
    requires Rel(regs, m) && insn.dst <= 10
    requires CodeAt(code, at, EmitAlu64(insn, BNEG, x).value)
    ensures Arrives(code, at, m, at + |EmitAlu64(insn, BNEG, x).value|, m', After64(insn, BNEG, x, regs))
  {
    var rd := At(Home(insn.dst), TMP1);
    After64Is(insn, BNEG, x, regs);
    var m1 := FetchDst64(insn.dst, m, regs);
    CoreNeg(m1.x, rd, TMP2, Operand(insn, x, regs));
    m' := Block64(code, at, Get64(Home(insn.dst), TMP1), Core64(BNEG, rd, TMP2), Put64(Home(insn.dst), rd), m, m1,
      insn.dst, Home(insn.dst), rd,
                  Op64(BNEG, regs[insn.dst], Operand(insn, x, regs)).value, regs, After64(insn, BNEG, x, regs));
  }

  lemma FetchedCore64(code: seq<Rv>, at: int, m1: Mach, get: seq<Rv>, op: AluOp, rd: Pair, rs: Pair, core: seq<Rv>,
                      put: seq<Rv>, v: U64)
    returns (x2: RegFile)
    requires Usable(rd) && Usable(rs) && Apart(rd, rs) && core == Core64(op, rd, rs)
    requires op != BDIV && op != BMOD && Op64(op, Val(m1.x, rd), Val(m1.x, rs)) == Some(v)
    requires CodeAt(code, at, get + core + put)
    ensures Runs(code, Config(at + |get|, m1), Config(at + |get| + |core|, Mach(x2, m1.mem)))
    ensures Val(x2, rd) == v && Only(m1.x, x2, rd)
  {
    Split(code, at, get, core, put);
    x2 := CoreRuns(op, code, at + |get|, m1, rd, rs);
  }

  lemma Binary64(code: seq<Rv>, at: int, m: Mach, m1: Mach, get: seq<Rv>, core: seq<Rv>, put: seq<Rv>, op: AluOp,
                 dst: BpfReg, p: Pair, rd: Pair, rs: Pair, v: U64, regs: BpfRegs, regs': BpfRegs) returns (m': Mach)
    requires Rel(regs, m) && Exec(get, m) == Some(m1) && Ready(m, m1, rd, rs)
    requires p == Home(dst) && rd == At(p, TMP1) && put == Put64(p, rd)
    requires op != BDIV && op != BMOD && core == Core64(op, rd, rs)
    requires Op64(op, Val(m1.x, rd), Val(m1.x, rs)) == Some(v) && SameBut(regs, regs', dst, v)
    requires CodeAt(code, at, get + core + put)
    ensures Arrives(code, at, m, at + |get + core + put|, m', regs')
  {
    var x2 := FetchedCore64(code, at, m1, get, op, rd, rs, core, put, v);
    m' := Middle64(code, at, get, core, put, m, m1, x2, dst, p, rd, v, regs, regs');
  }

  lemma FetchedIn(code: seq<Rv>, at: int, m: Mach, insn: Insn, op: AluOp, x: bool, v: U64, p: Pair, rd: Pair, rs: Pair,
                  get: seq<Rv>, core: seq<Rv>, put: seq<Rv>, regs: BpfRegs, regs': BpfRegs) returns (m': Mach)
    requires Rel(regs, m) && insn.dst <= 10 && insn.src <= 10 && op != BDIV && op != BMOD
    requires p == Home(insn.dst) && rd == At(p, TMP1) && rs == At(SourcePair(insn, x), TMP2)
    requires rd.InRegs() && rs.InRegs() && get == Fetch64(insn, x) && core == Core64(op, rd, rs) && put == Put64(p, rd)
    requires Op64(op, regs[insn.dst], Operand(insn, x, regs)) == Some(v) && SameBut(regs, regs', insn.dst, v)
    requires CodeAt(code, at, get + core + put)
    ensures Arrives(code, at, m, at + |get + core + put|, m', regs')
  {
    var m1 := Fetch64Runs(insn, x, m, regs);
    m' := Binary64(code, at, m, m1, get, core, put, op, insn.dst, p, rd, rs, v, regs, regs');
  }

  lemma Fetched64(code: seq<Rv>, at: int, m: Mach, insn: Insn, op: AluOp, x: bool, core: seq<Rv>, v: U64, regs: BpfRegs,
                  regs': BpfRegs)
    returns (m': Mach)
    requires Rel(regs, m) && insn.dst <= 10 && insn.src <= 10 && op != BDIV && op != BMOD
    requires Op64(op, regs[insn.dst], Operand(insn, x, regs)) == Some(v) && SameBut(regs, regs', insn.dst, v)
    requires At(Home(insn.dst), TMP1).InRegs() && At(SourcePair(insn, x), TMP2).InRegs()
    requires core == Core64(op, At(Home(insn.dst), TMP1), At(SourcePair(insn, x), TMP2))
    requires CodeAt(code, at, Fetch64(insn, x) + core + Put64(Home(insn.dst), At(Home(insn.dst), TMP1)))
    ensures Arrives(code, at, m, at + |Fetch64(insn, x) + core + Put64(Home(insn.dst), At(Home(insn.dst), TMP1))|, m',
      regs')
  {
    var p, rd, rs := Home(insn.dst), At(Home(insn.dst), TMP1), At(SourcePair(insn, x), TMP2);
    m' := FetchedIn(code, at, m, insn, op, x, v, p, rd, rs, Fetch64(insn, x), core, Put64(p, rd), regs, regs');
  }

  lemma Alu64Runs(code: seq<Rv>, at: int, m: Mach, insn: Insn, regs: BpfRegs) returns (m': Mach)
    requires insn.code.Alu64? && Rel(regs, m) && insn.dst <= 10 && insn.src <= 10 && MovOk(insn)
    requires EmitAlu64(insn, insn.code.op, insn.code.x).Some?
    requires Op64(insn.code.op, regs[insn.dst], Operand(insn, insn.code.x, regs)).Some?
    requires CodeAt(code, at, EmitAlu64(insn, insn.code.op, insn.code.x).value)
    ensures Arrives(code, at, m, at + |EmitAlu64(insn, insn.code.op, insn.code.x).value|, m',
                    After64(insn, insn.code.op, insn.code.x, regs))
  {
    var op, x := insn.code.op, insn.code.x;
    if op == BNEG {
      m' := Neg64(code, at, m, insn, x, regs);
    } else {
      var v, blk, regs' := Op64(op, regs[insn.dst], Operand(insn, x, regs)).value, EmitAlu64(insn, op, x).value,
        After64(insn, op, x, regs);
      After64Is(insn, op, x, regs);
      OperandsApart(insn, x);
      if !x && (op == BMOV || IsShift(op)) {
        m' := Immediate64(code, at, m, insn, op, v, blk, regs, regs');
      } else {
        m' := Fetched64(code, at, m, insn, op, x, Core64(op, At(Home(insn.dst), TMP1), At(SourcePair(insn, x), TMP2)),
          v, regs, regs');
      }
    }
  }

  // ---------------------------------------------------------------- 32-bit arithmetic

  function After32(insn: Insn, op: AluOp, x: bool, regs: BpfRegs): BpfRegs
    requires Op32(op, Lo(regs[insn.dst]), Operand(insn, x, regs)).Some?
  {
    var a, b := regs[insn.dst], Operand(insn, x, regs);
    WithAx(op, false, a, b, regs)[insn.dst := Op32(op, Lo(a), b).value]
  }

  lemma After32Is(insn: Insn, op: AluOp, x: bool, regs: BpfRegs)
    requires Op32(op, Lo(regs[insn.dst]), Operand(insn, x, regs)).Some? && insn.dst <= 10
    ensures SameBut(regs, After32(insn, op, x, regs), insn.dst,
      Op32(op, Lo(regs[insn.dst]), Operand(insn, x, regs)).value)
  {
  }

  lemma Neg32(code: seq<Rv>, at: int, m: Mach, insn: Insn, x: bool, regs: BpfRegs) returns (m': Mach)
    requires Rel(regs, m) && insn.dst <= 10
    requires CodeAt(code, at, EmitAlu32(insn, BNEG, x, false))
    ensures Arrives(code, at, m, at + |EmitAlu32(insn, BNEG, x, false)|, m', After32(insn, BNEG, x, regs))
  {
    var rd := At(Home(insn.dst), TMP1);
    After32Is(insn, BNEG, x, regs);
    var m1 := FetchDst32(insn.dst, m, regs);
    Core32Computes(BNEG, m1.x, rd.lo, TMP2.lo, Operand(insn, x, regs));
    m' := Block32(code, at, Get32(Home(insn.dst), TMP1), [Core32(BNEG, rd.lo, TMP2.lo)],
                  Put32(Home(insn.dst), rd, false), m, m1, insn.dst, Home(insn.dst), rd,
                  Op32(BNEG, Lo(regs[insn.dst]), Operand(insn, x, regs)).value, regs, After32(insn, BNEG, x, regs));
  }

  lemma Imm32Core(x: RegFile, rd: Pair, imm: U32, core: seq<Rv>)
    requires Usable(rd) && core == EmitImm32(rd, imm)
    ensures AllRegOnly(core) && Only(x, RegExec(core, x), rd) && RegExec(core, x)[rd.lo] == imm
  {
    EmitImm32Computes(x, rd, imm);
    ComputesLow(core, x, rd, imm);
  }

  lemma ComputesLow(core: seq<Rv>, x: RegFile, rd: Pair, imm: U32)
    requires Usable(rd) && Computes(core, x, rd, SignExtend(imm))
    ensures AllRegOnly(core) && Only(x, RegExec(core, x), rd) && RegExec(core, x)[rd.lo] == imm
  {
    SignExtendHalves(imm);
  }

  lemma LoadImm32(code: seq<Rv>, at: int, m: Mach, dst: BpfReg, p: Pair, rd: Pair, imm: U32,
                  get: seq<Rv>, core: seq<Rv>, put: seq<Rv>, regs: BpfRegs, regs': BpfRegs) returns (m': Mach)
    requires Rel(regs, m) && dst <= 10 && p == Home(dst) && rd == At(p, TMP1) && Usable(rd)
    requires get == Get32(p, TMP1) && core == EmitImm32(rd, imm) && put == Put32(p, rd, false)
    requires SameBut(regs, regs', dst, imm) && CodeAt(code, at, get + core + put)
    ensures Arrives(code, at, m, at + |get + core + put|, m', regs')
  {
    var m1 := FetchDst32(dst, m, regs);
    Imm32Core(m1.x, rd, imm, core);
    m' := Block32(code, at, get, core, put, m, m1, dst, p, rd, imm, regs, regs');
  }

  lemma MovImm32(code: seq<Rv>, at: int, m: Mach, insn: Insn, regs: BpfRegs) returns (m': Mach)
    requires Rel(regs, m) && insn.dst <= 10
    requires CodeAt(code, at, EmitAlu32(insn, BMOV, false, false))
    ensures Arrives(code, at, m, at + |EmitAlu32(insn, BMOV, false, false)|, m', After32(insn, BMOV, false, regs))
  {
    var p, rd := Home(insn.dst), At(Home(insn.dst), TMP1);
    After32Is(insn, BMOV, false, regs);
    OperandsApart(insn, false);
    m' := LoadImm32(code, at, m, insn.dst, p, rd, insn.imm, Get32(p, TMP1), EmitImm32(rd, insn.imm),
      Put32(p, rd, false),
                    regs, After32(insn, BMOV, false, regs));
  }

  /** MOV of a register to itself with immediate 1: the upper half is cleared. */
  lemma ZeroExtend(code: seq<Rv>, at: int, m: Mach, insn: Insn, regs: BpfRegs) returns (m': Mach)
    requires Rel(regs, m) && insn.dst <= 10 && insn.dst == insn.src && insn.imm == 1
    requires CodeAt(code, at, EmitAlu32(insn, BMOV, true, false))
    ensures Arrives(code, at, m, at + |EmitAlu32(insn, BMOV, true, false)|, m', After32(insn, BMOV, true, regs))
  {
    var rd := At(Home(insn.dst), TMP1);
    After32Is(insn, BMOV, true, regs);
    var m1 := FetchDst64(insn.dst, m, regs);
    RegExec1(Mv(rd.hi, ZERO), m1.x);
    MvIsCopy(rd.hi, ZERO, m1.x);
    m' := Block64(code, at, Get64(Home(insn.dst), TMP1), [Mv(rd.hi, ZERO)], Put64(Home(insn.dst), rd), m, m1,
      insn.dst, Home(insn.dst), rd, Lo(regs[insn.dst]), regs,
      After32(insn, BMOV, true, regs));
  }

  /** With `a` and `b` in the low registers of the operands, `core` leaves `v` in rd.lo. */
  ghost predicate Gives(core: seq<Rv>, rd: Pair, rs: Pair, a: U32, b: U32, v: U32)
    requires rd.InRegs() && rs.InRegs()
  {
    forall x: RegFile {:trigger Sets(core, x, rd.lo, v)} :: x[rd.lo] == a && x[rs.lo] == b ==> Sets(core, x, rd.lo, v)
  }

  lemma Core32Gives(op: AluOp, rd: Pair, rs: Pair, a: U32, b: U64, v: U32)
    requires Usable(rd) && rs.InRegs() && Op32(op, a, b) == Some(v)
    ensures Gives([Core32(op, rd.lo, rs.lo)], rd, rs, a, Lo(b), v)
  {
    var core := [Core32(op, rd.lo, rs.lo)];
    forall x: RegFile {:trigger Sets(core, x, rd.lo, v)} | x[rd.lo] == a && x[rs.lo] == Lo(b)
      ensures Sets(core, x, rd.lo, v)
    {
      Core32Computes(op, x, rd.lo, rs.lo, b);
    }
  }

  lemma Middle32(code: seq<Rv>, at: int, m: Mach, m1: Mach, get: seq<Rv>, core: seq<Rv>, put: seq<Rv>, dst: BpfReg,
                 p: Pair, rd: Pair, rs: Pair, v: U32, regs: BpfRegs, regs': BpfRegs) returns (m': Mach)
    requires Rel(regs, m) && Exec(get, m) == Some(m1) && Ready(m, m1, rd, rs) && p == Home(dst) && rd == At(p, TMP1)
    requires rd.InRegs() && rs.InRegs() && Gives(core, rd, rs, m1.x[rd.lo], m1.x[rs.lo], v)
    requires put == Put32(p, rd, false) && SameBut(regs, regs', dst, v) && CodeAt(code, at, get + core + put)
    ensures Arrives(code, at, m, at + |get + core + put|, m', regs')
  {
    assert Sets(core, m1.x, rd.lo, v);
    m' := Block32(code, at, get, core, put, m, m1, dst, p, rd, v, regs, regs');
  }

  lemma Fetch32Into(insn: Insn, x: bool, m: Mach, regs: BpfRegs, get: seq<Rv>, rd: Pair, rs: Pair, b: U64)
    returns (m1: Mach)
    requires Rel(regs, m) && insn.dst <= 10 && insn.src <= 10 && get == Fetch32(insn, x) && b == Operand(insn, x, regs)
    requires rd == At(Home(insn.dst), TMP1) && rs == At(SourcePair(insn, x), TMP2) && rd.InRegs() && rs.InRegs()
    ensures Exec(get, m) == Some(m1) && Ready(m, m1, rd, rs) && m1.x[rd.lo] == Lo(regs[insn.dst])
    ensures m1.x[rs.lo] == Lo(b)
  {
    m1 := Fetch32Runs(insn, x, m, regs);
  }

  lemma FetchedIn32(code: seq<Rv>, at: int, m: Mach, insn: Insn, x: bool, get: seq<Rv>, core: seq<Rv>, put: seq<Rv>,
                    p: Pair, rd: Pair, rs: Pair, b: U64, v: U32, regs: BpfRegs, regs': BpfRegs) returns (m': Mach)
    requires Rel(regs, m) && insn.dst <= 10 && insn.src <= 10 && SameBut(regs, regs', insn.dst, v)
    requires p == Home(insn.dst) && rd == At(p, TMP1) && rs == At(SourcePair(insn, x), TMP2)
    requires rd.InRegs() && rs.InRegs() && get == Fetch32(insn, x) && put == Put32(p, rd, false)
    requires b == Operand(insn, x, regs) && Gives(core, rd, rs, Lo(regs[insn.dst]), Lo(b), v)
    requires CodeAt(code, at, get + core + put)
    ensures Arrives(code, at, m, at + |get + core + put|, m', regs')
  {
    var m1 := Fetch32Into(insn, x, m, regs, get, rd, rs, b);
    m' := Middle32(code, at, m, m1, get, core, put, insn.dst, p, rd, rs, v, regs, regs');
  }

  lemma Fetched32(code: seq<Rv>, at: int, m: Mach, insn: Insn, x: bool, core: seq<Rv>, rd: Pair, rs: Pair, v: U32,
                  regs: BpfRegs, regs': BpfRegs) returns (m': Mach)
    requires Rel(regs, m) && insn.dst <= 10 && insn.src <= 10 && SameBut(regs, regs', insn.dst, v)
    requires rd == At(Home(insn.dst), TMP1) && rs == At(SourcePair(insn, x), TMP2) && rd.InRegs() && rs.InRegs()
    requires Gives(core, rd, rs, Lo(regs[insn.dst]), Lo(Operand(insn, x, regs)), v)
    requires CodeAt(code, at, Fetch32(insn, x) + core + Put32(Home(insn.dst), rd, false))
    ensures Arrives(code, at, m, at + |Fetch32(insn, x) + core + Put32(Home(insn.dst), rd, false)|, m', regs')
  {
    var p := Home(insn.dst);
    m' := FetchedIn32(code, at, m, insn, x, Fetch32(insn, x), core, Put32(p, rd, false), p, rd, rs,
                      Operand(insn, x, regs), v, regs, regs');
  }

  lemma Binary32(code: seq<Rv>, at: int, m: Mach, insn: Insn, op: AluOp, x: bool, v: U32, blk: seq<Rv>,
                 regs: BpfRegs, regs': BpfRegs) returns (m': Mach)
    requires Rel(regs, m) && insn.dst <= 10 && insn.src <= 10 && op != BNEG
    requires Op32(op, Lo(regs[insn.dst]), Operand(insn, x, regs)) == Some(v) && SameBut(regs, regs', insn.dst, v)
    requires Usable(At(Home(insn.dst), TMP1)) && Usable(At(SourcePair(insn, x), TMP2))
    requires var rd, rs := At(Home(insn.dst), TMP1), At(SourcePair(insn, x), TMP2);
      blk == Fetch32(insn, x) + [Core32(op, rd.lo, rs.lo)] + Put32(Home(insn.dst), rd, false)
    requires CodeAt(code, at, blk)
    ensures Arrives(code, at, m, at + |blk|, m', regs')
  {
    var rd, rs := At(Home(insn.dst), TMP1), At(SourcePair(insn, x), TMP2);
    Core32Gives(op, rd, rs, Lo(regs[insn.dst]), Operand(insn, x, regs), v);
    m' := Fetched32(code, at, m, insn, x, [Core32(op, rd.lo, rs.lo)], rd, rs, v, regs, regs');
  }

  lemma Alu32Runs(code: seq<Rv>, at: int, m: Mach, insn: Insn, regs: BpfRegs) returns (m': Mach)
    requires insn.code.Alu32? && Rel(regs, m) && insn.dst <= 10 && insn.src <= 10 && MovOk(insn)
    requires Op32(insn.code.op, Lo(regs[insn.dst]), Operand(insn, insn.code.x, regs)).Some?
    requires CodeAt(code, at, EmitAlu32(insn, insn.code.op, insn.code.x, false))
    ensures Arrives(code, at, m, at + |EmitAlu32(insn, insn.code.op, insn.code.x, false)|, m',
                    After32(insn, insn.code.op, insn.code.x, regs))
  {
    var op, x := insn.code.op, insn.code.x;
    if op == BNEG {
      m' := Neg32(code, at, m, insn, x, regs);
    } else if op == BMOV && !x {
      m' := MovImm32(code, at, m, insn, regs);
    } else if op == BMOV && insn.imm == 1 {
      m' := ZeroExtend(code, at, m, insn, regs);
    } else {
      var v, blk := Op32(op, Lo(regs[insn.dst]), Operand(insn, x, regs)).value, EmitAlu32(insn, op, x, false);
      After32Is(insn, op, x, regs);
      OperandsApart(insn, x);
      m' := Binary32(code, at, m, insn, op, x, v, blk, regs, After32(insn, op, x, regs));
    }
  }

  // ---------------------------------------------------------------- byte order, constants

  lemma EndIn(code: seq<Rv>, at: int, m: Mach, dst: BpfReg, imm: U32, be: bool, v: U64, p: Pair, rd: Pair,
              get: seq<Rv>, core: seq<Rv>, put: seq<Rv>, regs: BpfRegs, regs': BpfRegs) returns (m': Mach)
    requires Rel(regs, m) && dst <= 10 && p == Home(dst) && rd == At(p, TMP1) && rd.InRegs()
    requires get == Get64(p, TMP1) && CoreEnd(be, imm, rd) == Some(core) && put == Put64(p, rd)
    requires v == Swapped(be, imm, regs[dst]) && SameBut(regs, regs', dst, v) && CodeAt(code, at, get + core + put)
    ensures Arrives(code, at, m, at + |get + core + put|, m', regs')
  {
    var m1 := FetchDstAs(dst, p, rd, get, m, regs);
    CoreEndComputes(be, imm, m1.x, rd);
    m' := Block64(code, at, get, core, put, m, m1, dst, p, rd, v, regs, regs');
  }

  lemma EndRuns(code: seq<Rv>, at: int, m: Mach, insn: Insn, be: bool, regs: BpfRegs) returns (m': Mach)
    requires Rel(regs, m) && insn.dst <= 10
    requires var p := Home(insn.dst); At(p, TMP1).InRegs() && CoreEnd(be, insn.imm, At(p, TMP1)).Some?
    requires var p := Home(insn.dst);
      CodeAt(code, at, Get64(p, TMP1) + CoreEnd(be, insn.imm, At(p, TMP1)).value + Put64(p, At(p, TMP1)))
    ensures var p := Home(insn.dst);
      Arrives(code, at, m, at + |Get64(p, TMP1) + CoreEnd(be, insn.imm, At(p, TMP1)).value + Put64(p, At(p, TMP1))|, m',
              regs[insn.dst := Swapped(be, insn.imm, regs[insn.dst])])
  {
    var p, rd := Home(insn.dst), At(Home(insn.dst), TMP1);
    var v := Swapped(be, insn.imm, regs[insn.dst]);
    m' := EndIn(code, at, m, insn.dst, insn.imm, be, v, p, rd, Get64(p, TMP1), CoreEnd(be, insn.imm, rd).value,
                Put64(p, rd), regs, regs[insn.dst := v]);
  }

  lemma LdImmIn(code: seq<Rv>, at: int, m: Mach, dst: BpfReg, hi: U32, lo: U32, v: U64, p: Pair, rd: Pair,
                get: seq<Rv>, core: seq<Rv>, put: seq<Rv>, regs: BpfRegs, regs': BpfRegs) returns (m': Mach)
    requires Rel(regs, m) && dst <= 10 && p == Home(dst) && rd == At(p, TMP1) && rd.InRegs()
    requires get == Get64(p, TMP1) && core == EmitImm64(rd, hi, lo) && put == Put64(p, rd)
    requires v == Join(hi, lo) && SameBut(regs, regs', dst, v) && CodeAt(code, at, get + core + put)
    ensures Arrives(code, at, m, at + |get + core + put|, m', regs')
  {
    var m1 := FetchDstAs(dst, p, rd, get, m, regs);
    EmitImm64Computes(m1.x, rd, hi, lo);
    m' := Block64(code, at, get, core, put, m, m1, dst, p, rd, v, regs, regs');
  }

  lemma LdImmRuns(code: seq<Rv>, at: int, m: Mach, dst: BpfReg, hi: U32, lo: U32, regs: BpfRegs) returns (m': Mach)
    requires Rel(regs, m) && dst <= 10 && At(Home(dst), TMP1).InRegs()
    requires CodeAt(code, at,
      Get64(Home(dst), TMP1) + EmitImm64(At(Home(dst), TMP1), hi, lo) + Put64(Home(dst), At(Home(dst), TMP1)))
    ensures var blk := Get64(Home(dst), TMP1) + EmitImm64(At(Home(dst), TMP1), hi, lo)
      + Put64(Home(dst), At(Home(dst), TMP1));
      Arrives(code, at, m, at + |blk|, m', regs[dst := Join(hi, lo)])
  {
    var p, rd, v := Home(dst), At(Home(dst), TMP1), Join(hi, lo);
    m' := LdImmIn(code, at, m, dst, hi, lo, v, p, rd, Get64(p, TMP1), EmitImm64(rd, hi, lo), Put64(p, rd), regs,
                  regs[dst := v]);
  }

  // ---------------------------------------------------------------- jumps

  lemma LandsRel(code: seq<Rv>, at: int, m: Mach, x': RegFile, pc: int, regs: BpfRegs)
    requires Lands(code, at, m, x', pc) && Rel(regs, m)
    ensures Arrives(code, at, m, pc, Mach(x', m.mem), regs)
  {
    RelQuiet(regs, m, Mach(x', m.mem));
  }

  lemma AfterFetch(code: seq<Rv>, at: int, m: Mach, get: seq<Rv>, m1: Mach, x': RegFile, pc: int, regs: BpfRegs)
    requires Rel(regs, m) && CodeAt(code, at, get) && Exec(get, m) == Some(m1) && Quiet(m, m1)
    requires Lands(code, at + |get|, m1, x', pc)
    ensures Arrives(code, at, m, pc, Mach(x', m1.mem), regs)
  {
    RunBlock(code, at, get, m);
    RelQuiet(regs, m, m1);
    LandsRel(code, at + |get|, m1, x', pc, regs);
    ArrivesAfter(code, at, m, at + |get|, m1, pc, Mach(x', m1.mem), regs);
  }

  lemma FetchedJump64(code: seq<Rv>, at: int, m: Mach, m1: Mach, get: seq<Rv>, op: JmpOp, rd: Pair, rs: Pair, k: int,
                      pc: int, regs: BpfRegs) returns (m': Mach)
    requires Rel(regs, m) && Exec(get, m) == Some(m1) && Ready(m, m1, rd, rs) && Is13b(4 * k)
    requires InReach(op, m1.x[rd.hi], m1.x[rs.hi], k)
    requires CodeAt(code, at, get + CoreJump64(op, rd, rs, 4 * k))
    requires pc == at + |get + CoreJump64(op, rd, rs, 4 * k)|
      + if Jumps64(op, Val(m1.x, rd), Val(m1.x, rs)) then k - 1 else 0
    ensures Arrives(code, at, m, pc, m', regs)
  {
    CodeAtPart(code, at, get, CoreJump64(op, rd, rs, 4 * k));
    var x' := Jump64Runs(op, code, at + |get|, m1, rd, rs, k);
    m' := Mach(x', m1.mem);
    AfterFetch(code, at, m, get, m1, x', pc, regs);
  }

  lemma FetchedJump32(code: seq<Rv>, at: int, m: Mach, m1: Mach, get: seq<Rv>, op: JmpOp, rd: Pair, rs: Pair, k: int,
                      pc: int, regs: BpfRegs) returns (m': Mach)
    requires Rel(regs, m) && Exec(get, m) == Some(m1) && Ready(m, m1, rd, rs) && Is13b(4 * k)
    requires CodeAt(code, at, get + CoreJump32(op, rd.lo, rs.lo, 4 * k))
    requires pc == at + |get + CoreJump32(op, rd.lo, rs.lo, 4 * k)|
      + if Jumps32(op, m1.x[rd.lo], m1.x[rs.lo]) then k - 1 else 0
    ensures Arrives(code, at, m, pc, m', regs)
  {
    CodeAtPart(code, at, get, CoreJump32(op, rd.lo, rs.lo, 4 * k));
    var x' := Jump32Runs(op, code, at + |get|, m1, rd.lo, rs.lo, k);
    m' := Mach(x', m1.mem);
    AfterFetch(code, at, m, get, m1, x', pc, regs);
  }

  /** `k` counts instructions from the last one emitted for the jump. */
  lemma Jmp64Runs(code: seq<Rv>, at: int, m: Mach, insn: Insn, op: JmpOp, x: bool, k: int, blk: seq<Rv>, pc: int,
                  regs: BpfRegs) returns (m': Mach)
    requires Rel(regs, m) && insn.dst <= 10 && insn.src <= 10
    requires Is13b(4 * k) && InReach(op, Hi(regs[insn.dst]), Hi(Operand(insn, x, regs)), k)
    requires blk == EmitJump64(insn, op, x, 4 * k) && CodeAt(code, at, blk)
    requires pc == at + |blk| + if Jumps64(op, regs[insn.dst], Operand(insn, x, regs)) then k - 1 else 0
    ensures Arrives(code, at, m, pc, m', regs)
  {
    OperandsApart(insn, x);
    var rd, rs := At(Home(insn.dst), TMP1), At(SourcePair(insn, x), TMP2);
    var m1 := Fetch64Runs(insn, x, m, regs);
    m' := FetchedJump64(code, at, m, m1, Fetch64(insn, x), op, rd, rs, k, pc, regs);
  }

  lemma Jmp32Runs(code: seq<Rv>, at: int, m: Mach, insn: Insn, op: JmpOp, x: bool, k: int, blk: seq<Rv>, pc: int,
                  regs: BpfRegs) returns (m': Mach)
    requires Rel(regs, m) && insn.dst <= 10 && insn.src <= 10
    requires Is13b(4 * k)
    requires blk == EmitJump32(insn, op, x, 4 * k) && CodeAt(code, at, blk)
    requires pc == at + |blk| + if Jumps32(op, Lo(regs[insn.dst]), Lo(Operand(insn, x, regs))) then k - 1 else 0
    ensures Arrives(code, at, m, pc, m', regs)
  {
    OperandsApart(insn, x);
    var rd, rs := At(Home(insn.dst), TMP1), At(SourcePair(insn, x), TMP2);
    var m1 := Fetch32Runs(insn, x, m, regs);
    m' := FetchedJump32(code, at, m, m1, Fetch32(insn, x), op, rd, rs, k, pc, regs);
  }

  lemma JalArrives(code: seq<Rv>, at: int, m: Mach, k: int, regs: BpfRegs)
    requires Rel(regs, m) && Is21b(4 * k) && CodeAt(code, at, [Jal(ZERO, JalField(4 * k))])
    ensures Arrives(code, at, m, at + k, m, regs)
  {
    JalRuns(code, at, m, k);
  }
}
