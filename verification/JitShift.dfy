/** 64-bit shifts by a register: the only arithmetic that branches.  The sequences are right
    also when source and destination are the same register, because a value that is a legal
    shift amount for itself has an empty high half. */
module JitShift {
  import opened Words
  import opened Rv32
  import opened Rv32Machine
  import opened Bpf
  import opened JitEmit
  import opened JitArith
  import opened JitCore

  ghost predicate Amount(x: RegFile, rd: Pair, rs: Pair, n: nat) {
    && Usable(rd) && Usable(rs) && Apart(rd, rs)
    && x[rs.lo] == n && x[rs.hi] == 0
  }

  lemma ShrTwice(l: U32, n: nat)
    requires n < 32
    ensures RegOp(SRL, ImmOp(SRLI, l, 1), 31 - n) == Shr(l, 32 - n)
  {
    SmallImm(31 - n);
    ShrAdd(l, 1, 31 - n);
  }

  lemma MovedTwice(h: U32, n: nat)
    requires n < 32
    ensures RegOp(SLL, ImmOp(SLLI, h, 1), 31 - n) == Shl(Low(h, n), 32 - n)
  {
    SmallImm(31 - n);
    Moved(h, n);
  }

  lemma Distance(n: nat)
    requires n < 32
    ensures ImmOp(ADDI, 0, 31) == 31 && RegOp(SUB, 31, n) == 31 - n
  {
  }

  /** T0 after the first four instructions of a near part: the bits that cross over. */
  lemma Crossing(x: RegFile, pre: Rv, shift: ROp, rs: Pair, n: nat)
    requires n < 32 && rs.InRegs() && rs.lo != T0 && rs.lo != T1 && x[rs.lo] == n
    requires pre.I? && RegOnly(pre) && pre.rd == T0 && pre.rs1 != T1
    ensures var blk := [I(ADDI, T1, ZERO, 31), pre, R(SUB, T1, T1, rs.lo), R(shift, T0, T0, T1)];
      && AllRegOnly(blk)
      && RegExec(blk, x) == x[T0 := RegOp(shift, ImmOp(pre.iop, x[pre.rs1], pre.imm), 31 - n)][T1 := 31 - n]
  {
    Distance(n);
    RegExec4(I(ADDI, T1, ZERO, 31), pre, R(SUB, T1, T1, rs.lo), R(shift, T0, T0, T1), x);
  }

  lemma ZeroShifts(k: U32)
    ensures RegOp(SRL, 0, k) == 0 && RegOp(SRA, 0, k) == 0
  {
  }

  /** The last three instructions of a near right shift.  If rd and rs are one pair the shift
      of the high half sees a changed amount, but then the high half is zero. */
  lemma DownTail(op: ROp, x: RegFile, rd: Pair, rs: Pair, n: nat)
    requires (op == SRL || op == SRA) && n < 32 && Amount(x, rd, rs, n)
    ensures var tail := [R(SRL, rd.lo, rd.lo, rs.lo), R(OR, rd.lo, T0, rd.lo), R(op, rd.hi, rd.hi, rs.lo)];
      && AllRegOnly(tail)
      && Leaves(x, RegExec(tail, x), rd, RegOp(op, x[rd.hi], n), RegOp(OR, x[T0], RegOp(SRL, x[rd.lo], n)))
  {
    var lo := RegOp(OR, x[T0], RegOp(SRL, x[rd.lo], n));
    ZeroShifts(n);
    ZeroShifts(lo);
    RegExec3(R(SRL, rd.lo, rd.lo, rs.lo), R(OR, rd.lo, T0, rd.lo), R(op, rd.hi, rd.hi, rs.lo), x);
  }

  lemma UpTail(x: RegFile, rd: Pair, rs: Pair, n: nat)
    requires n < 32 && Amount(x, rd, rs, n)
    ensures var tail := [R(SLL, rd.hi, rd.hi, rs.lo), R(OR, rd.hi, T0, rd.hi), R(SLL, rd.lo, rd.lo, rs.lo)];
      && AllRegOnly(tail)
      && Leaves(x, RegExec(tail, x), rd, RegOp(OR, x[T0], RegOp(SLL, x[rd.hi], n)), RegOp(SLL, x[rd.lo], n))
  {
    RegExec3(R(SLL, rd.hi, rd.hi, rs.lo), R(OR, rd.hi, T0, rd.hi), R(SLL, rd.lo, rd.lo, rs.lo), x);
  }

  lemma LshNearValue(h: U32, l: U32, t: U32, n: nat)
    requires n < 32 && t == Shr(l, 32 - n)
    ensures Join(RegOp(OR, t, RegOp(SLL, h, n)), RegOp(SLL, l, n)) == Mod64(Shl(Join(h, l), n))
  {
    SmallImm(n);
    LshNearHalves(h, l, n);
  }

  lemma LshNearComputes(x: RegFile, rd: Pair, rs: Pair, n: nat)
    requires n < 32 && Amount(x, rd, rs, n)
    ensures Computes(LshNear(rd, rs), x, rd, Mod64(Shl(Val(x, rd), n)))
  {
    var h, l := x[rd.hi], x[rd.lo];
    var head := [I(ADDI, T1, ZERO, 31), I(SRLI, T0, rd.lo, 1), R(SUB, T1, T1, rs.lo), R(SRL, T0, T0, T1)];
    var tail := [R(SLL, rd.hi, rd.hi, rs.lo), R(OR, rd.hi, T0, rd.hi), R(SLL, rd.lo, rd.lo, rs.lo)];
    Crossing(x, I(SRLI, T0, rd.lo, 1), SRL, rs, n);
    ShrTwice(l, n);
    var x1 := RegExec(head, x);
    UpTail(x1, rd, rs, n);
    RegExecConcat(head, tail, x);
    assert LshNear(rd, rs) == head + tail;
    LshNearValue(h, l, x1[T0], n);
  }

  lemma RshNearValue(h: U32, l: U32, t: U32, n: nat)
    requires n < 32 && t == Shl(Low(h, n), 32 - n)
    ensures Join(RegOp(SRL, h, n), RegOp(OR, t, RegOp(SRL, l, n))) == Shr(Join(h, l), n)
  {
    SmallImm(n);
    RshNearHalves(h, l, t, n);
  }

  lemma RshNearComputes(x: RegFile, rd: Pair, rs: Pair, n: nat)
    requires n < 32 && Amount(x, rd, rs, n)
    ensures Computes(RshNear(rd, rs), x, rd, Shr(Val(x, rd), n))
  {
    var h, l := x[rd.hi], x[rd.lo];
    var head := [I(ADDI, T1, ZERO, 31), I(SLLI, T0, rd.hi, 1), R(SUB, T1, T1, rs.lo), R(SLL, T0, T0, T1)];
    var tail := [R(SRL, rd.lo, rd.lo, rs.lo), R(OR, rd.lo, T0, rd.lo), R(SRL, rd.hi, rd.hi, rs.lo)];
    Crossing(x, I(SLLI, T0, rd.hi, 1), SLL, rs, n);
    MovedTwice(h, n);
    var x1 := RegExec(head, x);
    DownTail(SRL, x1, rd, rs, n);
    RegExecConcat(head, tail, x);
    assert RshNear(rd, rs) == head + tail;
    RshNearValue(h, l, x1[T0], n);
  }

  lemma ArshNearValue(h: U32, l: U32, t: U32, n: nat)
    requires n < 32 && t == Shl(Low(h, n), 32 - n)
    ensures Join(RegOp(SRA, h, n), RegOp(OR, t, RegOp(SRL, l, n))) == Mod64(Shr(Signed64(Join(h, l)), n))
  {
    SmallImm(n);
    ArshNearHalves(h, l, t, n);
  }

  lemma ArshNearComputes(x: RegFile, rd: Pair, rs: Pair, n: nat)
    requires n < 32 && Amount(x, rd, rs, n)
    ensures Computes(ArshNear(rd, rs), x, rd, Mod64(Shr(Signed64(Val(x, rd)), n)))
  {
    var h, l := x[rd.hi], x[rd.lo];
    var head := [I(ADDI, T1, ZERO, 31), I(SLLI, T0, rd.hi, 1), R(SUB, T1, T1, rs.lo), R(SLL, T0, T0, T1)];
    var tail := [R(SRL, rd.lo, rd.lo, rs.lo), R(OR, rd.lo, T0, rd.lo), R(SRA, rd.hi, rd.hi, rs.lo)];
    Crossing(x, I(SLLI, T0, rd.hi, 1), SLL, rs, n);
    MovedTwice(h, n);
    var x1 := RegExec(head, x);
    DownTail(SRA, x1, rd, rs, n);
    RegExecConcat(head, tail, x);
    assert ArshNear(rd, rs) == head + tail;
    ArshNearValue(h, l, x1[T0], n);
  }

  // The far parts run with T0 = n - 32.

  lemma LshFarComputes(x: RegFile, rd: Pair, s: nat)
    requires Usable(rd) && s < 32 && x[T0] == s
    ensures Computes(LshFar(rd), x, rd, Mod64(Shl(Val(x, rd), s + 32)))
  {
    SmallImm(s);
    RegExec2(R(SLL, rd.hi, rd.lo, T0), Mv(rd.lo, ZERO), x);
    LshFarHalves(x[rd.hi], x[rd.lo], s);
  }

  lemma RshFarComputes(x: RegFile, rd: Pair, s: nat)
    requires Usable(rd) && s < 32 && x[T0] == s
    ensures Computes(RshFar(rd), x, rd, Shr(Val(x, rd), 32 + s))
  {
    RegExec2(R(SRL, rd.lo, rd.hi, T0), Mv(rd.hi, ZERO), x);
    RshFarValue(x[rd.hi], x[rd.lo], s);
  }

  lemma RshFarValue(h: U32, l: U32, s: nat)
    requires s < 32
    ensures Join(0, RegOp(SRL, h, s)) == Shr(Join(h, l), 32 + s)
  {
    SmallImm(s);
    RshFarHalves(h, l, s);
  }

  lemma ArshFarComputes(x: RegFile, rd: Pair, s: nat)
    requires Usable(rd) && s < 32 && x[T0] == s
    ensures Computes(ArshFar(rd), x, rd, Mod64(Shr(Signed64(Val(x, rd)), 32 + s)))
  {
    SmallImm(s);
    RegExec2(R(SRA, rd.lo, rd.hi, T0), I(SRAI, rd.hi, rd.hi, 31), x);
    ArshFarHalves(x[rd.hi], x[rd.lo], s);
  }

  predicate IsShift(op: AluOp) {
    op == BLSH || op == BRSH || op == BARSH
  }

  function Far(op: AluOp, rd: Pair): seq<Rv>
    requires IsShift(op) && rd.InRegs()
  {
    if op == BLSH then LshFar(rd) else if op == BRSH then RshFar(rd) else ArshFar(rd)
  }

  function Near(op: AluOp, rd: Pair, rs: Pair): seq<Rv>
    requires IsShift(op) && rd.InRegs() && rs.InRegs()
  {
    if op == BLSH then LshNear(rd, rs) else if op == BRSH then RshNear(rd, rs) else ArshNear(rd, rs)
  }

  lemma FarComputes(op: AluOp, x: RegFile, rd: Pair, n: nat)
    requires IsShift(op) && Usable(rd) && 32 <= n < 64 && x[T0] == n - 32
    ensures Computes(Far(op, rd), x, rd, Op64(op, Val(x, rd), n).value)
  {
    match op
    case BLSH => LshFarComputes(x, rd, n - 32);
    case BRSH => RshFarComputes(x, rd, n - 32);
    case BARSH => ArshFarComputes(x, rd, n - 32);
  }

  lemma NearComputes(op: AluOp, x: RegFile, rd: Pair, rs: Pair, n: nat)
    requires IsShift(op) && n < 32 && Amount(x, rd, rs, n)
    ensures Computes(Near(op, rd, rs), x, rd, Op64(op, Val(x, rd), n).value)
  {
    match op
    case BLSH => LshNearComputes(x, rd, rs, n);
    case BRSH => RshNearComputes(x, rd, rs, n);
    case BARSH => ArshNearComputes(x, rd, rs, n);
  }

  // ---------------------------------------------------------------- the branch

  lemma AmountMinus32(n: nat)
    requires n < 64
    ensures var t := ImmOp(ADDI, n, Imm(-32)); (Signed32(t) < 0 <==> n < 32) && (n >= 32 ==> t == n - 32)
  {
    assert Imm(-32) == 0xfe0;
  }

  lemma ShiftPieces(op: AluOp, code: seq<Rv>, at: int, rd: Pair, rs: Pair)
    requires IsShift(op) && rd.InRegs() && rs.InRegs() && CodeAt(code, at, Core64(op, rd, rs))
    ensures CodeAt(code, at, ShiftHead(rs)) && CodeAt(code, at + 2, Far(op, rd))
    ensures CodeAt(code, at + 4, [Jal(ZERO, 16)]) && CodeAt(code, at + 5, Near(op, rd, rs))
  {
    var head, far, jump, near := ShiftHead(rs), Far(op, rd), [Jal(ZERO, 16)], Near(op, rd, rs);
    assert Core64(op, rd, rs) == head + far + jump + near;
    CodeAtPart(code, at, head + far + jump, near);
    CodeAtPart(code, at, head + far, jump);
    CodeAtPart(code, at, head, far);
  }

  lemma HeadRuns(code: seq<Rv>, at: int, m: Mach, rs: Pair, n: nat)
    requires rs.InRegs() && CodeAt(code, at, ShiftHead(rs)) && n < 64 && m.x[rs.lo] == n
    ensures var m1 := Mach(SetReg(m.x, T0, ImmOp(ADDI, n, Imm(-32))), m.mem);
      Runs(code, Config(at, m), Config(if n < 32 then at + 5 else at + 2, m1))
  {
    var head := ShiftHead(rs);
    var m1 := Mach(SetReg(m.x, T0, ImmOp(ADDI, n, Imm(-32))), m.mem);
    AmountMinus32(n);
    StepAt(code, at, head, Config(at, m));
    StepAt(code, at, head, Config(at + 1, m1));
    RunsTrans(code, Config(at, m), Config(at + 1, m1), Config(if n < 32 then at + 5 else at + 2, m1));
  }

  lemma RegBlockRuns(code: seq<Rv>, at: int, blk: seq<Rv>, m: Mach)
    requires CodeAt(code, at, blk) && AllRegOnly(blk)
    ensures Runs(code, Config(at, m), Config(at + |blk|, Mach(RegExec(blk, m.x), m.mem)))
  {
    ExecRegOnly(blk, m);
    RunBlock(code, at, blk, m);
  }

  lemma NearRuns(op: AluOp, code: seq<Rv>, at: int, m: Mach, rd: Pair, rs: Pair)
    requires IsShift(op) && rd.InRegs() && rs.InRegs() && AllRegOnly(Near(op, rd, rs))
    requires CodeAt(code, at, Core64(op, rd, rs))
    ensures Runs(code, Config(at + 5, m), Config(at + 12, Mach(RegExec(Near(op, rd, rs), m.x), m.mem)))
  {
    ShiftPieces(op, code, at, rd, rs);
    RegBlockRuns(code, at + 5, Near(op, rd, rs), m);
  }

  lemma FarRuns(op: AluOp, code: seq<Rv>, at: int, m: Mach, rd: Pair, rs: Pair)
    requires IsShift(op) && rd.InRegs() && rs.InRegs() && AllRegOnly(Far(op, rd))
    requires CodeAt(code, at, Core64(op, rd, rs))
    ensures Runs(code, Config(at + 2, m), Config(at + 12, Mach(RegExec(Far(op, rd), m.x), m.mem)))
  {
    var m2 := Mach(RegExec(Far(op, rd), m.x), m.mem);
    ShiftPieces(op, code, at, rd, rs);
    RegBlockRuns(code, at + 2, Far(op, rd), m);
    StepAt(code, at + 4, [Jal(ZERO, 16)], Config(at + 4, m2));
    RunsTrans(code, Config(at + 2, m), Config(at + 4, m2), Config(at + 12, m2));
  }

  /** The whole sequence, from its first instruction to the one after its last. */
  lemma ShiftRuns(op: AluOp, code: seq<Rv>, at: int, m: Mach, rd: Pair, rs: Pair) returns (x': RegFile)
    requires IsShift(op) && Usable(rd) && Usable(rs) && Apart(rd, rs)
    requires CodeAt(code, at, Core64(op, rd, rs)) && Val(m.x, rs) < 64
    ensures Runs(code, Config(at, m), Config(at + 12, Mach(x', m.mem)))
    ensures Val(x', rd) == Op64(op, Val(m.x, rd), Val(m.x, rs)).value && Only(m.x, x', rd)
  {
    var n := Val(m.x, rs);
    assert n == m.x[rs.lo] && m.x[rs.hi] == 0;
    ShiftHeadRuns(op, code, at, m, rd, rs, n);
    AmountMinus32(n);
    var m1 := Mach(SetReg(m.x, T0, ImmOp(ADDI, n, Imm(-32))), m.mem);
    if n < 32 {
      NearComputes(op, m1.x, rd, rs, n);
      x' := RegExec(Near(op, rd, rs), m1.x);
      NearRuns(op, code, at, m1, rd, rs);
      RunsTrans(code, Config(at, m), Config(at + 5, m1), Config(at + 12, Mach(x', m.mem)));
    } else {
      FarComputes(op, m1.x, rd, n);
      x' := RegExec(Far(op, rd), m1.x);
      FarRuns(op, code, at, m1, rd, rs);
      RunsTrans(code, Config(at, m), Config(at + 2, m1), Config(at + 12, Mach(x', m.mem)));
    }
  }

  lemma ShiftHeadRuns(op: AluOp, code: seq<Rv>, at: int, m: Mach, rd: Pair, rs: Pair, n: nat)
    requires IsShift(op) && rd.InRegs() && rs.InRegs() && CodeAt(code, at, Core64(op, rd, rs)) && n < 64
    requires m.x[rs.lo] == n
    ensures var m1 := Mach(SetReg(m.x, T0, ImmOp(ADDI, n, Imm(-32))), m.mem);
      Runs(code, Config(at, m), Config(if n < 32 then at + 5 else at + 2, m1))
  {
    ShiftPieces(op, code, at, rd, rs);
    HeadRuns(code, at, m, rs, n);
  }
}
