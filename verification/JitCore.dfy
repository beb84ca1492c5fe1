/** The register sequences of emit_rv32_alu_r64, emit_rv32_alu_i64 and emit_rv32_alu_r32
    compute the BPF operation on a register pair and touch nothing but the pair, T0 and T1. */
module JitCore {
  import opened Words
  import opened Rv32
  import opened Rv32Machine
  import opened Bpf
  import opened JitEmit
  import opened JitArith

  /** A pair of registers an operand may live in: none of x0, T0, T1 and the frame pointer. */
  ghost predicate Usable(p: Pair) {
    && p.InRegs() && p.hi != p.lo
    && p.hi != T0 && p.hi != T1 && p.hi != FP
    && p.lo != T0 && p.lo != T1 && p.lo != FP
  }

  /** Two operands share both registers or none. */
  ghost predicate Apart(p: Pair, q: Pair) {
    p == q || (p.hi != q.hi && p.hi != q.lo && p.lo != q.hi && p.lo != q.lo)
  }

  ghost function Val(x: RegFile, p: Pair): U64
    requires p.InRegs()
  {
    Join(x[p.hi], x[p.lo])
  }

  /** Registers other than the pair and the scratch registers keep their values. */
  ghost predicate Only(x: RegFile, x': RegFile, p: Pair) {
    forall r: Reg :: r != p.hi && r != p.lo && r != T0 && r != T1 ==> x'[r] == x[r]
  }

  ghost predicate Computes(blk: seq<Rv>, x: RegFile, rd: Pair, v: U64)
    requires rd.InRegs()
  {
    && AllRegOnly(blk)
    && Val(RegExec(blk, x), rd) == v
    && Only(x, RegExec(blk, x), rd)
  }

  ghost predicate Leaves(x: RegFile, x': RegFile, rd: Pair, hi: U32, lo: U32)
    requires rd.InRegs()
  {
    x'[rd.hi] == hi && x'[rd.lo] == lo && Only(x, x', rd)
  }

  lemma MvIsCopy(rd: Reg, rs: Reg, x: RegFile)
    ensures RegOnly(Mv(rd, rs)) && RegStep(Mv(rd, rs), x) == SetReg(x, rd, x[rs])
  {
  }

  lemma CoreMov(x: RegFile, rd: Pair, rs: Pair)
    requires Usable(rd) && Usable(rs) && Apart(rd, rs)
    ensures Computes(Core64(BMOV, rd, rs), x, rd, Val(x, rs))
  {
    RegExec2(Mv(rd.hi, rs.hi), Mv(rd.lo, rs.lo), x);
  }

  /** The five instructions of addition and subtraction; `carry` compares old and new low
      halves into T0. */
  lemma CarryChain(op: ROp, x: RegFile, rd: Pair, rs: Pair, carry: Rv, hi: U32, lo: U32)
    requires Usable(rd) && Usable(rs) && Apart(rd, rs)
    requires lo == RegOp(op, x[rd.lo], x[rs.lo])
    requires carry == R(SLTU, T0, rd.lo, T0) || carry == R(SLTU, T0, T0, rd.lo)
    requires hi == RegOp(op, RegOp(op, x[rd.hi], x[rs.hi]),
                         if carry.rs1 == T0 then RegOp(SLTU, x[rd.lo], lo) else RegOp(SLTU, lo, x[rd.lo]))
    ensures var blk := [Mv(T0, rd.lo), R(op, rd.lo, rd.lo, rs.lo), carry, R(op, rd.hi, rd.hi, rs.hi),
      R(op, rd.hi, rd.hi, T0)];
      AllRegOnly(blk) && Leaves(x, RegExec(blk, x), rd, hi, lo)
  {
    MvIsCopy(T0, rd.lo, x);
    RegExec5(Mv(T0, rd.lo), R(op, rd.lo, rd.lo, rs.lo), carry, R(op, rd.hi, rd.hi, rs.hi), R(op, rd.hi, rd.hi, T0), x);
  }

  lemma CoreAdd(x: RegFile, rd: Pair, rs: Pair)
    requires Usable(rd) && Usable(rs) && Apart(rd, rs)
    ensures Computes(Core64(BADD, rd, rs), x, rd, Op64(BADD, Val(x, rd), Val(x, rs)).value)
  {
    var lo := RegOp(ADD, x[rd.lo], x[rs.lo]);
    var hi := RegOp(ADD, RegOp(ADD, x[rd.hi], x[rs.hi]), RegOp(SLTU, lo, x[rd.lo]));
    CarryChain(ADD, x, rd, rs, R(SLTU, T0, rd.lo, T0), hi, lo);
    AddHalves(x[rd.hi], x[rd.lo], x[rs.hi], x[rs.lo]);
  }

  lemma CoreSub(x: RegFile, rd: Pair, rs: Pair)
    requires Usable(rd) && Usable(rs) && Apart(rd, rs)
    ensures Computes(Core64(BSUB, rd, rs), x, rd, Op64(BSUB, Val(x, rd), Val(x, rs)).value)
  {
    var lo := RegOp(SUB, x[rd.lo], x[rs.lo]);
    var hi := RegOp(SUB, RegOp(SUB, x[rd.hi], x[rs.hi]), RegOp(SLTU, x[rd.lo], lo));
    CarryChain(SUB, x, rd, rs, R(SLTU, T0, T0, rd.lo), hi, lo);
    SubHalves(x[rd.hi], x[rd.lo], x[rs.hi], x[rs.lo]);
  }

  lemma CoreMul(x: RegFile, rd: Pair, rs: Pair)
    requires Usable(rd) && Usable(rs) && Apart(rd, rs)
    ensures Computes(Core64(BMUL, rd, rs), x, rd, Op64(BMUL, Val(x, rd), Val(x, rs)).value)
  {
    var h, l, h2, l2 := x[rd.hi], x[rd.lo], x[rs.hi], x[rs.lo];
    var lo := RegOp(MUL, l, l2);
    var hi := RegOp(ADD, RegOp(ADD, RegOp(MUL, h, l2), RegOp(MUL, h2, l)), RegOp(MULHU, l, l2));
    assert AllRegOnly(Core64(BMUL, rd, rs)) && Leaves(x, RegExec(Core64(BMUL, rd, rs), x), rd, hi, lo) by {
      RegExec6(R(MUL, T0, rs.hi, rd.lo), R(MUL, rd.hi, rd.hi, rs.lo), R(MULHU, T1, rd.lo, rs.lo),
               R(ADD, rd.hi, rd.hi, T0), R(MUL, rd.lo, rd.lo, rs.lo), R(ADD, rd.hi, rd.hi, T1), x);
    }
    MulHalves(h, l, h2, l2);
  }

  lemma CoreBits(x: RegFile, rd: Pair, rs: Pair)
    requires Usable(rd) && Usable(rs) && Apart(rd, rs)
    ensures Computes(Core64(BAND, rd, rs), x, rd, Op64(BAND, Val(x, rd), Val(x, rs)).value)
    ensures Computes(Core64(BOR, rd, rs), x, rd, Op64(BOR, Val(x, rd), Val(x, rs)).value)
    ensures Computes(Core64(BXOR, rd, rs), x, rd, Op64(BXOR, Val(x, rd), Val(x, rs)).value)
  {
    RegExec2(R(AND, rd.hi, rd.hi, rs.hi), R(AND, rd.lo, rd.lo, rs.lo), x);
    RegExec2(R(OR, rd.hi, rd.hi, rs.hi), R(OR, rd.lo, rd.lo, rs.lo), x);
    RegExec2(R(XOR, rd.hi, rd.hi, rs.hi), R(XOR, rd.lo, rd.lo, rs.lo), x);
    JoinBits(And, x[rd.hi], x[rd.lo], x[rs.hi], x[rs.lo]);
    JoinBits(Or, x[rd.hi], x[rd.lo], x[rs.hi], x[rs.lo]);
    JoinBits(Xor, x[rd.hi], x[rd.lo], x[rs.hi], x[rs.lo]);
  }

  lemma CoreNeg(x: RegFile, rd: Pair, rs: Pair, b: U64)
    requires Usable(rd) && rs.InRegs()
    ensures Computes(Core64(BNEG, rd, rs), x, rd, Op64(BNEG, Val(x, rd), b).value)
  {
    RegExec4(R(SUB, rd.lo, ZERO, rd.lo), R(SLTU, T0, ZERO, rd.lo),
             R(SUB, rd.hi, ZERO, rd.hi), R(SUB, rd.hi, rd.hi, T0), x);
    NegHalves(x[rd.hi], x[rd.lo]);
  }

  // ---------------------------------------------------------------- constants

  /** Block `blk` sets register rd to v and changes no other. */
  ghost predicate Sets(blk: seq<Rv>, x: RegFile, rd: Reg, v: U32) {
    AllRegOnly(blk) && RegExec(blk, x) == SetReg(x, rd, v)
  }

  lemma ImmParts(imm: U32)
    ensures var upper, lower := Mod32(imm as int + 0x800) / 0x1000, imm % 0x1000;
      && Mod32(upper * 0x1000 + SImm(lower)) == imm
      && (upper == 0 ==> Mod32(SImm(lower)) == imm)
  {
    var q, lower := imm / 0x1000, imm % 0x1000;
    assert imm == q * 0x1000 + lower;
    if lower < 0x800 {
      assert Mod32(imm as int + 0x800) / 0x1000 == q;
    } else if imm as int + 0x800 < 0x1_0000_0000 {
      assert Mod32(imm as int + 0x800) / 0x1000 == q + 1;
    } else {
      assert q == 0xf_ffff;
      assert Mod32(imm as int + 0x800) / 0x1000 == 0;
    }
  }

  lemma EmitImmSets(x: RegFile, rd: Reg, imm: U32)
    requires rd != 0
    ensures Sets(EmitImm(rd, imm), x, rd, imm)
  {
    var upper, lower := Mod32(imm as int + 0x800) / 0x1000, imm % 0x1000;
    ImmParts(imm);
    if upper != 0 {
      RegExec2(Lui(rd, upper), I(ADDI, rd, rd, lower), x);
      assert x[rd := upper * 0x1000][rd := imm] == x[rd := imm];
    } else {
      RegExec1(I(ADDI, rd, ZERO, lower), x);
    }
  }

  lemma SignExtendHalves(imm: U32)
    ensures SignExtend(imm) == Join(ImmOp(SRAI, imm, 31), imm)
  {
    assert Pow2(31) == 0x8000_0000 by {
      Pow2Values();
      assert Pow2(32) == 2 * Pow2(31);
    }
    var v := Signed32(imm);
    SignCopies(v, 31);
    SignFill(v);
    assert Mod32(v) == imm;
  }

  lemma EmitImm32Computes(x: RegFile, rd: Pair, imm: U32)
    requires Usable(rd)
    ensures Computes(EmitImm32(rd, imm), x, rd, SignExtend(imm))
  {
    EmitImmSets(x, rd.lo, imm);
    var x1 := RegExec(EmitImm(rd.lo, imm), x);
    RegExec2(Mv(rd.hi, rd.lo), I(SRAI, rd.hi, rd.hi, 31), x1);
    MvIsCopy(rd.hi, rd.lo, x1);
    RegExecConcat(EmitImm(rd.lo, imm), [Mv(rd.hi, rd.lo), I(SRAI, rd.hi, rd.hi, 31)], x);
    SignExtendHalves(imm);
  }

  lemma EmitImm64Computes(x: RegFile, rd: Pair, hi: U32, lo: U32)
    requires Usable(rd)
    ensures Computes(EmitImm64(rd, hi, lo), x, rd, Join(hi, lo))
  {
    EmitImmSets(x, rd.lo, lo);
    EmitImmSets(RegExec(EmitImm(rd.lo, lo), x), rd.hi, hi);
    RegExecConcat(EmitImm(rd.lo, lo), EmitImm(rd.hi, hi), x);
  }

  // ---------------------------------------------------------------- shifts by a constant

  lemma ShiftAmount(imm: U32)
    requires SignExtend(imm) < 64
    ensures 0 <= Signed32(imm) < 64 && SignExtend(imm) == Signed32(imm)
  {
  }

  lemma SmallImm(n: nat)
    requires n < 32
    ensures Imm(n) == n && n % 32 == n
  {
  }

  lemma ImmLshNear(x: RegFile, rd: Pair, n: nat)
    requires Usable(rd) && 0 < n < 32
    ensures var blk := [I(SRLI, T0, rd.lo, Imm(32 - n)), I(SLLI, rd.hi, rd.hi, Imm(n)),
                        R(OR, rd.hi, T0, rd.hi), I(SLLI, rd.lo, rd.lo, Imm(n))];
      Computes(blk, x, rd, Mod64(Shl(Val(x, rd), n)))
  {
    var h, l := x[rd.hi], x[rd.lo];
    SmallImm(n);
    SmallImm(32 - n);
    RegExec4(I(SRLI, T0, rd.lo, 32 - n), I(SLLI, rd.hi, rd.hi, n), R(OR, rd.hi, T0, rd.hi), I(SLLI, rd.lo, rd.lo, n),
      x);
    LshNearHalves(h, l, n);
  }

  lemma ImmRshNear(x: RegFile, rd: Pair, n: nat)
    requires Usable(rd) && 0 < n < 32
    ensures var blk := [I(SLLI, T0, rd.hi, Imm(32 - n)), I(SRLI, rd.lo, rd.lo, Imm(n)),
                        R(OR, rd.lo, T0, rd.lo), I(SRLI, rd.hi, rd.hi, Imm(n))];
      Computes(blk, x, rd, Shr(Val(x, rd), n))
  {
    var h, l := x[rd.hi], x[rd.lo];
    SmallImm(n);
    SmallImm(32 - n);
    RegExec4(I(SLLI, T0, rd.hi, 32 - n), I(SRLI, rd.lo, rd.lo, n), R(OR, rd.lo, T0, rd.lo), I(SRLI, rd.hi, rd.hi, n),
      x);
    Moved(h, n);
    RshNearHalves(h, l, Mod32(Shl(h, 32 - n)), n);
  }

  lemma ImmArshNear(x: RegFile, rd: Pair, n: nat)
    requires Usable(rd) && 0 < n < 32
    ensures var blk := [I(SLLI, T0, rd.hi, Imm(32 - n)), I(SRLI, rd.lo, rd.lo, Imm(n)),
                        R(OR, rd.lo, T0, rd.lo), I(SRAI, rd.hi, rd.hi, Imm(n))];
      Computes(blk, x, rd, Mod64(Shr(Signed64(Val(x, rd)), n)))
  {
    var h, l := x[rd.hi], x[rd.lo];
    SmallImm(n);
    SmallImm(32 - n);
    RegExec4(I(SLLI, T0, rd.hi, 32 - n), I(SRLI, rd.lo, rd.lo, n), R(OR, rd.lo, T0, rd.lo), I(SRAI, rd.hi, rd.hi, n),
      x);
    Moved(h, n);
    ArshNearHalves(h, l, Mod32(Shl(h, 32 - n)), n);
  }

  lemma ImmShiftFar(x: RegFile, rd: Pair, s: nat)
    requires Usable(rd) && s < 32
    ensures Computes([I(SLLI, rd.hi, rd.lo, Imm(s)), Mv(rd.lo, ZERO)], x, rd, Mod64(Shl(Val(x, rd), s + 32)))
    ensures Computes([I(SRLI, rd.lo, rd.hi, Imm(s)), Mv(rd.hi, ZERO)], x, rd, Shr(Val(x, rd), 32 + s))
  {
    var h, l := x[rd.hi], x[rd.lo];
    SmallImm(s);
    RegExec2(I(SLLI, rd.hi, rd.lo, s), Mv(rd.lo, ZERO), x);
    LshFarHalves(h, l, s);
    RegExec2(I(SRLI, rd.lo, rd.hi, s), Mv(rd.hi, ZERO), x);
    RshFarHalves(h, l, s);
  }

  lemma ImmArshFar(x: RegFile, rd: Pair, s: nat)
    requires Usable(rd) && s < 32
    ensures Computes([I(SRAI, rd.lo, rd.hi, Imm(s)), I(SRAI, rd.hi, rd.hi, 31)], x, rd,
      Mod64(Shr(Signed64(Val(x, rd)), 32 + s)))
  {
    var h, l := x[rd.hi], x[rd.lo];
    SmallImm(s);
    RegExec2(I(SRAI, rd.lo, rd.hi, s), I(SRAI, rd.hi, rd.hi, 31), x);
    ArshFarHalves(h, l, s);
  }

  lemma ShiftByZero(v: U64)
    ensures Mod64(Shl(v, 0)) == v && Shr(v, 0) == v && Mod64(Shr(Signed64(v), 0)) == v
  {
  }

  lemma CoreImmShift(op: AluOp, x: RegFile, rd: Pair, imm: U32)
    requires Usable(rd) && SignExtend(imm) < 64 && (op == BLSH || op == BRSH || op == BARSH)
    ensures Computes(CoreImm64(op, rd, imm), x, rd, Op64(op, Val(x, rd), SignExtend(imm)).value)
  {
    var n := Signed32(imm);
    ShiftAmount(imm);
    if n >= 32 {
      ImmShiftFar(x, rd, n - 32);
      ImmArshFar(x, rd, n - 32);
    } else if n == 0 {
      ShiftByZero(Val(x, rd));
    } else {
      ImmLshNear(x, rd, n);
      ImmRshNear(x, rd, n);
      ImmArshNear(x, rd, n);
    }
  }

  // ---------------------------------------------------------------- 32-bit operations

  /** With its operands in registers, the one instruction computes what the interpreter does. */
  lemma Value32(op: AluOp, a: U32, b: U64)
    requires Op32(op, a, b).Some?
    ensures var v := Op32(op, a, b).value;
      match op
      case BMOV => v == Lo(b)
      case BADD => v == RegOp(ADD, a, Lo(b))
      case BSUB => v == RegOp(SUB, a, Lo(b))
      case BMUL => v == RegOp(MUL, a, Lo(b))
      case BDIV => v == RegOp(DIVU, a, Lo(b))
      case BMOD => v == RegOp(REMU, a, Lo(b))
      case BOR => v == RegOp(OR, a, Lo(b))
      case BAND => v == RegOp(AND, a, Lo(b))
      case BXOR => v == RegOp(XOR, a, Lo(b))
      case BLSH => v == RegOp(SLL, a, Lo(b))
      case BRSH => v == RegOp(SRL, a, Lo(b))
      case BARSH => v == RegOp(SRA, a, Lo(b))
      case BNEG => v == RegOp(SUB, 0, a)
  {
    match op
    case BLSH => SmallImm(Lo(b));
    case BRSH => SmallImm(Lo(b));
    case BARSH =>
      assert Lo(b) == b;
      SmallImm(b);
    case _ =>
  }

  lemma Core32Computes(op: AluOp, x: RegFile, rd: Reg, rs: Reg, b: U64)
    requires rd != 0 && (op != BNEG ==> Lo(b) == x[rs]) && Op32(op, x[rd], b).Some?
    ensures Sets([Core32(op, rd, rs)], x, rd, Op32(op, x[rd], b).value)
  {
    Value32(op, x[rd], b);
    RegExec1(Core32(op, rd, rs), x);
    if op == BMOV {
      MvIsCopy(rd, rs, x);
    }
  }
}
