/** What bpf_jit_comp32.c emits for each BPF instruction, as a function of the instruction and
    of the offsets the first pass left behind. */
module JitEmit {
  import opened Words
  import opened Reach
  import opened Rv32
  import opened Bpf

  const ZERO: Reg := 0
  const T0: Reg := 5
  const T1: Reg := 6
  const FP: Reg := 8

  /** A 64-bit value held in two places; a place is a register number, or, when negative, the
      offset of a stack slot from the frame pointer. */
  datatype Pair = Pair(hi: int, lo: int) {
    predicate InRegs() {
      1 <= hi < 32 && 1 <= lo < 32
    }

    predicate Stacked() {
      -48 <= hi < 0 && -48 <= lo < 0
    }
  }

  const TMP1 := Pair(28, 7)
  const TMP2 := Pair(30, 29)

  /** bpf2rv32. */
  function Home(r: BpfReg): (p: Pair)
    ensures p.InRegs() || p.Stacked()
  {
    match r
    case 0 => Pair(18, 9)
    case 1 => Pair(11, 10)
    case 2 => Pair(13, 12)
    case 3 => Pair(15, 14)
    case 4 => Pair(17, 16)
    case 5 => Pair(20, 19)
    case 6 => Pair(-4, -8)
    case 7 => Pair(-12, -16)
    case 8 => Pair(-20, -24)
    case 9 => Pair(-28, -32)
    case 10 => Pair(22, 21)
    case _ => Pair(-44, -48)
  }

  function Imm(v: int): Imm12 {
    v % 0x1000
  }

  function Mv(rd: Reg, rs: Reg): Rv {
    I(ADDI, rd, rs, 0)
  }

  // ---------------------------------------------------------------- constants

  /** emit_imm. */
  function EmitImm(rd: Reg, imm: U32): seq<Rv> {
    var upper, lower := Mod32(imm as int + 0x800) / 0x1000, imm % 0x1000;
    if upper != 0 then [Lui(rd, upper), I(ADDI, rd, rd, lower)] else [I(ADDI, rd, ZERO, lower)]
  }

  /** emit_imm32: the upper half is the sign of the lower. */
  function EmitImm32(rd: Pair, imm: U32): seq<Rv>
    requires rd.InRegs()
  {
    EmitImm(rd.lo, imm) + [Mv(rd.hi, rd.lo), I(SRAI, rd.hi, rd.hi, 31)]
  }

  function EmitImm64(rd: Pair, hi: U32, lo: U32): seq<Rv>
    requires rd.InRegs()
  {
    EmitImm(rd.lo, lo) + EmitImm(rd.hi, hi)
  }

  // ---------------------------------------------------------------- operands

  function At(p: Pair, tmp: Pair): Pair {
    if p.Stacked() then tmp else p
  }

  function Get64(p: Pair, tmp: Pair): seq<Rv>
    requires tmp.InRegs()
  {
    if p.Stacked() then [Lw(tmp.hi, Imm(p.hi), FP), Lw(tmp.lo, Imm(p.lo), FP)] else []
  }

  function Put64(p: Pair, src: Pair): seq<Rv>
    requires src.InRegs()
  {
    if p.Stacked() then [Sw(FP, Imm(p.hi), src.hi), Sw(FP, Imm(p.lo), src.lo)] else []
  }

  function Get32(p: Pair, tmp: Pair): seq<Rv>
    requires tmp.InRegs()
  {
    if p.Stacked() then [Lw(tmp.lo, Imm(p.lo), FP)] else []
  }

  /** The upper half is cleared unless the verifier took care of it (`vz`). */
  function Put32(p: Pair, src: Pair, vz: bool): seq<Rv>
    requires src.InRegs() && (p.InRegs() || p.Stacked())
  {
    if p.Stacked() then
      [Sw(FP, Imm(p.lo), src.lo)] + if vz then [] else [Sw(FP, Imm(p.hi), ZERO)]
    else if vz then [] else [Mv(p.hi, ZERO)]
  }

  // ---------------------------------------------------------------- 64-bit arithmetic

  /** The switch of emit_rv32_alu_r64. */
  function Core64(op: AluOp, rd: Pair, rs: Pair): seq<Rv>
    requires rd.InRegs() && rs.InRegs()
  {
    match op
    case BMOV => [Mv(rd.hi, rs.hi), Mv(rd.lo, rs.lo)]
    case BADD => [Mv(T0, rd.lo), R(ADD, rd.lo, rd.lo, rs.lo), R(SLTU, T0, rd.lo, T0),
                  R(ADD, rd.hi, rd.hi, rs.hi), R(ADD, rd.hi, rd.hi, T0)]
    case BSUB => [Mv(T0, rd.lo), R(SUB, rd.lo, rd.lo, rs.lo), R(SLTU, T0, T0, rd.lo),
                  R(SUB, rd.hi, rd.hi, rs.hi), R(SUB, rd.hi, rd.hi, T0)]
    case BAND => [R(AND, rd.hi, rd.hi, rs.hi), R(AND, rd.lo, rd.lo, rs.lo)]
    case BOR => [R(OR, rd.hi, rd.hi, rs.hi), R(OR, rd.lo, rd.lo, rs.lo)]
    case BXOR => [R(XOR, rd.hi, rd.hi, rs.hi), R(XOR, rd.lo, rd.lo, rs.lo)]
    case BMUL => [R(MUL, T0, rs.hi, rd.lo), R(MUL, rd.hi, rd.hi, rs.lo), R(MULHU, T1, rd.lo, rs.lo),
                  R(ADD, rd.hi, rd.hi, T0), R(MUL, rd.lo, rd.lo, rs.lo), R(ADD, rd.hi, rd.hi, T1)]
    case BLSH => ShiftHead(rs) + LshFar(rd) + [Jal(ZERO, 16)] + LshNear(rd, rs)
    case BRSH => ShiftHead(rs) + RshFar(rd) + [Jal(ZERO, 16)] + RshNear(rd, rs)
    case BARSH => ShiftHead(rs) + ArshFar(rd) + [Jal(ZERO, 16)] + ArshNear(rd, rs)
    case BNEG => [R(SUB, rd.lo, ZERO, rd.lo), R(SLTU, T0, ZERO, rd.lo),
                  R(SUB, rd.hi, ZERO, rd.hi), R(SUB, rd.hi, rd.hi, T0)]
    case BDIV => []
    case BMOD => []
  }

  // A shift by 32 or more takes the "far" part, a smaller one branches to the "near" part.

  function ShiftHead(rs: Pair): seq<Rv>
    requires rs.InRegs()
  {
    [I(ADDI, T0, rs.lo, Imm(-32)), Br(BLT, T0, ZERO, 8)]
  }

  function LshFar(rd: Pair): seq<Rv>
    requires rd.InRegs()
  {
    [R(SLL, rd.hi, rd.lo, T0), Mv(rd.lo, ZERO)]
  }

  function LshNear(rd: Pair, rs: Pair): seq<Rv>
    requires rd.InRegs() && rs.InRegs()
  {
    [I(ADDI, T1, ZERO, 31), I(SRLI, T0, rd.lo, 1), R(SUB, T1, T1, rs.lo), R(SRL, T0, T0, T1),
     R(SLL, rd.hi, rd.hi, rs.lo), R(OR, rd.hi, T0, rd.hi), R(SLL, rd.lo, rd.lo, rs.lo)]
  }

  function RshFar(rd: Pair): seq<Rv>
    requires rd.InRegs()
  {
    [R(SRL, rd.lo, rd.hi, T0), Mv(rd.hi, ZERO)]
  }

  function RshNear(rd: Pair, rs: Pair): seq<Rv>
    requires rd.InRegs() && rs.InRegs()
  {
    [I(ADDI, T1, ZERO, 31), I(SLLI, T0, rd.hi, 1), R(SUB, T1, T1, rs.lo), R(SLL, T0, T0, T1),
     R(SRL, rd.lo, rd.lo, rs.lo), R(OR, rd.lo, T0, rd.lo), R(SRL, rd.hi, rd.hi, rs.lo)]
  }

  function ArshFar(rd: Pair): seq<Rv>
    requires rd.InRegs()
  {
    [R(SRA, rd.lo, rd.hi, T0), I(SRAI, rd.hi, rd.hi, 31)]
  }

  function ArshNear(rd: Pair, rs: Pair): seq<Rv>
    requires rd.InRegs() && rs.InRegs()
  {
    [I(ADDI, T1, ZERO, 31), I(SLLI, T0, rd.hi, 1), R(SUB, T1, T1, rs.lo), R(SLL, T0, T0, T1),
     R(SRL, rd.lo, rd.lo, rs.lo), R(OR, rd.lo, T0, rd.lo), R(SRA, rd.hi, rd.hi, rs.lo)]
  }

  /** The switch of emit_rv32_alu_i64. */
  function CoreImm64(op: AluOp, rd: Pair, imm: U32): seq<Rv>
    requires rd.InRegs()
  {
    var n := Signed32(imm);
    match op
    case BMOV => EmitImm32(rd, imm)
    case BLSH =>
      if n >= 32 then [I(SLLI, rd.hi, rd.lo, Imm(n - 32)), Mv(rd.lo, ZERO)]
      else if n == 0 then []
      else [I(SRLI, T0, rd.lo, Imm(32 - n)), I(SLLI, rd.hi, rd.hi, Imm(n)),
            R(OR, rd.hi, T0, rd.hi), I(SLLI, rd.lo, rd.lo, Imm(n))]
    case BRSH =>
      if n >= 32 then [I(SRLI, rd.lo, rd.hi, Imm(n - 32)), Mv(rd.hi, ZERO)]
      else if n == 0 then []
      else [I(SLLI, T0, rd.hi, Imm(32 - n)), I(SRLI, rd.lo, rd.lo, Imm(n)),
            R(OR, rd.lo, T0, rd.lo), I(SRLI, rd.hi, rd.hi, Imm(n))]
    case BARSH =>
      if n >= 32 then [I(SRAI, rd.lo, rd.hi, Imm(n - 32)), I(SRAI, rd.hi, rd.hi, 31)]
      else if n == 0 then []
      else [I(SLLI, T0, rd.hi, Imm(32 - n)), I(SRLI, rd.lo, rd.lo, Imm(n)),
            R(OR, rd.lo, T0, rd.lo), I(SRAI, rd.hi, rd.hi, Imm(n))]
    case _ => []
  }

  // ---------------------------------------------------------------- 32-bit arithmetic

  /** The switch of emit_rv32_alu_r32. */
  function Core32(op: AluOp, rd: Reg, rs: Reg): Rv {
    match op
    case BMOV => Mv(rd, rs)
    case BADD => R(ADD, rd, rd, rs)
    case BSUB => R(SUB, rd, rd, rs)
    case BAND => R(AND, rd, rd, rs)
    case BOR => R(OR, rd, rd, rs)
    case BXOR => R(XOR, rd, rd, rs)
    case BMUL => R(MUL, rd, rd, rs)
    case BDIV => R(DIVU, rd, rd, rs)
    case BMOD => R(REMU, rd, rd, rs)
    case BLSH => R(SLL, rd, rd, rs)
    case BRSH => R(SRL, rd, rd, rs)
    case BARSH => R(SRA, rd, rd, rs)
    case BNEG => R(SUB, rd, ZERO, rd)
  }

  // ---------------------------------------------------------------- byte order

  function Rev16(rd: Reg): seq<Rv> {
    [I(ADDI, T1, ZERO, 0)]
    + [I(ANDI, T0, rd, 0xff), R(ADD, T1, T1, T0), I(SLLI, T1, T1, 8), I(SRLI, rd, rd, 8)]
    + [I(ANDI, T0, rd, 0xff), R(ADD, T1, T1, T0)]
    + [Mv(rd, T1)]
  }

  function Rev32(rd: Reg): seq<Rv> {
    [I(ADDI, T1, ZERO, 0)]
    + [I(ANDI, T0, rd, 0xff), R(ADD, T1, T1, T0), I(SLLI, T1, T1, 8), I(SRLI, rd, rd, 8)]
    + [I(ANDI, T0, rd, 0xff), R(ADD, T1, T1, T0), I(SLLI, T1, T1, 8), I(SRLI, rd, rd, 8)]
    + [I(ANDI, T0, rd, 0xff), R(ADD, T1, T1, T0), I(SLLI, T1, T1, 8), I(SRLI, rd, rd, 8)]
    + [I(ANDI, T0, rd, 0xff), R(ADD, T1, T1, T0)]
    + [Mv(rd, T1)]
  }

  function CoreEnd(be: bool, imm: U32, rd: Pair): Option<seq<Rv>>
    requires rd.InRegs()
  {
    if be then
      if imm == 16 then Some(Rev16(rd.lo) + [Mv(rd.hi, ZERO)])
      else if imm == 32 then Some(Rev32(rd.lo) + [Mv(rd.hi, ZERO)])
      else if imm == 64 then
        Some([Mv(T0, rd.lo), Mv(rd.lo, rd.hi), Mv(rd.hi, T0)] + Rev32(rd.lo) + Rev32(rd.hi))
      else None
    else
      if imm == 16 then Some([I(SLLI, rd.lo, rd.lo, 16), I(SRLI, rd.lo, rd.lo, 16), Mv(rd.hi, ZERO)])
      else if imm == 32 then Some([Mv(rd.hi, ZERO)])
      else if imm == 64 then Some([])
      else None
  }

  // ---------------------------------------------------------------- jumps

  predicate Is13b(off: int) {
    -0x1000 <= off < 0x1000
  }

  predicate Is21b(off: int) {
    -0x10_0000 <= off < 0x10_0000
  }

  /** The field a byte offset becomes: `off >> 1` cut to the width the encoder keeps. */
  function BrField(off: int): Imm12 {
    off / 2 % 0x1000
  }

  function JalField(off: int): Imm20 {
    off / 2 % 0x10_0000
  }

  /** The switch of emit_rv32_jump_r64; `off` is the offset from its last instruction. */
  function CoreJump64(op: JmpOp, a: Pair, b: Pair, off: int): seq<Rv>
    requires a.InRegs() && b.InRegs()
  {
    match op
    case JEQ => [Br(BNE, a.hi, b.hi, 4), Br(BEQ, a.lo, b.lo, BrField(off))]
    case JNE => [Br(BNE, a.hi, b.hi, BrField(off + 4)), Br(BNE, a.lo, b.lo, BrField(off))]
    case JLE => [Br(BLTU, a.hi, b.hi, BrField(off + 8)), Br(BLTU, b.hi, a.hi, 4), Br(BGEU, b.lo, a.lo, BrField(off))]
    case JLT => [Br(BLTU, a.hi, b.hi, BrField(off + 8)), Br(BLTU, b.hi, a.hi, 4), Br(BLTU, a.lo, b.lo, BrField(off))]
    case JGE => [Br(BLTU, b.hi, a.hi, BrField(off + 8)), Br(BLTU, a.hi, b.hi, 4), Br(BGEU, a.lo, b.lo, BrField(off))]
    case JGT => [Br(BLTU, b.hi, a.hi, BrField(off + 8)), Br(BLTU, a.hi, b.hi, 4), Br(BLTU, b.lo, a.lo, BrField(off))]
    case JSLE => [Br(BLT, a.hi, b.hi, BrField(off + 8)), Br(BNE, b.hi, a.hi, 4), Br(BGEU, b.lo, a.lo, BrField(off))]
    case JSLT => [Br(BLT, a.hi, b.hi, BrField(off + 8)), Br(BNE, b.hi, a.hi, 4), Br(BLTU, a.lo, b.lo, BrField(off))]
    case JSGE => [Br(BLT, b.hi, a.hi, BrField(off + 8)), Br(BNE, a.hi, b.hi, 4), Br(BGEU, a.lo, b.lo, BrField(off))]
    case JSGT => [Br(BLT, b.hi, a.hi, BrField(off + 8)), Br(BNE, a.hi, b.hi, 4), Br(BLTU, b.lo, a.lo, BrField(off))]
    case JSET => [R(AND, T0, a.hi, b.hi), Br(BNE, T0, ZERO, BrField(off + 8)),
                  R(AND, T0, a.lo, b.lo), Br(BNE, T0, ZERO, BrField(off))]
  }

  /** The switch of emit_rv32_jump_r32. */
  function CoreJump32(op: JmpOp, a: Reg, b: Reg, off: int): seq<Rv> {
    match op
    case JEQ => [Br(BEQ, a, b, BrField(off))]
    case JNE => [Br(BNE, a, b, BrField(off))]
    case JLE => [Br(BGEU, b, a, BrField(off))]
    case JLT => [Br(BLTU, a, b, BrField(off))]
    case JGE => [Br(BGEU, a, b, BrField(off))]
    case JGT => [Br(BLTU, b, a, BrField(off))]
    case JSLE => [Br(BGE, b, a, BrField(off))]
    case JSLT => [Br(BLT, a, b, BrField(off))]
    case JSGE => [Br(BGE, a, b, BrField(off))]
    case JSGT => [Br(BLT, b, a, BrField(off))]
    case JSET => [R(AND, T0, a, b), Br(BNE, T0, ZERO, BrField(off))]
  }

  // ---------------------------------------------------------------- one BPF instruction

  /** Loads, stores and calls are outside the model. */
  predicate InScope(code: Code) {
    !code.Call? && !code.Other?
  }

  /** Slot `i` is the second one of an LD_IMM64. */
  predicate Second(prog: seq<Insn>, i: int)
    requires i <= |prog|
    decreases i
  {
    0 < i && prog[i - 1].code.LdImm64? && !Second(prog, i - 1)
  }

  /** A jump of instruction `i` lands on the first slot of an instruction after the first one. */
  predicate GoodTarget(prog: seq<Insn>, i: int, off: int) {
    0 < i + off + 1 < |prog| && !Second(prog, i + off + 1)
  }

  predicate GoodInsn(prog: seq<Insn>, i: int)
    requires 0 <= i < |prog|
  {
    && InScope(prog[i].code)
    && prog[i].dst <= 10 && prog[i].src <= 10
    && (IsJump(prog[i].code) ==> GoodTarget(prog, i, prog[i].off))
    && (prog[i].code.LdImm64? ==> i + 1 < |prog|)
  }

  /** What the verifier of BPF programs guarantees, for the instructions in scope. */
  ghost predicate Verified(prog: seq<Insn>) {
    forall i {:trigger GoodInsn(prog, i)} :: 0 <= i < |prog| && !Second(prog, i) ==> GoodInsn(prog, i)
  }

  /** The fields of struct rv_jit_context that emission reads. */
  datatype Layout = Layout(offset: seq<int>, ninsns: int, epilogue: int, vz: bool)

  function RvOffset(l: Layout, bpfTo: int, bpfFrom: int): int
    requires 0 <= bpfTo < |l.offset| && 0 <= bpfFrom < |l.offset|
  {
    (l.offset[bpfTo] - (l.offset[bpfFrom] - 1)) * 4
  }

  function EpilogueOffset(l: Layout): int {
    (l.epilogue - l.ninsns) * 4
  }

  function LoadOperand(insn: Insn, x: bool): seq<Rv> {
    if x then [] else EmitImm32(TMP2, insn.imm)
  }

  function SourcePair(insn: Insn, x: bool): Pair {
    if x then Home(insn.src) else TMP2
  }

  function EmitAlu64(insn: Insn, op: AluOp, x: bool): Option<seq<Rv>> {
    var dst := Home(insn.dst);
    var rd := At(dst, TMP1);
    if op == BDIV || op == BMOD then None
    else if op == BNEG then Some(Get64(dst, TMP1) + Core64(op, rd, TMP2) + Put64(dst, rd))
    else if op == BMOV && x && insn.imm == 1 then
      Some(Get64(dst, TMP1) + [Mv(rd.hi, ZERO)] + Put64(dst, rd))
    else if !x && (op == BMOV || op == BLSH || op == BRSH || op == BARSH) then
      Some(Get64(dst, TMP1) + CoreImm64(op, rd, insn.imm) + Put64(dst, rd))
    else
      var src := SourcePair(insn, x);
      Some(LoadOperand(insn, x) + (Get64(dst, TMP1) + Get64(src, TMP2)) + Core64(op, rd, At(src, TMP2))
        + Put64(dst, rd))
  }

  function EmitAlu32(insn: Insn, op: AluOp, x: bool, vz: bool): seq<Rv> {
    var dst := Home(insn.dst);
    var rd := At(dst, TMP1);
    if op == BNEG then Get32(dst, TMP1) + [Core32(op, rd.lo, TMP2.lo)] + Put32(dst, rd, vz)
    else if op == BMOV && x && insn.imm == 1 then Get64(dst, TMP1) + [Mv(rd.hi, ZERO)] + Put64(dst, rd)
    else if op == BMOV && !x then Get32(dst, TMP1) + EmitImm32(rd, insn.imm) + Put32(dst, rd, vz)
    else
      var src := SourcePair(insn, x);
      LoadOperand(insn, x) + (Get32(dst, TMP1) + Get32(src, TMP2)) + [Core32(op, rd.lo, At(src, TMP2).lo)]
        + Put32(dst, rd, vz)
  }

  function EmitJump64(insn: Insn, op: JmpOp, x: bool, off: int): seq<Rv> {
    var a, b := Home(insn.dst), SourcePair(insn, x);
    LoadOperand(insn, x) + (Get64(a, TMP1) + Get64(b, TMP2)) + CoreJump64(op, At(a, TMP1), At(b, TMP2), off)
  }

  function EmitJump32(insn: Insn, op: JmpOp, x: bool, off: int): seq<Rv> {
    var a, b := Home(insn.dst), SourcePair(insn, x);
    LoadOperand(insn, x) + (Get32(a, TMP1) + Get32(b, TMP2)) + CoreJump32(op, At(a, TMP1).lo, At(b, TMP2).lo, off)
  }

  /** emit_insn for instruction `i`; None when it reports an error. */
  function EmitInsn(prog: seq<Insn>, i: nat, l: Layout): Option<seq<Rv>>
    requires i < |prog| && GoodInsn(prog, i) && |l.offset| == |prog|
  {
    var insn := prog[i];
    match insn.code
    case Alu64(op, x) => EmitAlu64(insn, op, x)
    case Alu32(op, x) => Some(EmitAlu32(insn, op, x, l.vz))
    case End(be) =>
      var dst := Home(insn.dst);
      var rd := At(dst, TMP1);
      (match CoreEnd(be, insn.imm, rd)
       case None => None
       case Some(core) => Some(Get64(dst, TMP1) + core + Put64(dst, rd)))
    case Jmp64(op, x) =>
      var off := RvOffset(l, i + insn.off, i);
      if Is13b(off) then Some(EmitJump64(insn, op, x, off)) else None
    case Jmp32(op, x) =>
      var off := RvOffset(l, i + insn.off, i);
      if Is13b(off) then Some(EmitJump32(insn, op, x, off)) else None
    case Ja =>
      var off := RvOffset(l, i + insn.off, i);
      if Is21b(off) then Some([Jal(ZERO, JalField(off))]) else None
    case Exit =>
      if i == |prog| - 1 then Some([])
      else
        var off := EpilogueOffset(l);
        if Is21b(off) then Some([Jal(ZERO, JalField(off))]) else None
    case LdImm64 =>
      var dst := Home(insn.dst);
      var rd := At(dst, TMP1);
      Some(Get64(dst, TMP1) + EmitImm64(rd, prog[i + 1].imm, insn.imm) + Put64(dst, rd))
  }
}
