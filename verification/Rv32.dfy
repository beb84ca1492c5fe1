/** The RV32IM instructions the BPF compiler emits: their encodings, as the rv_* functions of
    bpf_jit_comp32.c build them, and their meaning. */
module Rv32 {
  import opened Words
  import opened Reach

  type Reg = r: int | 0 <= r < 32
  type Imm12 = i: int | 0 <= i < 0x1000
  type Imm20 = i: int | 0 <= i < 0x10_0000

  datatype ROp = ADD | SUB | AND | OR | XOR | MUL | MULHU | DIVU | REMU | SLL | SRL | SRA | SLTU
  datatype IOp = ADDI | ANDI | SLLI | SRLI | SRAI
  datatype BOp = BEQ | BNE | BLT | BGE | BLTU | BGEU

  /** Immediate fields hold the raw bits: twelve of them, or imm[12:1] of a branch, or twenty
      of them, or imm[20:1] of a jump. */
  datatype Rv =
    | R(rop: ROp, rd: Reg, rs1: Reg, rs2: Reg)
    | I(iop: IOp, rd: Reg, rs1: Reg, imm: Imm12)
    | Lui(rd: Reg, upper: Imm20)
    | Br(bop: BOp, rs1: Reg, rs2: Reg, imm: Imm12)
    | Jal(rd: Reg, jump: Imm20)
    | Lw(rd: Reg, imm: Imm12, rs1: Reg)
    | Sw(rs1: Reg, imm: Imm12, rs2: Reg)

  // ---------------------------------------------------------------- encoding

  /** An instruction word from bits 31:25 down to bits 6:0; the formats other than R divide
      their immediates over the same places. */
  datatype Fields = Fields(funct7: nat, rs2: Reg, rs1: Reg, funct3: nat, rd: Reg, opcode: nat) {
    predicate Valid() {
      funct7 < 128 && funct3 < 8 && opcode < 128
    }
  }

  /** The fields do not overlap, so the source's `|` is addition here. */
  function Assemble(f: Fields): U32
    requires f.Valid()
  {
    f.funct7 * 0x200_0000 + f.rs2 * 0x10_0000 + f.rs1 * 0x8000 + f.funct3 * 0x1000 + f.rd * 0x80 + f.opcode
  }

  // rv_i_insn, rv_s_insn, rv_sb_insn, rv_u_insn and rv_uj_insn

  function IFields(imm: Imm12, rs1: Reg, funct3: nat, rd: Reg, opcode: nat): Fields {
    Fields(imm / 32, imm % 32, rs1, funct3, rd, opcode)
  }

  function SFields(imm: Imm12, rs2: Reg, rs1: Reg, funct3: nat, opcode: nat): Fields {
    Fields(imm / 32, rs2, rs1, funct3, imm % 32, opcode)
  }

  /** imm12_1 is scattered as imm[12|10:5] above rs2 and imm[4:1|11] in the place of rd. */
  function SbFields(imm: Imm12, rs2: Reg, rs1: Reg, funct3: nat, opcode: nat): Fields {
    Fields(imm / 0x800 * 0x40 + imm / 0x10 % 0x40, rs2, rs1, funct3, imm % 0x10 * 2 + imm / 0x400 % 2, opcode)
  }

  function UFields(imm: Imm20, rd: Reg, opcode: nat): Fields {
    Fields(imm / 0x2000, imm / 0x100 % 32, imm / 8 % 32, imm % 8, rd, opcode)
  }

  /** imm20_1 is scattered as imm[20|10:1|11|19:12]. */
  function UjScatter(imm: Imm20): Imm20 {
    imm / 0x8_0000 * 0x8_0000 + imm % 0x400 * 0x200 + imm / 0x400 % 2 * 0x100 + imm / 0x800 % 0x100
  }

  function RFunct(op: ROp): (nat, nat) {
    match op
    case ADD => (0, 0)
    case SUB => (0x20, 0)
    case AND => (0, 7)
    case OR => (0, 6)
    case XOR => (0, 4)
    case MUL => (1, 0)
    case MULHU => (1, 3)
    case DIVU => (1, 5)
    case REMU => (1, 7)
    case SLL => (0, 1)
    case SRL => (0, 5)
    case SRA => (0x20, 5)
    case SLTU => (0, 3)
  }

  function BFunct(op: BOp): nat {
    match op
    case BEQ => 0
    case BNE => 1
    case BLT => 4
    case BGE => 5
    case BLTU => 6
    case BGEU => 7
  }

  function FieldsOf(i: Rv): (f: Fields)
    ensures f.Valid()
  {
    match i
    case R(op, rd, rs1, rs2) => Fields(RFunct(op).0, rs2, rs1, RFunct(op).1, rd, 0x33)
    case I(ADDI, rd, rs1, imm) => IFields(imm, rs1, 0, rd, 0x13)
    case I(ANDI, rd, rs1, imm) => IFields(imm, rs1, 7, rd, 0x13)
    case I(SLLI, rd, rs1, imm) => IFields(imm, rs1, 1, rd, 0x13)
    case I(SRLI, rd, rs1, imm) => IFields(imm, rs1, 5, rd, 0x13)
    case I(SRAI, rd, rs1, imm) => IFields(0x400 + imm % 0x400, rs1, 5, rd, 0x13)
    case Lui(rd, imm) => UFields(imm, rd, 0x37)
    case Br(op, rs1, rs2, imm) => SbFields(imm, rs2, rs1, BFunct(op), 0x63)
    case Jal(rd, imm) => UFields(UjScatter(imm), rd, 0x6f)
    case Lw(rd, imm, rs1) => IFields(imm, rs1, 2, rd, 0x03)
    case Sw(rs1, imm, rs2) => SFields(imm, rs2, rs1, 2, 0x23)
  }

  function Encode(i: Rv): U32 {
    Assemble(FieldsOf(i))
  }

  // ---------------------------------------------------------------- decoding

  /** The fields of a word, from the opcode in bits 6:0 up to funct7 in bits 31:25. */
  function Split(w: U32): (f: Fields)
    ensures f.Valid()
  {
    var w1 := w / 0x80;
    var w2 := w1 / 32;
    var w3 := w2 / 8;
    var w4 := w3 / 32;
    Fields(w4 / 32, w4 % 32, w3 % 32, w2 % 8, w1 % 32, w % 0x80)
  }

  function ROpOf(funct7: nat, funct3: nat): Option<ROp> {
    if funct7 == 0 then
      if funct3 == 0 then Some(ADD) else if funct3 == 7 then Some(AND) else if funct3 == 6 then Some(OR)
      else if funct3 == 4 then Some(XOR) else if funct3 == 1 then Some(SLL) else if funct3 == 5 then Some(SRL)
      else if funct3 == 3 then Some(SLTU) else None
    else if funct7 == 1 then
      if funct3 == 0 then Some(MUL) else if funct3 == 3 then Some(MULHU) else if funct3 == 5 then Some(DIVU)
      else if funct3 == 7 then Some(REMU) else None
    else if funct7 == 0x20 then
      if funct3 == 0 then Some(SUB) else if funct3 == 5 then Some(SRA) else None
    else None
  }

  function BOpOf(funct3: nat): Option<BOp> {
    if funct3 == 0 then Some(BEQ) else if funct3 == 1 then Some(BNE) else if funct3 == 4 then Some(BLT)
    else if funct3 == 5 then Some(BGE) else if funct3 == 6 then Some(BLTU) else if funct3 == 7 then Some(BGEU)
    else None
  }

  function DecodeOpImm(f: Fields): Option<Rv>
    requires f.Valid()
  {
    var imm := f.funct7 * 32 + f.rs2;
    if f.funct3 == 0 then Some(I(ADDI, f.rd, f.rs1, imm))
    else if f.funct3 == 7 then Some(I(ANDI, f.rd, f.rs1, imm))
    else if f.funct3 == 1 && f.funct7 == 0 then Some(I(SLLI, f.rd, f.rs1, f.rs2))
    else if f.funct3 == 5 && f.funct7 == 0 then Some(I(SRLI, f.rd, f.rs1, f.rs2))
    else if f.funct3 == 5 && f.funct7 == 0x20 then Some(I(SRAI, f.rd, f.rs1, f.rs2))
    else None
  }

  function BranchImm(hi: nat, lo: Reg): Imm12
    requires hi < 0x80
  {
    hi / 0x40 * 0x800 + lo % 2 * 0x400 + hi % 0x40 * 0x10 + lo / 2
  }

  function JumpImm(u: Imm20): Imm20 {
    u / 0x8_0000 * 0x8_0000 + u % 0x100 * 0x800 + u / 0x100 % 2 * 0x400 + u / 0x200 % 0x400
  }

  function UpperImm(f: Fields): Imm20
    requires f.Valid()
  {
    f.funct7 * 0x2000 + f.rs2 * 0x100 + f.rs1 * 8 + f.funct3
  }

  function DecodeFields(f: Fields): Option<Rv>
    requires f.Valid()
  {
    if f.opcode == 0x33 then
      match ROpOf(f.funct7, f.funct3)
      case None => None
      case Some(rop) => Some(R(rop, f.rd, f.rs1, f.rs2))
    else if f.opcode == 0x13 then DecodeOpImm(f)
    else if f.opcode == 0x37 then Some(Lui(f.rd, UpperImm(f)))
    else if f.opcode == 0x63 then
      match BOpOf(f.funct3)
      case None => None
      case Some(op) => Some(Br(op, f.rs1, f.rs2, BranchImm(f.funct7, f.rd)))
    else if f.opcode == 0x6f then Some(Jal(f.rd, JumpImm(UpperImm(f))))
    else if f.opcode == 0x03 && f.funct3 == 2 then Some(Lw(f.rd, f.funct7 * 32 + f.rs2, f.rs1))
    else if f.opcode == 0x23 && f.funct3 == 2 then Some(Sw(f.rs1, f.funct7 * 32 + f.rd, f.rs2))
    else None
  }

  /** What the hart makes of an instruction word. */
  function Decode(w: U32): Option<Rv> {
    DecodeFields(Split(w))
  }

  /** Shift amounts of 32 and more have no encoding in RV32. */
  predicate Encodable(i: Rv) {
    i.I? && (i.iop == SLLI || i.iop == SRLI || i.iop == SRAI) ==> i.imm < 32
  }

  lemma SplitAssemble(f: Fields)
    requires f.Valid()
    ensures Split(Assemble(f)) == f
  {
    var w4 := f.funct7 * 32 + f.rs2;
    var w3 := w4 * 32 + f.rs1;
    var w2 := w3 * 8 + f.funct3;
    var w1 := w2 * 32 + f.rd;
    assert Assemble(f) == w1 * 0x80 + f.opcode;
  }

  lemma UpperFields(imm: Imm20, rd: Reg, opcode: nat)
    requires opcode < 128
    ensures UpperImm(UFields(imm, rd, opcode)) == imm
  {
    var q := imm / 8;
    assert imm == q * 8 + imm % 8;
    assert imm / 0x100 == q / 32 && imm / 0x2000 == q / 32 / 32;
    assert q == q / 32 * 32 + q % 32;
  }

  lemma UjGather(a: nat, b: nat, c: nat, d: nat)
    requires a < 2 && b < 0x400 && c < 2 && d < 0x100
    ensures JumpImm(a * 0x8_0000 + b * 0x200 + c * 0x100 + d) == a * 0x8_0000 + d * 0x800 + c * 0x400 + b
  {
    var f := a * 0x8_0000 + b * 0x200 + c * 0x100 + d;
    assert f / 0x100 == a * 0x800 + b * 2 + c;
    assert f / 0x200 == a * 0x400 + b;
    assert f / 0x8_0000 == a;
  }

  lemma JumpImmRoundTrip(imm: Imm20)
    ensures JumpImm(UjScatter(imm)) == imm
  {
    UjGather(imm / 0x8_0000, imm % 0x400, imm / 0x400 % 2, imm / 0x800 % 0x100);
    var q := imm / 0x400;
    assert imm == q * 0x400 + imm % 0x400;
    assert imm / 0x800 == q / 2;
    assert imm / 0x8_0000 == q / 0x200;
    assert q / 2 == q / 0x200 * 0x100 + q / 2 % 0x100;
  }

  lemma SbGather(a: nat, b: nat, c: nat, d: nat)
    requires a < 2 && b < 2 && c < 0x40 && d < 0x10
    ensures BranchImm(a * 0x40 + c, d * 2 + b) == a * 0x800 + b * 0x400 + c * 0x10 + d
  {
    assert (a * 0x40 + c) / 0x40 == a && (d * 2 + b) / 2 == d;
  }

  lemma BranchImmRoundTrip(imm: Imm12)
    ensures BranchImm(imm / 0x800 * 0x40 + imm / 0x10 % 0x40, imm % 0x10 * 2 + imm / 0x400 % 2) == imm
  {
    SbGather(imm / 0x800, imm / 0x400 % 2, imm / 0x10 % 0x40, imm % 0x10);
    var q := imm / 0x10;
    assert imm == q * 0x10 + imm % 0x10;
    assert imm / 0x400 == q / 0x40;
    assert imm / 0x800 == q / 0x40 / 2;
    assert q == q / 0x40 * 0x40 + q % 0x40;
  }

  lemma FieldsRoundTrip(i: Rv)
    requires Encodable(i)
    ensures DecodeFields(FieldsOf(i)) == Some(i)
  {
    match i
    case R(_, _, _, _) =>
    case I(SRAI, _, _, imm) => assert (0x400 + imm) / 32 == 0x20 && (0x400 + imm) % 32 == imm;
    case I(_, _, _, imm) =>
    case Lui(rd, imm) => UpperFields(imm, rd, 0x37);
    case Br(_, _, _, imm) => BranchImmRoundTrip(imm);
    case Jal(rd, imm) =>
      JumpImmRoundTrip(imm);
      UpperFields(UjScatter(imm), rd, 0x6f);
    case Lw(_, imm, _) =>
    case Sw(_, imm, _) =>
  }

  /** The encoders are faithful: the hart decodes every emitted word to the instruction meant. */
  lemma DecodeEncode(i: Rv)
    requires Encodable(i)
    ensures Decode(Encode(i)) == Some(i)
  {
    SplitAssemble(FieldsOf(i));
    FieldsRoundTrip(i);
  }
}
