/** Laws of the interpreter's arithmetic that name none of its own functions. */
module BpfLaws {
  import opened Words
  import opened Bpf

  // ---------------------------------------------------------------- division

  lemma QuotRem(a: int, b: int)
    requires a >= 0 && b > 0
    ensures a == Quot(a, b) * b + Rem(a, b) && 0 <= Rem(a, b) < b
  {
    var q, r := a / b, a % b;
    assert a == b * q + r;
    Commute(b, q);
  }

  /** The same instruction but for DIV in the one program and MOD in the other. */
  predicate Twins(div: seq<Insn>, mod: seq<Insn>, pc: int, wide: bool) {
    && 0 <= pc < |div| && pc < |mod| && div[pc].dst != AX
    && (if wide then div[pc].code.Alu64? else div[pc].code.Alu32?) && div[pc].code.op == BDIV
    && mod[pc] == div[pc].(code := div[pc].code.(op := BMOD))
  }

  /** 64-bit DIV and MOD: quotient and remainder of the operands, no meaning for a divisor of 0;
      only the destination changes, and AX under MOD. */
  lemma DivMod64(div: seq<Insn>, mod: seq<Insn>, pc: int, regs: BpfRegs)
    requires Twins(div, mod, pc, true)
    ensures var i := div[pc];
      var a, b := regs[i.dst], if i.code.x then regs[i.src] else SignExtend(i.imm);
      var d, m := BpfStep(div, pc, regs), BpfStep(mod, pc, regs);
      if b == 0 then d == Undefined && m == Undefined
      else
        && d.Continue? && m.Continue? && d.pc == m.pc == pc + 1
        && a == d.regs[i.dst] * b + m.regs[i.dst] && m.regs[i.dst] < b
        && m.regs[AX] == m.regs[i.dst] && d.regs[AX] == regs[AX]
        && forall r: BpfReg :: r != i.dst && r != AX ==> d.regs[r] == m.regs[r] == regs[r]
  {
    var i := div[pc];
    var b := if i.code.x then regs[i.src] else SignExtend(i.imm);
    if b != 0 {
      QuotRem(regs[i.dst], b);
    }
  }

  /** 32-bit DIV and MOD work on the low halves and clear the upper one; AX gets the quotient. */
  lemma DivMod32(div: seq<Insn>, mod: seq<Insn>, pc: int, regs: BpfRegs)
    requires Twins(div, mod, pc, false)
    ensures var i := div[pc];
      var a, b := regs[i.dst] % 0x1_0000_0000, (if i.code.x then regs[i.src] else SignExtend(i.imm)) % 0x1_0000_0000;
      var d, m := BpfStep(div, pc, regs), BpfStep(mod, pc, regs);
      if b == 0 then d == Undefined && m == Undefined
      else
        && d.Continue? && m.Continue? && d.pc == m.pc == pc + 1
        && a == d.regs[i.dst] * b + m.regs[i.dst] && m.regs[i.dst] < b
        && m.regs[AX] == d.regs[AX] == d.regs[i.dst] < 0x1_0000_0000
        && forall r: BpfReg :: r != i.dst && r != AX ==> d.regs[r] == m.regs[r] == regs[r]
  {
    var i := div[pc];
    var a, b := Lo(regs[i.dst]), Lo(if i.code.x then regs[i.src] else SignExtend(i.imm));
    if b != 0 {
      QuotRem(a, b);
    }
  }

  // ---------------------------------------------------------------- bitwise operations

  /** AND, OR and XOR of two numbers are those of their bits: what is common to both, counted once
      in OR and not at all in XOR. */
  lemma {:induction false} BitsAddUp(a: nat, b: nat)
    ensures Bits(And, a, b) + Bits(Or, a, b) == a + b
    ensures Bits(Xor, a, b) + 2 * Bits(And, a, b) == a + b
    decreases a + b
  {
    if a + b > 0 {
      BitsAddUp(a / 2, b / 2);
    }
  }

  /** AND keeps nothing that is not in both, and all that is. */
  lemma {:induction false} AndIsCommon(a: nat, b: nat, n: nat)
    ensures Shr(Bits(And, a, b), n) % 2 == 1 <==> Shr(a, n) % 2 == 1 && Shr(b, n) % 2 == 1
    decreases n
  {
    if n > 0 {
      AndHalf(a, b);
      AndIsCommon(a / 2, b / 2, n - 1);
    } else {
      AndHalf(a, b);
    }
  }

  lemma AndHalf(a: nat, b: nat)
    ensures Bits(And, a, b) / 2 == Bits(And, a / 2, b / 2)
    ensures Bits(And, a, b) % 2 == 1 <==> a % 2 == 1 && b % 2 == 1
  {
  }

  // ---------------------------------------------------------------- the other operations

  function Residue(x: int, w: nat): int {
    if w == 64 then x % 0x1_0000_0000_0000_0000 else x % 0x1_0000_0000
  }

  lemma Residues(x: int)
    ensures Mod64(x) == Residue(x, 64) && Mod32(x) == Residue(x, 32)
  {
  }

  /** What an operation gives in w bits; `sa` is the signed first operand. */
  predicate Means(op: AluOp, a: int, sa: int, b: int, w: nat, v: int) {
    match op
    case BADD => v == Residue(a + b, w)
    case BSUB => v == Residue(a - b, w)
    case BMUL => v == Residue(a * b, w)
    case BNEG => v == Residue(-a, w)
    case BMOV => v == b
    case BLSH => b >= 0 && v == Residue(a * Pow2(b), w)
    case BRSH => b >= 0 && v == a / Pow2(b)
    case BARSH => b >= 0 && v == Residue(sa / Pow2(b), w)
    case BDIV => b > 0 && v == a / b
    case BMOD => b > 0 && v == a % b
    case BAND => a >= 0 && b >= 0 && v == Bits(And, a, b)
    case BOR => a >= 0 && b >= 0 && v == Bits(Or, a, b)
    case BXOR => a >= 0 && b >= 0 && v == Bits(Xor, a, b)
  }

  /** A shift by the width or more, or a division by zero: the only operations without a value. */
  predicate NoValue(op: AluOp, b: int, w: nat) {
    if op == BLSH || op == BRSH || op == BARSH then b >= w else (op == BDIV || op == BMOD) && b == 0
  }

  predicate IsShift(op: AluOp) {
    op == BLSH || op == BRSH || op == BARSH
  }

  lemma Op64Means(op: AluOp, a: U64, b: U64)
    ensures Op64(op, a, b).None? <==> NoValue(op, b, 64)
    ensures Op64(op, a, b).Some? ==> Means(op, a, Signed64(a), b, 64, Op64(op, a, b).value)
  {
    match op
    case BADD => Residues(a + b);
    case BSUB => Residues(a - b);
    case BMUL => Residues(a * b);
    case BNEG => Residues(-(a as int));
    case BLSH => ShlIsMul(a, b); Residues(a * Pow2(b));
    case BRSH => ShrLowAreDivMod(a, b);
    case BARSH => ShrLowAreDivMod(Signed64(a), b); Residues(Signed64(a) / Pow2(b));
    case _ =>
  }

  /** ARSH takes its amount from the whole source register, the other operations from its low half. */
  lemma Op32Means(op: AluOp, a: U32, b: U64, c: U64)
    requires c == if op == BARSH then b else Lo(b)
    ensures Op32(op, a, b).None? <==> NoValue(op, c, 32)
    ensures Op32(op, a, b).Some? ==> Means(op, a, Signed32(a), c, 32, Op32(op, a, b).value)
  {
    if IsShift(op) {
      Shift32Means(op, a, b, c);
    } else if op == BMUL {
      Residues(a * c);
    } else {
      Plain32Means(op, a, b, c);
    }
  }

  lemma Plain32Means(op: AluOp, a: U32, b: U64, c: U32)
    requires !IsShift(op) && op != BMUL && c == Lo(b)
    ensures Op32(op, a, b).None? <==> NoValue(op, c, 32)
    ensures Op32(op, a, b).Some? ==> Means(op, a, Signed32(a), c, 32, Op32(op, a, b).value)
  {
    Residues(a + c);
    Residues(a - c);
    Residues(-(a as int));
  }

  lemma Shift32Means(op: AluOp, a: U32, b: U64, c: U64)
    requires IsShift(op) && c == if op == BARSH then b else Lo(b)
    ensures Op32(op, a, b).None? <==> NoValue(op, c, 32)
    ensures Op32(op, a, b).Some? ==> Means(op, a, Signed32(a), c, 32, Op32(op, a, b).value)
  {
    match op
    case BLSH => ShlIsMul(a, c); Residues(Shl(a, c));
    case BRSH => ShrLowAreDivMod(a, c);
    case BARSH => ShrLowAreDivMod(Signed32(a), c); Residues(Shr(Signed32(a), c));
  }

  /** One ALU instruction: it has no meaning just when its operation has no value; else the
      destination gets the value, zero-extended in 32 bits, and no other register but AX changes. */
  lemma AluStep(prog: seq<Insn>, pc: int, regs: BpfRegs)
    requires 0 <= pc < |prog| && (prog[pc].code.Alu64? || prog[pc].code.Alu32?) && prog[pc].dst != AX
    ensures var i, o := prog[pc], BpfStep(prog, pc, regs);
      var b := if i.code.x then regs[i.src] else SignExtend(i.imm);
      var w := if i.code.Alu64? then 64 else 32;
      var c := if w == 64 || i.code.op == BARSH then b else b % 0x1_0000_0000;
      var a := if w == 64 then regs[i.dst] else regs[i.dst] % 0x1_0000_0000;
      var sa := if w == 64 then Signed64(a) else Signed32(a);
      if NoValue(i.code.op, c, w) then o == Undefined
      else
        && o.Continue? && o.pc == pc + 1 && Means(i.code.op, a, sa, c, w, o.regs[i.dst])
        && forall r: BpfReg :: r != i.dst && r != AX ==> o.regs[r] == regs[r]
  {
    var i := prog[pc];
    var b := if i.code.x then regs[i.src] else SignExtend(i.imm);
    if i.code.Alu64? {
      Op64Means(i.code.op, regs[i.dst], b);
    } else {
      Op32Means(i.code.op, Lo(regs[i.dst]), b, if i.code.op == BARSH then b else Lo(b));
    }
  }

  /** CALL, which the interpreter leaves open, and byte orders of another width do nothing. */
  lemma IdleStep(prog: seq<Insn>, pc: int, regs: BpfRegs)
    requires 0 <= pc < |prog|
    requires prog[pc].code.Call? || (prog[pc].code.End? && prog[pc].imm !in {16, 32, 64})
    ensures BpfStep(prog, pc, regs) == Continue(pc + 1, regs)
  {
    assert regs[prog[pc].dst := regs[prog[pc].dst]] == regs;
  }

  // ---------------------------------------------------------------- byte order

  type Byte = b: int | 0 <= b < 0x100

  /** Four bytes as a number, the lowest first. */
  function Four(p: Byte, q: Byte, r: Byte, s: Byte): U32 {
    p + 0x100 * q + 0x1_0000 * r + 0x100_0000 * s
  }

  lemma Bytes(p: Byte, q: Byte, r: Byte, s: Byte, a: U32)
    requires a == Four(p, q, r, s)
    ensures a % 0x100 == p && a / 0x100 % 0x100 == q && a / 0x1_0000 % 0x100 == r && a / 0x100_0000 == s
    ensures a % 0x1_0000 == p + 0x100 * q
  {
    var a1, a2 := q + 0x100 * (r + 0x100 * s), r + 0x100 * s;
    assert a == p + 0x100 * a1 && a1 == q + 0x100 * a2;
    assert a / 0x100 == a1 && a / 0x1_0000 == a2 && a / 0x100_0000 == s;
  }

  lemma SwapReverses(p: Byte, q: Byte, r: Byte, s: Byte)
    ensures Swap32(Four(p, q, r, s)) == Four(s, r, q, p) && Swap16(Four(p, q, r, s)) == Four(q, p, 0, 0)
  {
    Bytes(p, q, r, s, Four(p, q, r, s));
  }

  /** Byte order, on a register of the bytes p, q, r, s, t, u, v, w from the lowest up: to little
      endian keeps the lowest bytes of the width, to big endian reverses them, and both clear the
      others. */
  lemma EndStep(prog: seq<Insn>, pc: int, regs: BpfRegs, p: Byte, q: Byte, r: Byte, s: Byte, t: Byte, u: Byte,
                v: Byte, w: Byte)
    requires 0 <= pc < |prog| && prog[pc].code.End? && prog[pc].imm in {16, 32, 64}
    requires regs[prog[pc].dst] == Four(p, q, r, s) + 0x1_0000_0000 * Four(t, u, v, w)
    ensures BpfStep(prog, pc, regs) == Continue(pc + 1, regs[prog[pc].dst :=
      match (prog[pc].imm, prog[pc].code.be)
      case (16, true) => Four(q, p, 0, 0)
      case (16, false) => Four(p, q, 0, 0)
      case (32, true) => Four(s, r, q, p)
      case (32, false) => Four(p, q, r, s)
      case (_, true) => Four(w, v, u, t) + 0x1_0000_0000 * Four(s, r, q, p)
      case (_, false) => Four(p, q, r, s) + 0x1_0000_0000 * Four(t, u, v, w)])
  {
    var a, lo, hi := regs[prog[pc].dst], Four(p, q, r, s), Four(t, u, v, w);
    SwapReverses(p, q, r, s);
    SwapReverses(t, u, v, w);
    EndValue(prog[pc].code.be, prog[pc].imm, a, lo, hi);
    Bytes(p, q, r, s, lo);
  }

  lemma EndValue(be: bool, imm: U32, a: U64, lo: U32, hi: U32)
    requires a == lo + 0x1_0000_0000 * hi && imm in {16, 32, 64}
    ensures Swapped(be, imm, a) ==
      if imm == 16 then (if be then Swap16(lo) else lo % 0x1_0000)
      else if imm == 32 then (if be then Swap32(lo) else lo)
      else if be then Swap32(hi) + 0x1_0000_0000 * Swap32(lo) else a
  {
    assert Lo(a) == lo && Hi(a) == hi;
    assert a % 0x1_0000 == lo % 0x1_0000;
  }
}
