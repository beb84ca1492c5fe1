/** BPF programs and their meaning, as the interpreter of bpf/kbpf.c gives it. */
module Bpf {
  import opened Words
  import opened Reach

  datatype AluOp = BADD | BSUB | BMUL | BDIV | BOR | BAND | BLSH | BRSH | BNEG | BMOD | BXOR | BMOV | BARSH
  datatype JmpOp = JEQ | JNE | JGT | JLT | JGE | JLE | JSGT | JSLT | JSGE | JSLE | JSET

  /** `x` selects the source register (BPF_X) or the immediate (BPF_K); `Other` is every opcode
      the model gives no meaning: loads, stores and the code of LD_IMM64's second slot. */
  datatype Code =
    | Alu64(op: AluOp, x: bool)
    | Alu32(op: AluOp, x: bool)
    | End(be: bool)
    | Jmp64(jop: JmpOp, x: bool)
    | Jmp32(jop: JmpOp, x: bool)
    | Ja
    | Call
    | Exit
    | LdImm64
    | Other

  type BpfReg = r: int | 0 <= r < 12
  type BpfRegs = s: seq<U64> | |s| == 12 witness seq(12, _ => 0)

  const AX: BpfReg := 11

  /** struct bpf_insn; `imm` holds the 32 bits of the signed field. */
  datatype Insn = Insn(code: Code, dst: BpfReg, src: BpfReg, off: int, imm: U32)

  function SignExtend(imm: U32): U64 {
    Mod64(Signed32(imm))
  }

  // ---------------------------------------------------------------- arithmetic
  // None is where the C expression has no defined value: a shift by the width of its operand
  // or more, or a division by zero.

  function Op64(op: AluOp, a: U64, b: U64): Option<U64> {
    match op
    case BADD => Some(Mod64(a as int + b))
    case BSUB => Some(Mod64(a as int - b))
    case BMUL => Some(Mod64(a * b))
    case BAND => Some(Bits64(And, a, b))
    case BOR => Some(Bits64(Or, a, b))
    case BXOR => Some(Bits64(Xor, a, b))
    case BLSH => if b < 64 then Some(Mod64(Shl(a, b))) else None
    case BRSH => if b < 64 then Some(Shr(a, b)) else None
    case BARSH => if b < 64 then Some(Mod64(Shr(Signed64(a), b))) else None
    case BNEG => Some(Mod64(-(a as int)))
    case BMOV => Some(b)
    case BDIV => if b != 0 then Some(Quot(a, b)) else None
    case BMOD => if b != 0 then Some(Rem(a, b)) else None
  }

  /** 32-bit operations work on the low halves; only ARSH takes its shift amount from the whole
      source register. */
  function Op32(op: AluOp, a: U32, b: U64): Option<U32> {
    match op
    case BADD => Some(Mod32(a as int + Lo(b)))
    case BSUB => Some(Mod32(a as int - Lo(b)))
    case BMUL => Some(Mod32(a * Lo(b)))
    case BAND => Some(Bits32(And, a, Lo(b)))
    case BOR => Some(Bits32(Or, a, Lo(b)))
    case BXOR => Some(Bits32(Xor, a, Lo(b)))
    case BLSH => if Lo(b) < 32 then Some(Mod32(Shl(a, Lo(b)))) else None
    case BRSH => if Lo(b) < 32 then Some(Shr(a, Lo(b))) else None
    case BARSH => if b < 32 then Some(Mod32(Shr(Signed32(a), b))) else None
    case BNEG => Some(Mod32(-(a as int)))
    case BMOV => Some(Lo(b))
    case BDIV => if Lo(b) != 0 then Some(Quot(a, Lo(b))) else None
    case BMOD => if Lo(b) != 0 then Some(Rem(a, Lo(b))) else None
  }

  function Swap16(a: U32): U32 {
    a % 0x100 * 0x100 + a / 0x100 % 0x100
  }

  function Swap32(a: U32): U32 {
    a % 0x100 * 0x100_0000 + a / 0x100 % 0x100 * 0x1_0000 + a / 0x1_0000 % 0x100 * 0x100 + a / 0x100_0000
  }

  /** ALU_END_TO_BE and ALU_END_TO_LE on a little-endian machine; other widths do nothing. */
  function Swapped(be: bool, imm: U32, a: U64): U64 {
    match imm
    case 16 => if be then Swap16(Lo(a)) else a % 0x1_0000
    case 32 => if be then Swap32(Lo(a)) else Lo(a)
    case 64 => if be then Join(Swap32(Lo(a)), Swap32(Hi(a))) else a
    case _ => a
  }

  predicate Compare(op: JmpOp, a: int, b: int, sa: int, sb: int, common: bool) {
    match op
    case JEQ => a == b
    case JNE => a != b
    case JGT => a > b
    case JLT => a < b
    case JGE => a >= b
    case JLE => a <= b
    case JSGT => sa > sb
    case JSLT => sa < sb
    case JSGE => sa >= sb
    case JSLE => sa <= sb
    case JSET => common
  }

  predicate Jumps64(op: JmpOp, a: U64, b: U64) {
    Compare(op, a, b, Signed64(a), Signed64(b), Bits64(And, a, b) != 0)
  }

  predicate Jumps32(op: JmpOp, a: U32, b: U32) {
    Compare(op, a, b, Signed32(a), Signed32(b), Bits32(And, a, b) != 0)
  }

  // ---------------------------------------------------------------- one instruction

  function Operand(insn: Insn, x: bool, regs: BpfRegs): U64 {
    if x then regs[insn.src] else SignExtend(insn.imm)
  }

  /** DIV and MOD pass through the scratch register AX. */
  function WithAx(op: AluOp, is64: bool, a: U64, b: U64, regs: BpfRegs): BpfRegs {
    if op == BMOD && is64 && b != 0 then regs[AX := Rem(a, b)]
    else if (op == BMOD || op == BDIV) && !is64 && Lo(b) != 0 then regs[AX := Quot(Lo(a), Lo(b))]
    else regs
  }

  datatype Outcome =
    | Continue(pc: int, regs: BpfRegs)
    | Return(regs: BpfRegs)
    | Undefined

  function Write(v: Option<U64>, dst: BpfReg, pc: int, regs: BpfRegs): Outcome {
    match v
    case None => Undefined
    case Some(w) => Continue(pc + 1, regs[dst := w])
  }

  /** One turn of the dispatch loop.  Loads and stores, and running off the program, are not
      given a meaning here. */
  function BpfStep(prog: seq<Insn>, pc: int, regs: BpfRegs): Outcome {
    if !(0 <= pc < |prog|) then Undefined
    else
      var insn := prog[pc];
      match insn.code
      case Alu64(op, x) =>
        var a, b := regs[insn.dst], Operand(insn, x, regs);
        Write(Op64(op, a, b), insn.dst, pc, WithAx(op, true, a, b, regs))
      case Alu32(op, x) =>
        var a, b := regs[insn.dst], Operand(insn, x, regs);
        (match Op32(op, Lo(a), b)
         case None => Undefined
         case Some(w) => Write(Some(w), insn.dst, pc, WithAx(op, false, a, b, regs)))
      case End(be) => Write(Some(Swapped(be, insn.imm, regs[insn.dst])), insn.dst, pc, regs)
      case Jmp64(op, x) =>
        Continue(if Jumps64(op, regs[insn.dst], Operand(insn, x, regs)) then pc + insn.off + 1 else pc + 1, regs)
      case Jmp32(op, x) =>
        Continue(if Jumps32(op, Lo(regs[insn.dst]), Lo(Operand(insn, x, regs))) then pc + insn.off + 1 else pc + 1,
          regs)
      case Ja => Continue(pc + insn.off + 1, regs)
      case Call => Continue(pc + 1, regs)
      case Exit => Return(regs)
      case LdImm64 =>
        if pc + 1 < |prog| then Continue(pc + 2, regs[insn.dst := Join(prog[pc + 1].imm, insn.imm)]) else Undefined
      case Other => Undefined
  }

  // ---------------------------------------------------------------- whole programs

  predicate IsJump(code: Code) {
    code.Jmp64? || code.Jmp32? || code.Ja?
  }

  datatype BpfState = BpfState(pc: int, regs: BpfRegs)

  function BpfNext(prog: seq<Insn>, s: BpfState): Option<BpfState> {
    match BpfStep(prog, s.pc, s.regs)
    case Continue(pc, regs) => Some(BpfState(pc, regs))
    case _ => None
  }

  function BpfStepper(prog: seq<Insn>): BpfState -> Option<BpfState> {
    s => BpfNext(prog, s)
  }

  /** From `s` the program returns after `n` instructions, leaving `regs`. */
  ghost predicate ReturnsIn(prog: seq<Insn>, s: BpfState, n: nat, regs: BpfRegs) {
    exists last: BpfState ::
      ReachesIn(BpfStepper(prog), s, last, n) && BpfStep(prog, last.pc, last.regs) == Return(regs)
  }

  /** The ALU and ALU64 labels of the interpreter, on the register array. */
  method RunAlu(prog: seq<Insn>, pc: int, regs: array<U64>)
    requires regs.Length == 12 && 0 <= pc < |prog| && (prog[pc].code.Alu64? || prog[pc].code.Alu32?)
    requires BpfStep(prog, pc, regs[..]).Continue?
    modifies regs
    ensures Continue(pc + 1, regs[..]) == BpfStep(prog, pc, old(regs[..]))
  {
    var insn := prog[pc];
    var op, is64 := insn.code.op, insn.code.Alu64?;
    var a, b := regs[insn.dst], if insn.code.x then regs[insn.src] else SignExtend(insn.imm);
    if op == BMOD && is64 {
      regs[11] := Rem(a, b);
    } else if (op == BMOD || op == BDIV) && !is64 {
      regs[11] := Quot(Lo(a), Lo(b));
    }
    assert regs[..] == WithAx(op, is64, a, b, old(regs[..]));
    regs[insn.dst] := if is64 then Op64(op, a, b).value else Op32(op, Lo(a), b).value;
  }

  /** One turn of the dispatch loop, other than EXIT, on the register array. */
  method RunInsn(prog: seq<Insn>, pc: int, regs: array<U64>) returns (next: int)
    requires regs.Length == 12 && 0 <= pc < |prog|
    requires BpfStep(prog, pc, regs[..]).Continue?
    modifies regs
    ensures Continue(next, regs[..]) == BpfStep(prog, pc, old(regs[..]))
  {
    var insn := prog[pc];
    next := pc;
    match insn.code {
      case End(be) =>
        regs[insn.dst] := Swapped(be, insn.imm, regs[insn.dst]);
      case LdImm64 =>
        regs[insn.dst] := Join(prog[pc + 1].imm, insn.imm);
        next := next + 1;
      case Ja =>
        next := next + insn.off;
      case Jmp64(op, x) =>
        if Jumps64(op, regs[insn.dst], if x then regs[insn.src] else SignExtend(insn.imm)) {
          next := next + insn.off;
        }
      case Jmp32(op, x) =>
        if Jumps32(op, Lo(regs[insn.dst]), Lo(if x then regs[insn.src] else SignExtend(insn.imm))) {
          next := next + insn.off;
        }
      case Call =>
      case _ =>
        RunAlu(prog, pc, regs);
    }
    next := next + 1;
  }

  lemma ReturnsInAfter(prog: seq<Insn>, s: BpfState, n: nat, regs: BpfRegs)
    requires ReturnsIn(prog, s, n, regs)
    ensures 0 <= s.pc < |prog|
    ensures prog[s.pc].code.Exit? <==> n == 0
    ensures n == 0 ==> s.regs == regs
    ensures n > 0 ==> BpfNext(prog, s).Some? && ReturnsIn(prog, BpfNext(prog, s).value, n - 1, regs)
  {
    var last: BpfState :|
      ReachesIn(BpfStepper(prog), s, last, n) && BpfStep(prog, last.pc, last.regs) == Return(regs);
    if n > 0 {
      assert BpfStepper(prog)(s) == BpfNext(prog, s);
      assert ReachesIn(BpfStepper(prog), BpfNext(prog, s).value, last, n - 1);
    }
  }

  /** ___bpf_prog_run: the dispatch loop updates the register array in place and returns R0.
      `n` and `final` describe a run that returns; for any other the loop does not end or the
      behaviour is undefined. */
  method Interpret(prog: seq<Insn>, regs: array<U64>, ghost n: nat, ghost final: BpfRegs) returns (r0: U64)
    requires regs.Length == 12 && ReturnsIn(prog, BpfState(0, regs[..]), n, final)
    modifies regs
    ensures regs[..] == final && r0 == final[0]
  {
    var pc := 0;
    ghost var left := n;
    ReturnsInAfter(prog, BpfState(pc, regs[..]), left, final);
    while !prog[pc].code.Exit?
      invariant 0 <= pc < |prog| && (prog[pc].code.Exit? <==> left == 0)
      invariant ReturnsIn(prog, BpfState(pc, regs[..]), left, final)
      decreases left
    {
      ReturnsInAfter(prog, BpfState(pc, regs[..]), left, final);
      pc := RunInsn(prog, pc, regs);
      left := left - 1;
      ReturnsInAfter(prog, BpfState(pc, regs[..]), left, final);
    }
    ReturnsInAfter(prog, BpfState(pc, regs[..]), left, final);
    return regs[0];
  }
}
