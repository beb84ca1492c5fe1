/** Execution of RV32IM code: one instruction, straight-line blocks, and runs of a program of
    instruction words. */
module Rv32Machine {
  import opened Words
  import opened Rv32
  import opened Reach

  /** Register x0 always reads as zero. */
  type RegFile = x: seq<U32> | |x| == 32 && x[0] == 0 witness seq(32, _ => 0)

  /** Registers and the word-aligned memory the code can reach. */
  datatype Mach = Mach(x: RegFile, mem: map<U32, U32>)

  function SetReg(x: RegFile, rd: Reg, v: U32): RegFile {
    if rd == 0 then x else x[rd := v]
  }

  function SImm(imm: Imm12): int {
    if imm < 0x800 then imm else imm - 0x1000
  }

  function Sll(a: U32, n: nat): U32 {
    Mod32(Shl(a, n))
  }

  function Srl(a: U32, n: nat): U32 {
    Shr(a, n)
  }

  function Sra(a: U32, n: nat): U32 {
    Mod32(Shr(Signed32(a), n))
  }

  function Mulhu(a: U32, b: U32): U32 {
    MulhuFits(a, b);
    (a * b) / 0x1_0000_0000
  }

  lemma MulhuFits(a: int, b: int)
    requires 0 <= a < 0x1_0000_0000 && 0 <= b < 0x1_0000_0000
    ensures 0 <= a * b <= 0xffff_ffff * 0xffff_ffff
  {
    MulMono(a, b, 0xffff_ffff);
    MulMono(0xffff_ffff, a, 0xffff_ffff);
  }

  lemma MulMono(c: int, x: int, y: int)
    requires 0 <= c && 0 <= x <= y
    ensures 0 <= c * x <= c * y
  {
  }

  function Divu(a: U32, b: U32): U32 {
    if b == 0 then 0xffff_ffff else Quot(a, b)
  }

  function Remu(a: U32, b: U32): U32 {
    if b == 0 then a else Rem(a, b)
  }

  function RegOp(op: ROp, a: U32, b: U32): U32 {
    match op
    case ADD => Mod32(a as int + b)
    case SUB => Mod32(a as int - b)
    case AND => Bits32(And, a, b)
    case OR => Bits32(Or, a, b)
    case XOR => Bits32(Xor, a, b)
    case MUL => Mod32(a * b)
    case MULHU => Mulhu(a, b)
    case DIVU => Divu(a, b)
    case REMU => Remu(a, b)
    case SLL => Sll(a, b % 32)
    case SRL => Srl(a, b % 32)
    case SRA => Sra(a, b % 32)
    case SLTU => if a < b then 1 else 0
  }

  function ImmOp(op: IOp, a: U32, imm: Imm12): U32 {
    match op
    case ADDI => Mod32(a as int + SImm(imm))
    case ANDI => Bits32(And, a, Mod32(SImm(imm)))
    case SLLI => Sll(a, imm % 32)
    case SRLI => Srl(a, imm % 32)
    case SRAI => Sra(a, imm % 32)
  }

  /** Instructions that read and write registers only. */
  predicate RegOnly(i: Rv) {
    (i.R? || i.I? || i.Lui?) && Encodable(i)
  }

  function RegStep(i: Rv, x: RegFile): RegFile
    requires RegOnly(i)
  {
    match i
    case R(op, rd, rs1, rs2) => SetReg(x, rd, RegOp(op, x[rs1], x[rs2]))
    case I(op, rd, rs1, imm) => SetReg(x, rd, ImmOp(op, x[rs1], imm))
    case Lui(rd, imm) => SetReg(x, rd, imm * 0x1000)
  }

  function Address(x: RegFile, rs1: Reg, imm: Imm12): U32 {
    Mod32(x[rs1] as int + SImm(imm))
  }

  /** An instruction that neither branches nor jumps; None when it traps. */
  function Exec1(i: Rv, m: Mach): Option<Mach> {
    match i
    case Lw(rd, imm, rs1) =>
      var a := Address(m.x, rs1, imm);
      if a % 4 == 0 && a in m.mem then Some(Mach(SetReg(m.x, rd, m.mem[a]), m.mem)) else None
    case Sw(rs1, imm, rs2) =>
      var a := Address(m.x, rs1, imm);
      if a % 4 == 0 && a in m.mem then Some(Mach(m.x, m.mem[a := m.x[rs2]])) else None
    case Br(_, _, _, _) => None
    case Jal(_, _) => None
    case _ => if RegOnly(i) then Some(Mach(RegStep(i, m.x), m.mem)) else None
  }

  /** A straight-line block. */
  function Exec(blk: seq<Rv>, m: Mach): Option<Mach> {
    if blk == [] then Some(m)
    else
      match Exec1(blk[0], m)
      case None => None
      case Some(m1) => Exec(blk[1..], m1)
  }

  predicate Taken(op: BOp, a: U32, b: U32) {
    match op
    case BEQ => a == b
    case BNE => a != b
    case BLT => Signed32(a) < Signed32(b)
    case BGE => Signed32(a) >= Signed32(b)
    case BLTU => a < b
    case BGEU => a >= b
  }

  /** How many instructions a branch with field imm[12:1], or a jump with field imm[20:1],
      goes forward; its byte offset is twice the signed field. */
  function BranchBy(imm: Imm12): Option<int> {
    if imm % 2 == 0 then Some(SImm(imm) / 2) else None
  }

  function JumpBy(imm: Imm20): Option<int> {
    if imm % 2 == 0 then Some((if imm < 0x8_0000 then imm else imm - 0x10_0000) / 2) else None
  }

  datatype Config = Config(pc: int, m: Mach)

  /** One instruction of the program `code`; `pc` counts instructions. */
  function StepInsn(i: Rv, c: Config): Option<Config> {
    match i
    case Br(op, rs1, rs2, imm) =>
      if !Taken(op, c.m.x[rs1], c.m.x[rs2]) then Some(c.(pc := c.pc + 1))
      else
        (match BranchBy(imm)
         case None => None
         case Some(d) => Some(c.(pc := c.pc + d)))
    case Jal(rd, imm) =>
      if rd != 0 then None
      else
        (match JumpBy(imm)
         case None => None
         case Some(d) => Some(c.(pc := c.pc + d)))
    case _ =>
      match Exec1(i, c.m)
      case None => None
      case Some(m1) => Some(Config(c.pc + 1, m1))
  }

  /** One step of a program given as instructions. */
  function Step(code: seq<Rv>, c: Config): Option<Config> {
    if 0 <= c.pc < |code| then StepInsn(code[c.pc], c) else None
  }

  function Stepper(code: seq<Rv>): Config -> Option<Config> {
    c => Step(code, c)
  }

  /** Running `code` takes the hart from one configuration to the other. */
  ghost predicate Runs(code: seq<Rv>, c: Config, c': Config) {
    Reaches(Stepper(code), c, c')
  }

  lemma RunsTrans(code: seq<Rv>, c: Config, c': Config, c'': Config)
    requires Runs(code, c, c') && Runs(code, c', c'')
    ensures Runs(code, c, c'')
  {
    ReachesTrans(Stepper(code), c, c', c'');
  }

  /** The block `blk` is found at index `at` of the program. */
  ghost predicate CodeAt(code: seq<Rv>, at: int, blk: seq<Rv>) {
    0 <= at && at + |blk| <= |code| && code[at..at + |blk|] == blk
  }

  lemma StepAt(code: seq<Rv>, at: int, blk: seq<Rv>, c: Config)
    requires CodeAt(code, at, blk) && at <= c.pc < at + |blk| && StepInsn(blk[c.pc - at], c).Some?
    ensures Runs(code, c, StepInsn(blk[c.pc - at], c).value)
  {
    assert code[c.pc] == code[at..at + |blk|][c.pc - at];
    ReachesStep(Stepper(code), c);
  }

  lemma CodeAtPart(code: seq<Rv>, at: int, a: seq<Rv>, b: seq<Rv>)
    requires CodeAt(code, at, a + b)
    ensures CodeAt(code, at, a) && CodeAt(code, at + |a|, b)
  {
    assert code[at..at + |a|] == (a + b)[..|a|];
    assert code[at + |a|..at + |a| + |b|] == (a + b)[|a|..];
  }

  // ---------------------------------------------------------------- instruction words

  function EncodeAll(code: seq<Rv>): (words: seq<U32>)
    ensures |words| == |code| && forall k :: 0 <= k < |code| ==> words[k] == Encode(code[k])
  {
    seq(|code|, k requires 0 <= k < |code| => Encode(code[k]))
  }

  /** One step of the hart on memory holding instruction words. */
  function WordStep(words: seq<U32>, c: Config): Option<Config> {
    if !(0 <= c.pc < |words|) then None
    else
      match Decode(words[c.pc])
      case None => None
      case Some(i) => StepInsn(i, c)
  }

  function WordStepper(words: seq<U32>): Config -> Option<Config> {
    c => WordStep(words, c)
  }

  /** From index `at` on, the words decode to the instructions of `code`. */
  ghost predicate Loaded(words: seq<U32>, at: nat, code: seq<Rv>) {
    && at + |code| <= |words|
    && forall k {:trigger code[k]} :: 0 <= k < |code| && Encodable(code[k]) ==> Decode(words[at + k]) == Some(code[k])
  }

  lemma EncodedIsLoaded(pre: seq<U32>, code: seq<Rv>, post: seq<U32>)
    ensures Loaded(pre + EncodeAll(code) + post, |pre|, code)
  {
    var words := pre + EncodeAll(code) + post;
    forall k {:trigger code[k]} | 0 <= k < |code| && Encodable(code[k])
      ensures Decode(words[|pre| + k]) == Some(code[k]) {
      assert words[|pre| + k] == Encode(code[k]);
      DecodeEncode(code[k]);
    }
  }

  lemma StepInsnShift(i: Rv, c: Config, d: nat)
    requires StepInsn(i, c).Some?
    ensures StepInsn(i, Config(c.pc + d, c.m)) == Some(Config(StepInsn(i, c).value.pc + d, StepInsn(i, c).value.m))
  {
  }

  function Behind(k: nat): Config -> Config {
    (c: Config) => Config(c.pc + k, c.m)
  }

  lemma WordsCommuteAt(words: seq<U32>, at: nat, code: seq<Rv>, d: Config, d': Config)
    requires Loaded(words, at, code) && Step(code, d) == Some(d')
    ensures WordStep(words, Config(d.pc + at, d.m)) == Some(Config(d'.pc + at, d'.m))
  {
    assert Encodable(code[d.pc]);
    assert Decode(words[at + d.pc]) == Some(code[d.pc]);
    StepInsnShift(code[d.pc], d, at);
  }

  lemma WordsCommuteOnce(words: seq<U32>, at: nat, code: seq<Rv>, d: Config, d': Config)
    requires Loaded(words, at, code) && Stepper(code)(d) == Some(d')
    ensures WordStepper(words)(Behind(at)(d)) == Some(Behind(at)(d'))
  {
    WordsCommuteAt(words, at, code, d, d');
  }

  lemma WordsCommute(words: seq<U32>, at: nat, code: seq<Rv>)
    requires Loaded(words, at, code)
    ensures Commutes(Stepper(code), WordStepper(words), Behind(at))
  {
    forall d: Config {:trigger Stepper(code)(d)} | Stepper(code)(d).Some?
      ensures WordStepper(words)(Behind(at)(d)) == Some(Behind(at)(Stepper(code)(d).value))
    {
      WordsCommuteOnce(words, at, code, d, Stepper(code)(d).value);
    }
  }

  /** Encoded, placed behind `pre` and decoded again, a program runs as it did. */
  lemma RunsAsWords(pre: seq<U32>, code: seq<Rv>, post: seq<U32>, c: Config, c': Config)
    requires Runs(code, c, c')
    ensures Reaches(WordStepper(pre + EncodeAll(code) + post), Behind(|pre|)(c), Behind(|pre|)(c'))
  {
    EncodedIsLoaded(pre, code, post);
    WordsCommute(pre + EncodeAll(code) + post, |pre|, code);
    RunsMapped(Stepper(code), WordStepper(pre + EncodeAll(code) + post), Behind(|pre|), c, c');
  }

  /** Running through a straight-line block. */
  lemma {:induction false} RunBlock(code: seq<Rv>, at: int, blk: seq<Rv>, m: Mach)
    requires CodeAt(code, at, blk) && Exec(blk, m).Some?
    ensures Runs(code, Config(at, m), Config(at + |blk|, Exec(blk, m).value))
    decreases |blk|
  {
    if blk == [] {
      ReachesSelf(Stepper(code), Config(at, m));
    } else {
      var m1 := Exec1(blk[0], m).value;
      StepAt(code, at, blk, Config(at, m));
      assert blk == [blk[0]] + blk[1..];
      CodeAtPart(code, at, [blk[0]], blk[1..]);
      RunBlock(code, at + 1, blk[1..], m1);
      RunsTrans(code, Config(at, m), Config(at + 1, m1), Config(at + |blk|, Exec(blk, m).value));
    }
  }

  lemma {:induction false} ExecConcat(a: seq<Rv>, b: seq<Rv>, m: Mach)
    requires Exec(a, m).Some?
    ensures Exec(a + b, m) == Exec(b, Exec(a, m).value)
    decreases |a|
  {
    if a == [] {
      assert a + b == b;
    } else {
      ExecConcat(a[1..], b, Exec1(a[0], m).value);
      assert (a + b)[1..] == a[1..] + b;
    }
  }

  // Register-only blocks of known length, unrolled.

  ghost predicate AllRegOnly(blk: seq<Rv>) {
    forall k :: 0 <= k < |blk| ==> RegOnly(blk[k])
  }

  function RegExec(blk: seq<Rv>, x: RegFile): RegFile
    requires AllRegOnly(blk)
  {
    if blk == [] then x else RegExec(blk[1..], RegStep(blk[0], x))
  }

  lemma {:induction false} ExecRegOnly(blk: seq<Rv>, m: Mach)
    requires AllRegOnly(blk)
    ensures Exec(blk, m) == Some(Mach(RegExec(blk, m.x), m.mem))
    decreases |blk|
  {
    if blk != [] {
      ExecRegOnly(blk[1..], Mach(RegStep(blk[0], m.x), m.mem));
    }
  }

  lemma {:induction false} RegExecConcat(a: seq<Rv>, b: seq<Rv>, x: RegFile)
    requires AllRegOnly(a) && AllRegOnly(b)
    ensures AllRegOnly(a + b) && RegExec(a + b, x) == RegExec(b, RegExec(a, x))
    decreases |a|
  {
    if a == [] {
      assert a + b == b;
    } else {
      RegExecConcat(a[1..], b, RegStep(a[0], x));
      assert (a + b)[1..] == a[1..] + b;
    }
  }

  lemma RegExec1(a: Rv, x: RegFile)
    requires RegOnly(a)
    ensures AllRegOnly([a]) && RegExec([a], x) == RegStep(a, x)
  {
    assert [a][1..] == [];
  }

  lemma RegExec2(a: Rv, b: Rv, x: RegFile)
    requires RegOnly(a) && RegOnly(b)
    ensures AllRegOnly([a, b]) && RegExec([a, b], x) == RegStep(b, RegStep(a, x))
  {
    assert [a, b][1..] == [b];
    RegExec1(b, RegStep(a, x));
  }

  lemma RegExec3(a: Rv, b: Rv, c: Rv, x: RegFile)
    requires RegOnly(a) && RegOnly(b) && RegOnly(c)
    ensures AllRegOnly([a, b, c]) && RegExec([a, b, c], x) == RegStep(c, RegStep(b, RegStep(a, x)))
  {
    assert [a, b, c][1..] == [b, c];
    RegExec2(b, c, RegStep(a, x));
  }

  lemma RegExec4(a: Rv, b: Rv, c: Rv, d: Rv, x: RegFile)
    requires RegOnly(a) && RegOnly(b) && RegOnly(c) && RegOnly(d)
    ensures AllRegOnly([a, b, c, d]) && RegExec([a, b, c, d], x) == RegStep(d, RegStep(c, RegStep(b, RegStep(a, x))))
  {
    assert [a, b, c, d][1..] == [b, c, d];
    RegExec3(b, c, d, RegStep(a, x));
  }

  lemma RegExec5(a: Rv, b: Rv, c: Rv, d: Rv, e: Rv, x: RegFile)
    requires RegOnly(a) && RegOnly(b) && RegOnly(c) && RegOnly(d) && RegOnly(e)
    ensures AllRegOnly([a, b, c, d, e])
    ensures RegExec([a, b, c, d, e], x) == RegStep(e, RegStep(d, RegStep(c, RegStep(b, RegStep(a, x)))))
  {
    assert [a, b, c, d, e][1..] == [b, c, d, e];
    RegExec4(b, c, d, e, RegStep(a, x));
  }

  lemma RegExec6(a: Rv, b: Rv, c: Rv, d: Rv, e: Rv, f: Rv, x: RegFile)
    requires RegOnly(a) && RegOnly(b) && RegOnly(c) && RegOnly(d) && RegOnly(e) && RegOnly(f)
    ensures AllRegOnly([a, b, c, d, e, f])
    ensures RegExec([a, b, c, d, e, f], x)
         == RegStep(f, RegStep(e, RegStep(d, RegStep(c, RegStep(b, RegStep(a, x))))))
  {
    assert [a, b, c, d, e, f][1..] == [b, c, d, e, f];
    RegExec5(b, c, d, e, f, RegStep(a, x));
  }
}
