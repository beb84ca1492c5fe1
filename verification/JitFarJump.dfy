/** A program the compiler accepts and gets wrong: a compare over 1022 instructions. */
module JitFarJump {
  import opened Words
  import opened Reach
  import opened Rv32
  import opened Rv32Machine
  import opened Bpf
  import opened JitEmit
  import opened JitFrame
  import opened JitLayout
  import opened JitProgram
  import opened JitLimits

  const COMPARE := Insn(Jmp64(JNE, true), 1, 2, 1022, 0)
  const HOP := Insn(Ja, 0, 0, 0, 0)
  const LEAVE := Insn(Exit, 0, 0, 0, 0)

  /** if r1 != r2 goto the EXIT after `n` jumps to the next instruction. */
  function Program(n: nat): (prog: seq<Insn>)
    ensures |prog| == n + 2 && prog[0] == COMPARE && prog[n + 1] == LEAVE
    ensures forall i :: 0 < i <= n ==> prog[i] == HOP
  {
    [COMPARE] + seq(n, _ => HOP) + [LEAVE]
  }

  lemma ProgramVerified(n: nat)
    requires n == 1022
    ensures Verified(Program(n)) && forall i :: 0 <= i <= n + 2 ==> !Second(Program(n), i)
  {
  }

  lemma SizesAre(n: nat, sizes: seq<nat>)
    requires n == 1022 && SizesOf(Program(n), sizes, false)
    ensures sizes[0] == 2 && sizes[n + 1] == 0 && forall i :: 0 < i <= n ==> sizes[i] == 1
  {
    var prog := Program(n);
    ProgramVerified(n);
    assert HasSize(prog, sizes, false, 0) && HasSize(prog, sizes, false, n + 1);
    forall i | 0 < i <= n ensures sizes[i] == 1 {
      assert HasSize(prog, sizes, false, i);
    }
  }

  lemma {:induction false} StartsAre(n: nat, sizes: seq<nat>, i: nat)
    requires n == 1022 && SizesOf(Program(n), sizes, false) && i <= n + 2
    ensures Start(sizes, i) == if i == 0 then 0 else if i == n + 2 then n + 2 else i + 1
    decreases i
  {
    SizesAre(n, sizes);
    if i > 0 {
      StartsAre(n, sizes, i - 1);
    }
  }

  const HOPCODE := Jal(ZERO, JalField(4))

  /** What is emitted for the slots before `i`. */
  function Emitted(n: nat, i: nat): seq<Rv> {
    if i == 0 then [] else EmitJump64(COMPARE, JNE, true, 4 * (n + 1)) + seq(if i <= n then i - 1 else n, _ => HOPCODE)
  }

  lemma Final1Is(n: nat, sizes: seq<nat>, i: nat, base: nat)
    requires n == 1022 && SizesOf(Program(n), sizes, false) && i <= n + 1
    ensures Final1(Program(n), sizes, i, base, false)
         == Some(if i == 0 then EmitJump64(COMPARE, JNE, true, 4 * (n + 1)) else if i <= n then [HOPCODE] else [])
  {
    var prog := Program(n);
    ProgramVerified(n);
    assert GoodInsn(prog, i);
    if i == 0 {
      StartsAre(n, sizes, 1);
      StartsAre(n, sizes, n + 1);
      Jmp64Emitted(prog, sizes, base, i, n + 1);
    } else if i <= n {
      JumpOffset(prog, sizes, i, base, false);
    }
  }

  lemma {:induction false} BodyIs(n: nat, sizes: seq<nat>, i: nat, base: nat)
    requires n == 1022 && SizesOf(Program(n), sizes, false) && i <= n + 2
    ensures Body(Program(n), sizes, i, base, false) == Some(Emitted(n, i))
    decreases i
  {
    if i > 0 {
      ProgramVerified(n);
      BodyIs(n, sizes, i - 1, base);
      Final1Is(n, sizes, i - 1, base);
      EmittedNext(n, i);
    }
  }

  lemma EmittedNext(n: nat, i: nat)
    requires 0 < i <= n + 2
    ensures Emitted(n, i) == Emitted(n, i - 1)
      + if i == 1 then EmitJump64(COMPARE, JNE, true, 4 * (n + 1)) else if i <= n + 1 then [HOPCODE] else []
  {
  }

  lemma CountsAll(n: nat, sizes: seq<nat>, i: nat)
    requires n == 1022 && SizesOf(Program(n), sizes, false) && i <= n + 1
    ensures Counts(Program(n), sizes, i, false)
  {
    ProgramVerified(n);
    var l := Counting(Program(n), sizes, i, false);
    assert GoodInsn(Program(n), i);
    if i == 0 {
      assert l.offset[0] == 0 && l.offset[n] == 0;
      assert RvOffset(l, n, 0) == 4;
    } else if i <= n {
      assert l.offset[i] == 0;
    }
  }

  /** Both passes succeed: the distance 4 * 1023 of the last branch is in range. */
  lemma Compiles(n: nat, base: nat)
    requires n == 1022
    ensures CompilesTo(Program(n), base, false, Emitted(n, n + 2))
  {
    var prog, sizes := Program(n), Sizes(Program(n), false);
    BodyIs(n, sizes, n + 2, base);
    forall i {:trigger Counts(prog, sizes, i, false)} | 0 <= i < |prog| && !Second(prog, i)
      ensures Counts(prog, sizes, i, false) {
      CountsAll(n, sizes, i);
    }
  }

  lemma ExitsNext(n: nat, regs: BpfRegs)
    requires n == 1022 && Hi(regs[1]) != Hi(regs[2])
    ensures ReturnsIn(Program(n), BpfState(0, regs), 1, regs)
  {
    var prog, s, last := Program(n), BpfState(0, regs), BpfState(n + 1, regs);
    assert BpfNext(prog, s) == Some(last);
    assert ReachesIn(BpfStepper(prog), last, last, 0);
    assert ReachesIn(BpfStepper(prog), s, last, 1);
  }

  /** From every state in which r1 and r2 differ in their upper halves the interpreter returns;
      the compiled body never comes to its end but leaves 2048 instructions before it. */
  lemma CompiledWrong(n: nat, base: nat, body: seq<Rv>, regs: BpfRegs, m: Mach) returns (m2: Mach)
    requires n == 1022 && CompilesTo(Program(n), base, false, body) && Rel(regs, m) && Hi(regs[1]) != Hi(regs[2])
    ensures Verified(Program(n)) && ReturnsIn(Program(n), BpfState(0, regs), 1, regs)
    ensures Runs(body, Config(0, m), Config(|body| - 2048, m2))
    ensures forall m' :: !Runs(body, Config(0, m), Config(|body|, m'))
  {
    ProgramVerified(n);
    ExitsNext(n, regs);
    Compiles(n, base);
    m2 := FarGoesWrong(body, 0, COMPARE, JNE, true, n + 1, regs, m);
    forall m' ensures !Runs(body, Config(0, m), Config(|body|, m')) {
      if Runs(body, Config(0, m), Config(|body|, m')) {
        HaltsOnce(Stepper(body), Config(0, m), Config(|body|, m'), Config(|body| - 2048, m2));
      }
    }
  }

  /** Such states exist. */
  lemma CompiledWrongSomewhere(n: nat, base: nat) returns (body: seq<Rv>, regs: BpfRegs, m: Mach)
    requires n == 1022
    ensures CompilesTo(Program(n), base, false, body) && Rel(regs, m) && Hi(regs[1]) != Hi(regs[2])
  {
    Compiles(n, base);
    body := Emitted(n, n + 2);
    regs := seq(12, r => if r == 1 then Join(1, 0) else 0);
    m := StateOf(regs);
    StateOfIs(regs);
  }
}
