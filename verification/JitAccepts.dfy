/** Exactly which programs the compiler accepts. */
module JitAccepts {
  import opened Words
  import opened Bpf
  import opened JitEmit
  import opened JitLayout
  import opened JitProgram
  import opened JitCompiler

  /** The distance the first pass sees, in instructions: offsets of this instruction and of those
      after it are still zero, so a jump back is measured from the start of the body. */
  function FirstDistance(prog: seq<Insn>, sizes: seq<nat>, i: nat): int
    requires i < |prog| == |sizes| && GoodTarget(prog, i, prog[i].off)
  {
    if prog[i].off < 0 then Start(sizes, i + prog[i].off + 1) + 1 else 1
  }

  /** What makes instruction `i` acceptable in both passes. */
  predicate Accepted(prog: seq<Insn>, sizes: seq<nat>, i: nat)
    requires i < |prog| == |sizes| && GoodInsn(prog, i)
  {
    match prog[i].code
    case Alu64(op, _) => op != BDIV && op != BMOD
    case End(_) => prog[i].imm == 16 || prog[i].imm == 32 || prog[i].imm == 64
    case Jmp64(_, _) => Is13b(4 * Distance(prog, sizes, i)) && Is13b(4 * FirstDistance(prog, sizes, i))
    case Jmp32(_, _) => Is13b(4 * Distance(prog, sizes, i)) && Is13b(4 * FirstDistance(prog, sizes, i))
    case Ja => Is21b(4 * Distance(prog, sizes, i)) && Is21b(4 * FirstDistance(prog, sizes, i))
    case Exit =>
      || i == |prog| - 1
      || (Is21b(4 * (Start(sizes, |prog|) - Start(sizes, i))) && Is21b(-4 * Start(sizes, i)))
    case _ => true
  }

  ghost predicate AcceptedAt(prog: seq<Insn>, sizes: seq<nat>, i: nat)
    requires i < |prog| == |sizes|
  {
    GoodInsn(prog, i) && Accepted(prog, sizes, i)
  }

  ghost predicate AllAccepted(prog: seq<Insn>, sizes: seq<nat>)
    requires |prog| == |sizes|
  {
    forall i {:trigger AcceptedAt(prog, sizes, i)} :: 0 <= i < |prog| && !Second(prog, i) ==> AcceptedAt(prog, sizes, i)
  }

  lemma CountingOffset(prog: seq<Insn>, sizes: seq<nat>, i: nat, vz: bool)
    requires i < |prog| == |sizes| && !Second(prog, i) && IsJump(prog[i].code) && GoodInsn(prog, i)
    ensures RvOffset(Counting(prog, sizes, i, vz), i + prog[i].off, i) == 4 * FirstDistance(prog, sizes, i)
  {
    var offset, to := Offsets(prog, sizes, i), i + prog[i].off;
    assert offset[i] == 0;
    if to < i {
      assert !(prog[to].code.LdImm64? && !Second(prog, to)) by {
        assert !Second(prog, to + 1);
      }
      assert offset[to] == Start(sizes, to + 1);
    }
  }

  /** An instruction goes through both passes just when it is acceptable. */
  lemma AcceptedIs(prog: seq<Insn>, sizes: seq<nat>, i: nat, base: nat, vz: bool)
    requires i < |prog| == |sizes| && !Second(prog, i) && GoodInsn(prog, i)
    ensures Accepted(prog, sizes, i) <==> Counts(prog, sizes, i, vz) && Final1(prog, sizes, i, base, vz).Some?
  {
    if IsJump(prog[i].code) {
      CountingOffset(prog, sizes, i, vz);
      JumpOffset(prog, sizes, i, base, vz);
    } else if prog[i].code.Exit? {
      ExitOffset(prog, sizes, i, base, vz);
    }
  }

  ghost predicate EmittedAt(prog: seq<Insn>, sizes: seq<nat>, i: nat, base: nat, vz: bool) {
    i < |prog| == |sizes| && (Second(prog, i) || Final1(prog, sizes, i, base, vz).Some?)
  }

  lemma BodyNext(prog: seq<Insn>, sizes: seq<nat>, n: nat, base: nat, vz: bool)
    requires n < |prog| == |sizes|
    ensures Body(prog, sizes, n + 1, base, vz).Some? <==>
      Body(prog, sizes, n, base, vz).Some? && EmittedAt(prog, sizes, n, base, vz)
  {
  }

  ghost predicate EmittedUpTo(prog: seq<Insn>, sizes: seq<nat>, n: nat, base: nat, vz: bool) {
    forall i {:trigger EmittedAt(prog, sizes, i, base, vz)} :: 0 <= i < n ==> EmittedAt(prog, sizes, i, base, vz)
  }

  lemma OneFurther(prog: seq<Insn>, sizes: seq<nat>, n: nat, base: nat, vz: bool, ok: bool)
    requires ok <==> EmittedAt(prog, sizes, n, base, vz)
    ensures EmittedUpTo(prog, sizes, n + 1, base, vz) <==> EmittedUpTo(prog, sizes, n, base, vz) && ok
  {
  }

  lemma {:induction false} BodySomeIs(prog: seq<Insn>, sizes: seq<nat>, n: nat, base: nat, vz: bool)
    requires n <= |prog| == |sizes|
    ensures Body(prog, sizes, n, base, vz).Some? <==> EmittedUpTo(prog, sizes, n, base, vz)
  {
    if n > 0 {
      BodySomeIs(prog, sizes, n - 1, base, vz);
      BodyNext(prog, sizes, n - 1, base, vz);
      OneFurther(prog, sizes, n - 1, base, vz, EmittedAt(prog, sizes, n - 1, base, vz));
    }
  }

  /** Compilation succeeds just when every instruction is acceptable: no 64-bit DIV or MOD, byte
      orders of 16, 32 or 64 bits, and jumps in range in both passes. */
  lemma CompilesIff(prog: seq<Insn>, prologue: seq<U32>, epilogue: seq<U32>, vz: bool)
    requires Verified(prog)
    ensures CompiledWords(prog, prologue, epilogue, vz).Some? <==> AllAccepted(prog, Sizes(prog, vz))
  {
    var sizes, base := Sizes(prog, vz), |prologue|;
    BodySomeIs(prog, sizes, |prog|, base, vz);
    forall i | 0 <= i < |prog| && !Second(prog, i)
      ensures AcceptedAt(prog, sizes, i) <==> Counts(prog, sizes, i, vz) && EmittedAt(prog, sizes, i, base, vz)
    {
      assert GoodInsn(prog, i);
      AcceptedIs(prog, sizes, i, base, vz);
    }
  }

  // ---------------------------------------------------------------- short jumps back, far into a program

  /** A conditional jump back is refused wherever its target lies 1023 or more instructions into the
      body, however near the jump. */
  lemma BackRefused(prog: seq<Insn>, i: nat, prologue: seq<U32>, epilogue: seq<U32>, vz: bool)
    requires Verified(prog) && i < |prog| && !Second(prog, i) && GoodInsn(prog, i)
    requires (prog[i].code.Jmp64? || prog[i].code.Jmp32?) && prog[i].off < 0
    requires Start(Sizes(prog, vz), i + prog[i].off + 1) >= 1023
    ensures CompiledWords(prog, prologue, epilogue, vz).None?
  {
    CompilesIff(prog, prologue, epilogue, vz);
    assert !AcceptedAt(prog, Sizes(prog, vz), i);
  }

  const STAY := Insn(Ja, 0, 0, 0, 0)
  const BACK := Insn(Jmp32(JEQ, true), 1, 2, -2, 0)
  const LEAVE := Insn(Exit, 0, 0, 0, 0)

  /** `n` jumps to the next instruction, a conditional jump back by one, EXIT. */
  function BackProgram(n: nat): (prog: seq<Insn>)
    ensures |prog| == n + 2 && prog[n] == BACK && prog[n + 1] == LEAVE && forall i :: 0 <= i < n ==> prog[i] == STAY
  {
    seq(n, _ => STAY) + [BACK, LEAVE]
  }

  lemma {:induction false} BackStarts(n: nat, sizes: seq<nat>, i: nat)
    requires n == 1024 && SizesOf(BackProgram(n), sizes, false) && i <= n + 1
    ensures Start(sizes, i) == i
    decreases i
  {
    if i > 0 {
      BackStarts(n, sizes, i - 1);
      assert HasSize(BackProgram(n), sizes, false, i - 1);
    }
  }

  /** Its jump goes one instruction back, and the compiler refuses it. */
  lemma BackExample(n: nat, prologue: seq<U32>, epilogue: seq<U32>)
    requires n == 1024
    ensures var prog := BackProgram(n);
      && Verified(prog) && GoodTarget(prog, n, -2) && Distance(prog, Sizes(prog, false), n) == -1
      && CompiledWords(prog, prologue, epilogue, false).None?
  {
    var prog := BackProgram(n);
    var sizes := Sizes(prog, false);
    assert forall i :: 0 <= i <= n + 2 ==> !Second(prog, i);
    assert GoodInsn(prog, n);
    BackStarts(n, sizes, n - 1);
    BackStarts(n, sizes, n + 1);
    BackRefused(prog, n, prologue, epilogue, false);
  }
}
