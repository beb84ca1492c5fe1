/** Compiled programs simulate the interpreter. */
module JitProgram {
  import opened Words
  import opened Reach
  import opened Rv32
  import opened Rv32Machine
  import opened Bpf
  import opened JitEmit
  import opened JitJump
  import opened JitFrame
  import opened JitInsn
  import opened JitLayout

  /** Compares whose upper halves never decide: of a register with itself, or with an immediate
      whose upper half, all zeros or all ones, is the least or the greatest there is. */
  predicate NeverFirst(insn: Insn, op: JmpOp, x: bool) {
    op == JEQ || if x then insn.dst == insn.src && op != JSET
      else if insn.imm < 0x8000_0000 then op == JLT || op == JLE || op == JSET
      else op == JGT || op == JGE
  }

  /** The compiler checks that the last branch of a 64-bit compare is in range.  The first, which
      stands Lead bytes before it, has to be as well, unless it is never taken. */
  predicate NearEnough(insn: Insn, op: JmpOp, x: bool, k: int) {
    Is13b(4 * k + Lead(op)) || NeverFirst(insn, op, x)
  }

  /** From the last instruction emitted for the jump `i` to the start of its target. */
  function Distance(prog: seq<Insn>, sizes: seq<nat>, i: nat): int
    requires i < |prog| == |sizes| && GoodTarget(prog, i, prog[i].off)
  {
    Start(sizes, i + prog[i].off + 1) - (Start(sizes, i + 1) - 1)
  }

  ghost predicate FarOk(prog: seq<Insn>, sizes: seq<nat>, i: nat)
    requires i < |prog| == |sizes| && GoodInsn(prog, i)
  {
    prog[i].code.Jmp64? ==> NearEnough(prog[i], prog[i].code.jop, prog[i].code.x, Distance(prog, sizes, i))
  }

  lemma NeverDecided(insn: Insn, op: JmpOp, x: bool, regs: BpfRegs)
    requires NeverFirst(insn, op, x)
    ensures !Decided(op, Hi(regs[insn.dst]), Hi(Operand(insn, x, regs)))
  {
    if op == JSET {
      AndZero(Hi(regs[insn.dst]));
    }
  }

  ghost predicate FaithfulAt(prog: seq<Insn>, sizes: seq<nat>, i: nat)
    requires i < |prog| == |sizes|
  {
    GoodInsn(prog, i) && MovOk(prog[i]) && FarOk(prog, sizes, i)
  }

  /** Programs the compiler translates faithfully. */
  ghost predicate Faithful(prog: seq<Insn>, sizes: seq<nat>)
    requires |sizes| == |prog|
  {
    forall i {:trigger FaithfulAt(prog, sizes, i)} :: 0 <= i < |prog| && !Second(prog, i) ==> FaithfulAt(prog, sizes, i)
  }

  // ---------------------------------------------------------------- where the code stands

  ghost predicate Placed(prog: seq<Insn>, sizes: seq<nat>, base: nat, body: seq<Rv>, i: nat)
    requires i < |prog| == |sizes|
  {
    var e := Final1(prog, sizes, i, base, false);
    PlacedAt(body, Start(sizes, i), e) && Start(sizes, i + 1) == Start(sizes, i) + |e.value|
  }

  /** `body` is the compiled program. */
  ghost predicate Image(prog: seq<Insn>, sizes: seq<nat>, base: nat, body: seq<Rv>) {
    && |sizes| == |prog| && |body| == Start(sizes, |prog|) && SizesOf(prog, sizes, false)
    && forall i {:trigger Placed(prog, sizes, base, body, i)} ::
         0 <= i < |prog| && !Second(prog, i) ==> Placed(prog, sizes, base, body, i)
  }

  lemma BodyIsImage(prog: seq<Insn>, sizes: seq<nat>, base: nat, body: seq<Rv>)
    requires SizesOf(prog, sizes, false) && Body(prog, sizes, |prog|, base, false) == Some(body)
    ensures Image(prog, sizes, base, body)
  {
    BodyLength(prog, sizes, |prog|, base, false);
    forall i {:trigger Placed(prog, sizes, base, body, i)} | 0 <= i < |prog| && !Second(prog, i)
      ensures Placed(prog, sizes, base, body, i)
    {
      BodyAt(prog, sizes, |prog|, base, false, i);
      Final1Size(prog, sizes, i, base, false);
    }
  }

  /** The state the compiled body is in when the interpreter is in `s`. */
  ghost predicate Mirrors(prog: seq<Insn>, sizes: seq<nat>, s: BpfState, c: Config) {
    && 0 <= s.pc <= |prog| == |sizes| && !Second(prog, s.pc)
    && c.pc == Start(sizes, s.pc) && Rel(s.regs, c.m)
  }

  ghost predicate Follows(prog: seq<Insn>, sizes: seq<nat>, body: seq<Rv>, s': BpfState, c: Config, c': Config) {
    Runs(body, c, c') && Mirrors(prog, sizes, s', c') && Outside(c.m, c'.m)
  }

  // ---------------------------------------------------------------- one instruction

  lemma NearIsReach(insn: Insn, op: JmpOp, x: bool, k: int, regs: BpfRegs)
    requires NearEnough(insn, op, x, k)
    ensures InReach(op, Hi(regs[insn.dst]), Hi(Operand(insn, x, regs)), k)
  {
    if NeverFirst(insn, op, x) {
      NeverDecided(insn, op, x, regs);
    }
  }

  lemma Jmp64Emitted(prog: seq<Insn>, sizes: seq<nat>, base: nat, i: nat, k: int)
    requires i < |prog| == |sizes| && GoodInsn(prog, i) && !Second(prog, i) && prog[i].code.Jmp64?
    requires k == Start(sizes, i + prog[i].off + 1) - (Start(sizes, i + 1) - 1)
    ensures Final1(prog, sizes, i, base, false)
         == if Is13b(4 * k) then Some(EmitJump64(prog[i], prog[i].code.jop, prog[i].code.x, 4 * k)) else None
  {
    JumpOffset(prog, sizes, i, base, false);
  }

  lemma Jmp64Place(prog: seq<Insn>, sizes: seq<nat>, base: nat, body: seq<Rv>, i: nat) returns (k: int, blk: seq<Rv>)
    requires Verified(prog) && Image(prog, sizes, base, body) && i < |prog| && !Second(prog, i)
    requires prog[i].code.Jmp64? && FaithfulAt(prog, sizes, i)
    ensures prog[i].dst <= 10 && prog[i].src <= 10 && Is13b(4 * k)
    ensures NearEnough(prog[i], prog[i].code.jop, prog[i].code.x, k)
    ensures GoodTarget(prog, i, prog[i].off) && Start(sizes, i + prog[i].off + 1) == Start(sizes, i + 1) - 1 + k
    ensures blk == EmitJump64(prog[i], prog[i].code.jop, prog[i].code.x, 4 * k)
    ensures CodeAt(body, Start(sizes, i), blk) && Start(sizes, i + 1) == Start(sizes, i) + |blk|
  {
    assert GoodInsn(prog, i) && Placed(prog, sizes, base, body, i);
    k := Start(sizes, i + prog[i].off + 1) - (Start(sizes, i + 1) - 1);
    Jmp64Emitted(prog, sizes, base, i, k);
    blk := Final1(prog, sizes, i, base, false).value;
  }

  lemma NextJmp64(prog: seq<Insn>, s: BpfState, goes: bool)
    requires 0 <= s.pc < |prog| && prog[s.pc].code.Jmp64?
    requires var i := prog[s.pc]; goes == Jumps64(i.code.jop, s.regs[i.dst], Operand(i, i.code.x, s.regs))
    ensures BpfNext(prog, s) == Some(BpfState(if goes then s.pc + prog[s.pc].off + 1 else s.pc + 1, s.regs))
  {
  }

  lemma Jmp64Arrives(prog: seq<Insn>, sizes: seq<nat>, base: nat, body: seq<Rv>, s: BpfState, m: Mach, at: int, pc: int)
    returns (m': Mach)
    requires Verified(prog) && Image(prog, sizes, base, body) && Rel(s.regs, m)
    requires 0 <= s.pc < |prog| && !Second(prog, s.pc) && prog[s.pc].code.Jmp64? && FaithfulAt(prog, sizes, s.pc)
    requires GoodTarget(prog, s.pc, prog[s.pc].off) && at == Start(sizes, s.pc)
    requires var i := prog[s.pc];
      pc == Start(sizes, s.pc + 1 + if Jumps64(i.code.jop, s.regs[i.dst], Operand(i, i.code.x, s.regs)) then i.off
        else 0)
    ensures Arrives(body, at, m, pc, m', s.regs)
  {
    var k, blk := Jmp64Place(prog, sizes, base, body, s.pc);
    NearIsReach(prog[s.pc], prog[s.pc].code.jop, prog[s.pc].code.x, k, s.regs);
    m' := Jmp64Runs(body, at, m, prog[s.pc], prog[s.pc].code.jop, prog[s.pc].code.x, k, blk, pc, s.regs);
  }

  lemma StepJmp64(prog: seq<Insn>, sizes: seq<nat>, base: nat, body: seq<Rv>, s: BpfState, c: Config)
    returns (c': Config)
    requires Verified(prog) && Image(prog, sizes, base, body) && Mirrors(prog, sizes, s, c)
    requires s.pc < |prog| && prog[s.pc].code.Jmp64? && FaithfulAt(prog, sizes, s.pc)
    ensures BpfNext(prog, s).Some? && Follows(prog, sizes, body, BpfNext(prog, s).value, c, c')
  {
    var i := prog[s.pc];
    var goes := Jumps64(i.code.jop, s.regs[i.dst], Operand(i, i.code.x, s.regs));
    assert GoodInsn(prog, s.pc);
    var pc := Start(sizes, s.pc + 1 + if goes then i.off else 0);
    var m' := Jmp64Arrives(prog, sizes, base, body, s, c.m, c.pc, pc);
    NextJmp64(prog, s, goes);
    c' := Config(pc, m');
  }

  lemma Jmp32Emitted(prog: seq<Insn>, sizes: seq<nat>, base: nat, i: nat, k: int)
    requires i < |prog| == |sizes| && GoodInsn(prog, i) && !Second(prog, i) && prog[i].code.Jmp32?
    requires k == Start(sizes, i + prog[i].off + 1) - (Start(sizes, i + 1) - 1)
    ensures Final1(prog, sizes, i, base, false)
         == if Is13b(4 * k) then Some(EmitJump32(prog[i], prog[i].code.jop, prog[i].code.x, 4 * k)) else None
  {
    JumpOffset(prog, sizes, i, base, false);
  }

  lemma Jmp32Place(prog: seq<Insn>, sizes: seq<nat>, base: nat, body: seq<Rv>, i: nat) returns (k: int, blk: seq<Rv>)
    requires Verified(prog) && Image(prog, sizes, base, body) && i < |prog| && !Second(prog, i) && prog[i].code.Jmp32?
    ensures prog[i].dst <= 10 && prog[i].src <= 10 && Is13b(4 * k)
    ensures GoodTarget(prog, i, prog[i].off) && Start(sizes, i + prog[i].off + 1) == Start(sizes, i + 1) - 1 + k
    ensures blk == EmitJump32(prog[i], prog[i].code.jop, prog[i].code.x, 4 * k)
    ensures CodeAt(body, Start(sizes, i), blk) && Start(sizes, i + 1) == Start(sizes, i) + |blk|
  {
    assert GoodInsn(prog, i) && Placed(prog, sizes, base, body, i);
    k := Start(sizes, i + prog[i].off + 1) - (Start(sizes, i + 1) - 1);
    Jmp32Emitted(prog, sizes, base, i, k);
    blk := Final1(prog, sizes, i, base, false).value;
  }

  lemma NextJmp32(prog: seq<Insn>, s: BpfState, goes: bool)
    requires 0 <= s.pc < |prog| && prog[s.pc].code.Jmp32?
    requires var i := prog[s.pc]; goes == Jumps32(i.code.jop, Lo(s.regs[i.dst]), Lo(Operand(i, i.code.x, s.regs)))
    ensures BpfNext(prog, s) == Some(BpfState(if goes then s.pc + prog[s.pc].off + 1 else s.pc + 1, s.regs))
  {
  }

  lemma Jmp32Arrives(prog: seq<Insn>, sizes: seq<nat>, base: nat, body: seq<Rv>, s: BpfState, m: Mach, at: int, pc: int)
    returns (m': Mach)
    requires Verified(prog) && Image(prog, sizes, base, body) && Rel(s.regs, m)
    requires 0 <= s.pc < |prog| && !Second(prog, s.pc) && prog[s.pc].code.Jmp32?
    requires GoodTarget(prog, s.pc, prog[s.pc].off) && at == Start(sizes, s.pc)
    requires var i := prog[s.pc];
      pc == Start(sizes, s.pc + 1
        + if Jumps32(i.code.jop, Lo(s.regs[i.dst]), Lo(Operand(i, i.code.x, s.regs))) then i.off else 0)
    ensures Arrives(body, at, m, pc, m', s.regs)
  {
    var k, blk := Jmp32Place(prog, sizes, base, body, s.pc);
    m' := Jmp32Runs(body, at, m, prog[s.pc], prog[s.pc].code.jop, prog[s.pc].code.x, k, blk, pc, s.regs);
  }

  lemma StepJmp32(prog: seq<Insn>, sizes: seq<nat>, base: nat, body: seq<Rv>, s: BpfState, c: Config)
    returns (c': Config)
    requires Verified(prog) && Image(prog, sizes, base, body) && Mirrors(prog, sizes, s, c)
    requires s.pc < |prog| && prog[s.pc].code.Jmp32?
    ensures BpfNext(prog, s).Some? && Follows(prog, sizes, body, BpfNext(prog, s).value, c, c')
  {
    var i := prog[s.pc];
    var goes := Jumps32(i.code.jop, Lo(s.regs[i.dst]), Lo(Operand(i, i.code.x, s.regs)));
    assert GoodInsn(prog, s.pc);
    var pc := Start(sizes, s.pc + 1 + if goes then i.off else 0);
    var m' := Jmp32Arrives(prog, sizes, base, body, s, c.m, c.pc, pc);
    NextJmp32(prog, s, goes);
    c' := Config(pc, m');
  }

  lemma JaPlace(prog: seq<Insn>, sizes: seq<nat>, base: nat, body: seq<Rv>, i: nat) returns (k: int)
    requires Verified(prog) && Image(prog, sizes, base, body) && i < |prog| && !Second(prog, i) && prog[i].code.Ja?
    ensures GoodTarget(prog, i, prog[i].off) && Start(sizes, i + prog[i].off + 1) == Start(sizes, i) + k
    ensures Is21b(4 * k) && CodeAt(body, Start(sizes, i), [Jal(ZERO, JalField(4 * k))])
  {
    assert GoodInsn(prog, i) && Placed(prog, sizes, base, body, i);
    JumpOffset(prog, sizes, i, base, false);
    k := Start(sizes, i + prog[i].off + 1) - (Start(sizes, i + 1) - 1);
  }

  lemma StepJa(prog: seq<Insn>, sizes: seq<nat>, base: nat, body: seq<Rv>, s: BpfState, c: Config) returns (c': Config)
    requires Verified(prog) && Image(prog, sizes, base, body) && Mirrors(prog, sizes, s, c)
    requires s.pc < |prog| && prog[s.pc].code.Ja?
    ensures BpfNext(prog, s).Some? && Follows(prog, sizes, body, BpfNext(prog, s).value, c, c')
  {
    var k := JaPlace(prog, sizes, base, body, s.pc);
    JalArrives(body, c.pc, c.m, k, s.regs);
    c' := Config(c.pc + k, c.m);
  }

  lemma Alu64Place(prog: seq<Insn>, sizes: seq<nat>, base: nat, body: seq<Rv>, i: nat, insn: Insn)
    returns (blk: seq<Rv>)
    requires Verified(prog) && Image(prog, sizes, base, body) && i < |prog| && !Second(prog, i)
    requires insn == prog[i] && insn.code.Alu64?
    ensures insn.dst <= 10 && insn.src <= 10 && EmitAlu64(insn, insn.code.op, insn.code.x) == Some(blk)
    ensures CodeAt(body, Start(sizes, i), blk) && Start(sizes, i + 1) == Start(sizes, i) + |blk|
  {
    assert GoodInsn(prog, i) && Placed(prog, sizes, base, body, i);
    blk := Final1(prog, sizes, i, base, false).value;
  }

  lemma Alu32Place(prog: seq<Insn>, sizes: seq<nat>, base: nat, body: seq<Rv>, i: nat, insn: Insn)
    returns (blk: seq<Rv>)
    requires Verified(prog) && Image(prog, sizes, base, body) && i < |prog| && !Second(prog, i)
    requires insn == prog[i] && insn.code.Alu32?
    ensures insn.dst <= 10 && insn.src <= 10 && EmitAlu32(insn, insn.code.op, insn.code.x, false) == blk
    ensures CodeAt(body, Start(sizes, i), blk) && Start(sizes, i + 1) == Start(sizes, i) + |blk|
  {
    assert GoodInsn(prog, i) && Placed(prog, sizes, base, body, i);
    blk := Final1(prog, sizes, i, base, false).value;
  }

  lemma NextAlu64(prog: seq<Insn>, s: BpfState)
    requires 0 <= s.pc < |prog| && BpfNext(prog, s).Some? && prog[s.pc].code.Alu64?
    ensures var i := prog[s.pc];
      && Op64(i.code.op, s.regs[i.dst], Operand(i, i.code.x, s.regs)).Some?
      && BpfNext(prog, s) == Some(BpfState(s.pc + 1, After64(i, i.code.op, i.code.x, s.regs)))
  {
  }

  lemma NextAlu32(prog: seq<Insn>, s: BpfState)
    requires 0 <= s.pc < |prog| && BpfNext(prog, s).Some? && prog[s.pc].code.Alu32?
    ensures var i := prog[s.pc];
      && Op32(i.code.op, Lo(s.regs[i.dst]), Operand(i, i.code.x, s.regs)).Some?
      && BpfNext(prog, s) == Some(BpfState(s.pc + 1, After32(i, i.code.op, i.code.x, s.regs)))
  {
  }

  /** Wherever it stands, the block takes every state that agrees with `regs` to its end, and to a
      state that agrees with `regs'`. */
  ghost predicate Does(blk: seq<Rv>, regs: BpfRegs, regs': BpfRegs) {
    forall code: seq<Rv>, at: int, m: Mach {:trigger Rel(regs, m), CodeAt(code, at, blk)} ::
      Rel(regs, m) && CodeAt(code, at, blk) ==> Ends(code, at, m, at + |blk|, regs')
  }

  ghost predicate Ends(code: seq<Rv>, at: int, m: Mach, to: int, regs': BpfRegs) {
    exists m' :: Arrives(code, at, m, to, m', regs')
  }

  lemma Alu64Does(insn: Insn, blk: seq<Rv>, regs: BpfRegs, regs': BpfRegs)
    requires insn.dst <= 10 && insn.src <= 10 && MovOk(insn)
    requires insn.code.Alu64? && EmitAlu64(insn, insn.code.op, insn.code.x) == Some(blk)
    requires Op64(insn.code.op, regs[insn.dst], Operand(insn, insn.code.x, regs)).Some?
    requires regs' == After64(insn, insn.code.op, insn.code.x, regs)
    ensures Does(blk, regs, regs')
  {
    forall code: seq<Rv>, at: int, m: Mach {:trigger Rel(regs, m), CodeAt(code, at, blk)} | Rel(regs, m)
      && CodeAt(code, at, blk)
      ensures Ends(code, at, m, at + |blk|, regs')
    {
      var m' := Alu64Runs(code, at, m, insn, regs);
    }
  }

  lemma Alu64Effect(prog: seq<Insn>, sizes: seq<nat>, base: nat, body: seq<Rv>, i: nat, insn: Insn, regs: BpfRegs,
                    regs': BpfRegs)
    returns (blk: seq<Rv>)
    requires Verified(prog) && Image(prog, sizes, base, body) && i < |prog| && !Second(prog, i)
    requires insn == prog[i] && insn.code.Alu64? && MovOk(insn)
    requires Op64(insn.code.op, regs[insn.dst], Operand(insn, insn.code.x, regs)).Some?
    requires regs' == After64(insn, insn.code.op, insn.code.x, regs)
    ensures CodeAt(body, Start(sizes, i), blk) && Start(sizes, i + 1) == Start(sizes, i) + |blk|
    ensures Does(blk, regs, regs')
  {
    blk := Alu64Place(prog, sizes, base, body, i, insn);
    Alu64Does(insn, blk, regs, regs');
  }

  lemma StepAlu64(prog: seq<Insn>, sizes: seq<nat>, base: nat, body: seq<Rv>, s: BpfState, c: Config)
    returns (c': Config)
    requires Verified(prog) && Image(prog, sizes, base, body) && Mirrors(prog, sizes, s, c)
    requires s.pc < |prog| && prog[s.pc].code.Alu64? && MovOk(prog[s.pc]) && BpfNext(prog, s).Some?
    ensures Follows(prog, sizes, body, BpfNext(prog, s).value, c, c')
  {
    var s' := BpfNext(prog, s).value;
    NextAlu64(prog, s);
    var blk := Alu64Effect(prog, sizes, base, body, s.pc, prog[s.pc], s.regs, s'.regs);
    assert Ends(body, c.pc, c.m, c.pc + |blk|, s'.regs);
    var m' :| Arrives(body, c.pc, c.m, c.pc + |blk|, m', s'.regs);
    c' := Config(c.pc + |blk|, m');
  }

  lemma Alu32Does(insn: Insn, blk: seq<Rv>, regs: BpfRegs, regs': BpfRegs)
    requires insn.dst <= 10 && insn.src <= 10 && MovOk(insn)
    requires insn.code.Alu32? && EmitAlu32(insn, insn.code.op, insn.code.x, false) == blk
    requires Op32(insn.code.op, Lo(regs[insn.dst]), Operand(insn, insn.code.x, regs)).Some?
    requires regs' == After32(insn, insn.code.op, insn.code.x, regs)
    ensures Does(blk, regs, regs')
  {
    forall code: seq<Rv>, at: int, m: Mach {:trigger Rel(regs, m), CodeAt(code, at, blk)} | Rel(regs, m)
      && CodeAt(code, at, blk)
      ensures Ends(code, at, m, at + |blk|, regs')
    {
      var m' := Alu32Runs(code, at, m, insn, regs);
    }
  }

  lemma Alu32Effect(prog: seq<Insn>, sizes: seq<nat>, base: nat, body: seq<Rv>, i: nat, insn: Insn, regs: BpfRegs,
                    regs': BpfRegs)
    returns (blk: seq<Rv>)
    requires Verified(prog) && Image(prog, sizes, base, body) && i < |prog| && !Second(prog, i)
    requires insn == prog[i] && insn.code.Alu32? && MovOk(insn)
    requires Op32(insn.code.op, Lo(regs[insn.dst]), Operand(insn, insn.code.x, regs)).Some?
    requires regs' == After32(insn, insn.code.op, insn.code.x, regs)
    ensures CodeAt(body, Start(sizes, i), blk) && Start(sizes, i + 1) == Start(sizes, i) + |blk|
    ensures Does(blk, regs, regs')
  {
    blk := Alu32Place(prog, sizes, base, body, i, insn);
    Alu32Does(insn, blk, regs, regs');
  }

  lemma StepAlu32(prog: seq<Insn>, sizes: seq<nat>, base: nat, body: seq<Rv>, s: BpfState, c: Config)
    returns (c': Config)
    requires Verified(prog) && Image(prog, sizes, base, body) && Mirrors(prog, sizes, s, c)
    requires s.pc < |prog| && prog[s.pc].code.Alu32? && MovOk(prog[s.pc]) && BpfNext(prog, s).Some?
    ensures Follows(prog, sizes, body, BpfNext(prog, s).value, c, c')
  {
    var s' := BpfNext(prog, s).value;
    NextAlu32(prog, s);
    var blk := Alu32Effect(prog, sizes, base, body, s.pc, prog[s.pc], s.regs, s'.regs);
    assert Ends(body, c.pc, c.m, c.pc + |blk|, s'.regs);
    var m' :| Arrives(body, c.pc, c.m, c.pc + |blk|, m', s'.regs);
    c' := Config(c.pc + |blk|, m');
  }

  lemma EndPlace(prog: seq<Insn>, sizes: seq<nat>, base: nat, body: seq<Rv>, i: nat, p: Pair)
    requires Verified(prog) && Image(prog, sizes, base, body) && i < |prog| && !Second(prog, i) && prog[i].code.End?
    requires p == Home(prog[i].dst)
    ensures prog[i].dst <= 10 && At(p, TMP1).InRegs() && CoreEnd(prog[i].code.be, prog[i].imm, At(p, TMP1)).Some?
    ensures var e := Get64(p, TMP1) + CoreEnd(prog[i].code.be, prog[i].imm, At(p, TMP1)).value + Put64(p, At(p, TMP1));
      CodeAt(body, Start(sizes, i), e) && Start(sizes, i + 1) == Start(sizes, i) + |e|
  {
    assert GoodInsn(prog, i) && Placed(prog, sizes, base, body, i);
  }

  lemma StepEnd(prog: seq<Insn>, sizes: seq<nat>, base: nat, body: seq<Rv>, s: BpfState, c: Config) returns (c': Config)
    requires Verified(prog) && Image(prog, sizes, base, body) && Mirrors(prog, sizes, s, c)
    requires s.pc < |prog| && prog[s.pc].code.End?
    ensures BpfNext(prog, s).Some? && Follows(prog, sizes, body, BpfNext(prog, s).value, c, c')
  {
    var insn := prog[s.pc];
    EndPlace(prog, sizes, base, body, s.pc, Home(insn.dst));
    var m' := EndRuns(body, c.pc, c.m, insn, insn.code.be, s.regs);
    c' := Config(Start(sizes, s.pc + 1), m');
  }

  lemma LdImm64Place(prog: seq<Insn>, sizes: seq<nat>, base: nat, body: seq<Rv>, i: nat, p: Pair)
    requires Verified(prog) && Image(prog, sizes, base, body) && i < |prog| && !Second(prog, i)
    requires prog[i].code.LdImm64? && p == Home(prog[i].dst)
    ensures prog[i].dst <= 10 && At(p, TMP1).InRegs() && i + 1 < |prog| && Second(prog, i + 1)
    ensures var e := Get64(p, TMP1) + EmitImm64(At(p, TMP1), prog[i + 1].imm, prog[i].imm) + Put64(p, At(p, TMP1));
      CodeAt(body, Start(sizes, i), e) && Start(sizes, i + 2) == Start(sizes, i) + |e|
  {
    assert GoodInsn(prog, i) && Placed(prog, sizes, base, body, i);
    assert Second(prog, i + 1);
    SecondSize(prog, sizes, i + 1, false);
  }

  lemma LdImm64Arrives(prog: seq<Insn>, sizes: seq<nat>, base: nat, body: seq<Rv>, i: nat, m: Mach, regs: BpfRegs)
    returns (m': Mach, to: int)
    requires Verified(prog) && Image(prog, sizes, base, body) && i < |prog| && !Second(prog, i) && Rel(regs, m)
    requires prog[i].code.LdImm64?
    ensures prog[i].dst <= 10 && i + 1 < |prog| && to == Start(sizes, i + 2)
    ensures Arrives(body, Start(sizes, i), m, to, m', regs[prog[i].dst := Join(prog[i + 1].imm, prog[i].imm)])
  {
    LdImm64Place(prog, sizes, base, body, i, Home(prog[i].dst));
    m' := LdImmRuns(body, Start(sizes, i), m, prog[i].dst, prog[i + 1].imm, prog[i].imm, regs);
    to := Start(sizes, i + 2);
  }

  lemma StepLdImm64(prog: seq<Insn>, sizes: seq<nat>, base: nat, body: seq<Rv>, s: BpfState, c: Config)
    returns (c': Config)
    requires Verified(prog) && Image(prog, sizes, base, body) && Mirrors(prog, sizes, s, c)
    requires s.pc < |prog| && prog[s.pc].code.LdImm64?
    ensures BpfNext(prog, s).Some? && Follows(prog, sizes, body, BpfNext(prog, s).value, c, c')
  {
    var m', to := LdImm64Arrives(prog, sizes, base, body, s.pc, c.m, s.regs);
    assert GoodInsn(prog, s.pc);
    c' := Config(to, m');
  }

  /** One step of the interpreter, other than EXIT. */
  lemma StepSimulates(prog: seq<Insn>, sizes: seq<nat>, base: nat, body: seq<Rv>, s: BpfState, c: Config)
    returns (c': Config)
    requires Verified(prog) && Image(prog, sizes, base, body) && Faithful(prog, sizes)
    requires Mirrors(prog, sizes, s, c) && BpfNext(prog, s).Some?
    ensures Follows(prog, sizes, body, BpfNext(prog, s).value, c, c')
  {
    assert GoodInsn(prog, s.pc) && FaithfulAt(prog, sizes, s.pc);
    match prog[s.pc].code {
      case Alu64(_, _) => c' := StepAlu64(prog, sizes, base, body, s, c);
      case Alu32(_, _) => c' := StepAlu32(prog, sizes, base, body, s, c);
      case End(_) => c' := StepEnd(prog, sizes, base, body, s, c);
      case Jmp64(_, _) => c' := StepJmp64(prog, sizes, base, body, s, c);
      case Jmp32(_, _) => c' := StepJmp32(prog, sizes, base, body, s, c);
      case Ja => c' := StepJa(prog, sizes, base, body, s, c);
      case LdImm64 => c' := StepLdImm64(prog, sizes, base, body, s, c);
    }
  }

  // ---------------------------------------------------------------- whole runs

  lemma FollowsTrans(prog: seq<Insn>, sizes: seq<nat>, body: seq<Rv>, s1: BpfState, s2: BpfState, c: Config, c1: Config,
                     c2: Config)
    requires Follows(prog, sizes, body, s1, c, c1) && Follows(prog, sizes, body, s2, c1, c2)
    ensures Follows(prog, sizes, body, s2, c, c2)
  {
    RunsTrans(body, c, c1, c2);
    OutsideTrans(c.m, c1.m, c2.m);
  }

  /** Every run of the interpreter has its run of the compiled body. */
  lemma {:induction false} RunSimulates(prog: seq<Insn>, sizes: seq<nat>, base: nat, body: seq<Rv>, s: BpfState,
                                        s': BpfState, n: nat, c: Config)
    returns (c': Config)
    requires Verified(prog) && Image(prog, sizes, base, body) && Faithful(prog, sizes)
    requires Mirrors(prog, sizes, s, c) && ReachesIn(BpfStepper(prog), s, s', n)
    ensures Follows(prog, sizes, body, s', c, c')
    decreases n
  {
    if n == 0 {
      ReachesSelf(Stepper(body), c);
      c' := c;
    } else {
      var s1 := BpfNext(prog, s).value;
      var c1 := StepSimulates(prog, sizes, base, body, s, c);
      c' := RunSimulates(prog, sizes, base, body, s1, s', n - 1, c1);
      FollowsTrans(prog, sizes, body, s1, s', c, c1, c');
    }
  }

  lemma ExitPlace(prog: seq<Insn>, sizes: seq<nat>, base: nat, body: seq<Rv>, i: nat)
    requires Verified(prog) && Image(prog, sizes, base, body) && i < |prog| && !Second(prog, i) && prog[i].code.Exit?
    ensures var k := |body| - Start(sizes, i);
      if i == |prog| - 1 then k == 0 else Is21b(4 * k) && CodeAt(body, Start(sizes, i), [Jal(ZERO, JalField(4 * k))])
  {
    assert GoodInsn(prog, i) && Placed(prog, sizes, base, body, i);
    ExitOffset(prog, sizes, i, base, false);
  }

  /** EXIT comes to the end of the body, where the epilogue starts. */
  lemma ExitRuns(body: seq<Rv>, c: Config, last: bool, k: int)
    requires if last then k == 0 else Is21b(4 * k) && CodeAt(body, c.pc, [Jal(ZERO, JalField(4 * k))])
    ensures Runs(body, c, Config(c.pc + k, c.m))
  {
    if last {
      ReachesSelf(Stepper(body), c);
    } else {
      JalRuns(body, c.pc, c.m, k);
    }
  }

  lemma ReturnSimulates(prog: seq<Insn>, sizes: seq<nat>, base: nat, body: seq<Rv>, n: nat, s: BpfState, regs: BpfRegs,
                        c: Config)
    returns (m': Mach)
    requires Verified(prog) && Image(prog, sizes, base, body) && Faithful(prog, sizes)
    requires Mirrors(prog, sizes, s, c) && ReturnsIn(prog, s, n, regs)
    ensures Runs(body, c, Config(|body|, m')) && Rel(regs, m') && Outside(c.m, m')
  {
    var last: BpfState :|
      ReachesIn(BpfStepper(prog), s, last, n) && BpfStep(prog, last.pc, last.regs) == Return(regs);
    var c' := RunSimulates(prog, sizes, base, body, s, last, n, c);
    m' := c'.m;
    ReturnIs(prog, last, regs);
    ExitPlace(prog, sizes, base, body, last.pc);
    ExitRuns(body, c', last.pc == |prog| - 1, |body| - Start(sizes, last.pc));
    RunsTrans(body, c, c', Config(|body|, m'));
  }

  lemma ReturnIs(prog: seq<Insn>, s: BpfState, regs: BpfRegs)
    requires BpfStep(prog, s.pc, s.regs) == Return(regs)
    ensures 0 <= s.pc < |prog| && prog[s.pc].code.Exit? && s.regs == regs
  {
  }

  /** Whenever the interpreter returns, the compiled body reaches the epilogue with R0 in S2:S1,
      all of R0 to R10 in their homes, and nothing else changed. */
  lemma BodySimulates(prog: seq<Insn>, base: nat, body: seq<Rv>, n: nat, regs: BpfRegs, regs': BpfRegs, m: Mach)
    returns (m': Mach)
    requires Verified(prog) && Faithful(prog, Sizes(prog, false)) && CompilesTo(prog, base, false, body)
    requires Rel(regs, m) && ReturnsIn(prog, BpfState(0, regs), n, regs')
    ensures Runs(body, Config(0, m), Config(|body|, m')) && Rel(regs', m') && Outside(m, m')
    ensures Join(m'.x[18], m'.x[9]) == regs'[0]
  {
    var sizes := Sizes(prog, false);
    BodyIsImage(prog, sizes, base, body);
    m' := ReturnSimulates(prog, sizes, base, body, n, BpfState(0, regs), regs', Config(0, m));
    assert RegVal(m', 0) == regs'[0];
  }

  // ---------------------------------------------------------------- programs without loops

  ghost predicate Forward(prog: seq<Insn>) {
    forall i {:trigger prog[i]} :: 0 <= i < |prog| && IsJump(prog[i].code) ==> prog[i].off >= 0
  }

  lemma ForwardStep(prog: seq<Insn>, s: BpfState)
    requires Verified(prog) && Forward(prog) && 0 <= s.pc <= |prog| && !Second(prog, s.pc) && BpfNext(prog, s).Some?
    ensures s.pc < BpfNext(prog, s).value.pc <= |prog| && !Second(prog, BpfNext(prog, s).value.pc)
  {
    assert GoodInsn(prog, s.pc);
    if prog[s.pc].code.LdImm64? {
      assert Second(prog, s.pc + 1);
    }
  }

  /** From every state, a program whose jumps all go forward stops within as many steps as it has
      slots: it returns, or comes to where the interpreter has no defined meaning. */
  lemma {:induction false} ForwardHalts(prog: seq<Insn>, s: BpfState) returns (last: BpfState, n: nat)
    requires Verified(prog) && Forward(prog) && 0 <= s.pc <= |prog| && !Second(prog, s.pc)
    ensures ReachesIn(BpfStepper(prog), s, last, n) && n <= |prog| - s.pc
    ensures !BpfStep(prog, last.pc, last.regs).Continue?
    decreases |prog| - s.pc
  {
    last, n := s, 0;
    if BpfNext(prog, s).Some? {
      ForwardStep(prog, s);
      last, n := ForwardHalts(prog, BpfNext(prog, s).value);
      n := n + 1;
    }
  }

  /** So the compiled body of such a program comes to the epilogue with the interpreter's result,
      unless the interpreter's run ends in an undefined operation. */
  lemma ForwardSimulates(prog: seq<Insn>, base: nat, body: seq<Rv>, regs: BpfRegs, m: Mach)
    returns (last: BpfState, n: nat, m': Mach)
    requires Verified(prog) && Forward(prog) && Faithful(prog, Sizes(prog, false))
    requires CompilesTo(prog, base, false, body)
    requires Rel(regs, m)
    ensures ReachesIn(BpfStepper(prog), BpfState(0, regs), last, n) && n <= |prog|
    ensures match BpfStep(prog, last.pc, last.regs)
      case Continue(_, _) => false
      case Undefined => true
      case Return(regs') => Runs(body, Config(0, m), Config(|body|, m')) && Rel(regs', m') && Outside(m, m')
  {
    last, n := ForwardHalts(prog, BpfState(0, regs));
    m' := m;
    if BpfStep(prog, last.pc, last.regs).Return? {
      m' := BodySimulates(prog, base, body, n, regs, BpfStep(prog, last.pc, last.regs).regs, m);
    }
  }

  /** The same of the image: encoded words behind the prologue, decoded by the hart. */
  lemma ImageSimulates(prog: seq<Insn>, prologue: seq<U32>, body: seq<Rv>, epilogue: seq<U32>, words: seq<U32>,
                       n: nat, regs: BpfRegs, regs': BpfRegs, m: Mach) returns (m': Mach)
    requires Verified(prog) && Faithful(prog, Sizes(prog, false)) && CompilesTo(prog, |prologue|, false, body)
    requires Rel(regs, m) && ReturnsIn(prog, BpfState(0, regs), n, regs')
    requires words == prologue + EncodeAll(body) + epilogue
    ensures Reaches(WordStepper(words), Config(|prologue|, m), Config(|words| - |epilogue|, m'))
    ensures Rel(regs', m') && Outside(m, m') && Join(m'.x[18], m'.x[9]) == regs'[0]
  {
    m' := BodySimulates(prog, |prologue|, body, n, regs, regs', m);
    FromStart(prologue, body, epilogue, words, m, m');
  }

  lemma FromStart(prologue: seq<U32>, body: seq<Rv>, epilogue: seq<U32>, words: seq<U32>, m: Mach, m': Mach)
    requires Runs(body, Config(0, m), Config(|body|, m')) && words == prologue + EncodeAll(body) + epilogue
    ensures Reaches(WordStepper(words), Config(|prologue|, m), Config(|words| - |epilogue|, m'))
  {
    RunsAsWords(prologue, body, epilogue, Config(0, m), Config(|body|, m'));
    assert Behind(|prologue|)(Config(0, m)) == Config(|prologue|, m);
    assert Behind(|prologue|)(Config(|body|, m')) == Config(|words| - |epilogue|, m');
  }
}
