/** The compare-and-branch sequences of emit_rv32_jump_r64 and emit_rv32_jump_r32. */
module JitJump {
  import opened Words
  import opened Reach
  import opened Rv32
  import opened Rv32Machine
  import opened Bpf
  import opened JitEmit
  import opened JitCore

  // ---------------------------------------------------------------- offsets

  /** A branch field takes the branch to its offset exactly when the offset has 13 bits. */
  lemma BranchReaches(k: int)
    ensures BranchBy(BrField(4 * k)) == Some(k) <==> Is13b(4 * k)
  {
    var q := (2 * k) / 0x1000;
    assert 4 * k / 2 == 2 * k;
    assert BrField(4 * k) == 2 * k - q * 0x1000;
  }

  lemma JumpReaches(k: int)
    ensures JumpBy(JalField(4 * k)) == Some(k) <==> Is21b(4 * k)
  {
    var q := (2 * k) / 0x10_0000;
    assert 4 * k / 2 == 2 * k;
    assert JalField(4 * k) == 2 * k - q * 0x10_0000;
  }

  /** How far the first branch of the sequence for `op` stands before its last. */
  function Lead(op: JmpOp): int {
    match op
    case JEQ => 0
    case JNE => 4
    case _ => 8
  }

  /** Only T0 may change. */
  ghost predicate JustT0(x: RegFile, x': RegFile) {
    forall r: Reg :: r != T0 ==> x'[r] == x[r]
  }

  ghost predicate Lands(code: seq<Rv>, at: int, m: Mach, x': RegFile, pc: int) {
    JustT0(m.x, x') && Runs(code, Config(at, m), Config(pc, Mach(x', m.mem)))
  }

  // ---------------------------------------------------------------- the shapes of the sequences

  /** A branch that is not taken may have any offset. */
  lemma BranchRuns(code: seq<Rv>, at: int, op: BOp, a: Reg, b: Reg, k: int, m: Mach)
    requires CodeAt(code, at, [Br(op, a, b, BrField(4 * k))]) && (Is13b(4 * k) || !Taken(op, m.x[a], m.x[b]))
    ensures Runs(code, Config(at, m), Config(if Taken(op, m.x[a], m.x[b]) then at + k else at + 1, m))
  {
    BranchReaches(k);
    StepAt(code, at, [Br(op, a, b, BrField(4 * k))], Config(at, m));
  }

  lemma Split2(code: seq<Rv>, at: int, a: Rv, b: Rv)
    requires CodeAt(code, at, [a, b])
    ensures CodeAt(code, at, [a]) && CodeAt(code, at + 1, [b])
  {
    assert [a, b] == [a] + [b];
    CodeAtPart(code, at, [a], [b]);
  }

  lemma Split3(code: seq<Rv>, at: int, a: Rv, b: Rv, c: Rv)
    requires CodeAt(code, at, [a, b, c])
    ensures CodeAt(code, at, [a]) && CodeAt(code, at + 1, [b]) && CodeAt(code, at + 2, [c])
  {
    assert [a, b, c] == [a] + [b, c];
    CodeAtPart(code, at, [a], [b, c]);
    Split2(code, at + 1, b, c);
  }

  datatype Cmp = Cmp(op: BOp, a: Reg, b: Reg)

  function Branch(c: Cmp, off: int): Rv {
    Br(c.op, c.a, c.b, BrField(off))
  }

  predicate Holds(c: Cmp, x: RegFile) {
    Taken(c.op, x[c.a], x[c.b])
  }

  /** Two branches, the first of which goes to `near` instructions further. */
  lemma TwoBranches(code: seq<Rv>, at: int, c1: Cmp, c2: Cmp, near: int, k: int, m: Mach)
    requires CodeAt(code, at, [Branch(c1, 4 * near), Branch(c2, 4 * k)])
    requires (Is13b(4 * near) || !Holds(c1, m.x)) && Is13b(4 * k)
    ensures Runs(code, Config(at, m),
                 Config(if Holds(c1, m.x) then at + near else if Holds(c2, m.x) then at + 1 + k else at + 2, m))
  {
    Split2(code, at, Branch(c1, 4 * near), Branch(c2, 4 * k));
    BranchRuns(code, at, c1.op, c1.a, c1.b, near, m);
    if !Holds(c1, m.x) {
      BranchRuns(code, at + 1, c2.op, c2.a, c2.b, k, m);
      RunsTrans(code, Config(at, m), Config(at + 1, m), Config(if Holds(c2, m.x) then at + 1 + k else at + 2, m));
    }
  }

  /** Three branches: to the target, past the end, to the target. */
  lemma ThreeBranches(code: seq<Rv>, at: int, c1: Cmp, c2: Cmp, c3: Cmp, k: int, m: Mach)
    requires CodeAt(code, at, [Branch(c1, 4 * (k + 2)), Branch(c2, 4 * 2), Branch(c3, 4 * k)])
    requires (Is13b(4 * (k + 2)) || !Holds(c1, m.x)) && Is13b(4 * k)
    ensures var goes := Holds(c1, m.x) || (!Holds(c2, m.x) && Holds(c3, m.x));
      Runs(code, Config(at, m), Config(if goes then at + 2 + k else at + 3, m))
  {
    var b1, b2, b3 := Branch(c1, 4 * (k + 2)), Branch(c2, 4 * 2), Branch(c3, 4 * k);
    Split3(code, at, b1, b2, b3);
    assert [b1, b2, b3] == [b1] + [b2, b3];
    CodeAtPart(code, at, [b1], [b2, b3]);
    BranchRuns(code, at, c1.op, c1.a, c1.b, k + 2, m);
    if !Holds(c1, m.x) {
      TwoBranches(code, at + 1, c2, c3, 2, k, m);
      var goes := !Holds(c2, m.x) && Holds(c3, m.x);
      RunsTrans(code, Config(at, m), Config(at + 1, m), Config(if goes then at + 2 + k else at + 3, m));
    }
  }

  // ---------------------------------------------------------------- comparisons by halves

  /** What the first branch of the sequence for `op` tests, on the upper halves. */
  predicate Decided(op: JmpOp, ah: U32, bh: U32) {
    match op
    case JEQ => false
    case JNE => ah != bh
    case JSET => Bits32(And, ah, bh) != 0
    case JLE => ah < bh
    case JLT => ah < bh
    case JGE => bh < ah
    case JGT => bh < ah
    case JSLE => Signed32(ah) < Signed32(bh)
    case JSLT => Signed32(ah) < Signed32(bh)
    case JSGE => Signed32(bh) < Signed32(ah)
    case JSGT => Signed32(bh) < Signed32(ah)
  }

  /** The first branch, if it is taken at all, is in range. */
  predicate InReach(op: JmpOp, ah: U32, bh: U32, k: int) {
    Is13b(4 * k + Lead(op)) || !Decided(op, ah, bh)
  }

  /** First and second comparison of the three-branch sequences, on the upper halves, and the
      third, on the lower ones. */
  predicate ByHalves(op: JmpOp, ah: U32, al: U32, bh: U32, bl: U32)
    requires op != JEQ && op != JNE && op != JSET
  {
    match op
    case JLE => ah < bh || (!(bh < ah) && bl >= al)
    case JLT => ah < bh || (!(bh < ah) && al < bl)
    case JGE => bh < ah || (!(ah < bh) && al >= bl)
    case JGT => bh < ah || (!(ah < bh) && bl < al)
    case JSLE => Signed32(ah) < Signed32(bh) || (!(bh != ah) && bl >= al)
    case JSLT => Signed32(ah) < Signed32(bh) || (!(bh != ah) && al < bl)
    case JSGE => Signed32(bh) < Signed32(ah) || (!(ah != bh) && al >= bl)
    case JSGT => Signed32(bh) < Signed32(ah) || (!(ah != bh) && bl < al)
  }

  lemma CompareHalves(op: JmpOp, ah: U32, al: U32, bh: U32, bl: U32)
    requires op != JEQ && op != JNE && op != JSET
    ensures Jumps64(op, Join(ah, al), Join(bh, bl)) == ByHalves(op, ah, al, bh, bl)
  {
    SignedJoin(ah, al);
    SignedJoin(bh, bl);
  }

  lemma CommonHalves(ah: U32, al: U32, bh: U32, bl: U32)
    ensures Jumps64(JSET, Join(ah, al), Join(bh, bl)) == (Bits32(And, ah, bh) != 0 || Bits32(And, al, bl) != 0)
  {
    JoinBits(And, ah, al, bh, bl);
  }

  // ---------------------------------------------------------------- 64-bit comparisons

  function First(op: JmpOp, a: Pair, b: Pair): Cmp
    requires a.InRegs() && b.InRegs() && op != JEQ && op != JNE && op != JSET
  {
    match op
    case JLE => Cmp(BLTU, a.hi, b.hi)
    case JLT => Cmp(BLTU, a.hi, b.hi)
    case JGE => Cmp(BLTU, b.hi, a.hi)
    case JGT => Cmp(BLTU, b.hi, a.hi)
    case JSLE => Cmp(BLT, a.hi, b.hi)
    case JSLT => Cmp(BLT, a.hi, b.hi)
    case JSGE => Cmp(BLT, b.hi, a.hi)
    case JSGT => Cmp(BLT, b.hi, a.hi)
  }

  function Then(op: JmpOp, a: Pair, b: Pair): Cmp
    requires a.InRegs() && b.InRegs() && op != JEQ && op != JNE && op != JSET
  {
    match op
    case JLE => Cmp(BLTU, b.hi, a.hi)
    case JLT => Cmp(BLTU, b.hi, a.hi)
    case JGE => Cmp(BLTU, a.hi, b.hi)
    case JGT => Cmp(BLTU, a.hi, b.hi)
    case JSLE => Cmp(BNE, b.hi, a.hi)
    case JSLT => Cmp(BNE, b.hi, a.hi)
    case JSGE => Cmp(BNE, a.hi, b.hi)
    case JSGT => Cmp(BNE, a.hi, b.hi)
  }

  function Last(op: JmpOp, a: Pair, b: Pair): Cmp
    requires a.InRegs() && b.InRegs() && op != JEQ && op != JNE && op != JSET
  {
    match op
    case JLE => Cmp(BGEU, b.lo, a.lo)
    case JLT => Cmp(BLTU, a.lo, b.lo)
    case JGE => Cmp(BGEU, a.lo, b.lo)
    case JGT => Cmp(BLTU, b.lo, a.lo)
    case JSLE => Cmp(BGEU, b.lo, a.lo)
    case JSLT => Cmp(BLTU, a.lo, b.lo)
    case JSGE => Cmp(BGEU, a.lo, b.lo)
    case JSGT => Cmp(BLTU, b.lo, a.lo)
  }

  lemma OrderedCode(op: JmpOp, a: Pair, b: Pair, k: int)
    requires a.InRegs() && b.InRegs() && op != JEQ && op != JNE && op != JSET
    ensures CoreJump64(op, a, b, 4 * k)
         == [Branch(First(op, a, b), 4 * (k + 2)), Branch(Then(op, a, b), 4 * 2), Branch(Last(op, a, b), 4 * k)]
  {
    assert 4 * k + 8 == 4 * (k + 2);
  }

  lemma OrderedMeaning(op: JmpOp, a: Pair, b: Pair, x: RegFile)
    requires a.InRegs() && b.InRegs() && op != JEQ && op != JNE && op != JSET
    ensures Jumps64(op, Val(x, a), Val(x, b))
        == (Holds(First(op, a, b), x) || (!Holds(Then(op, a, b), x) && Holds(Last(op, a, b), x)))
  {
    CompareHalves(op, x[a.hi], x[a.lo], x[b.hi], x[b.lo]);
  }

  lemma OrderedRuns(op: JmpOp, code: seq<Rv>, at: int, m: Mach, a: Pair, b: Pair, k: int)
    requires a.InRegs() && b.InRegs() && op != JEQ && op != JNE && op != JSET
    requires CodeAt(code, at, CoreJump64(op, a, b, 4 * k)) && Is13b(4 * k) && InReach(op, m.x[a.hi], m.x[b.hi], k)
    ensures Runs(code, Config(at, m), Config(if Jumps64(op, Val(m.x, a), Val(m.x, b)) then at + 2 + k else at + 3, m))
  {
    OrderedCode(op, a, b, k);
    OrderedMeaning(op, a, b, m.x);
    ThreeBranches(code, at, First(op, a, b), Then(op, a, b), Last(op, a, b), k, m);
  }

  lemma EqualRuns(op: JmpOp, code: seq<Rv>, at: int, m: Mach, a: Pair, b: Pair, k: int)
    requires a.InRegs() && b.InRegs() && (op == JEQ || op == JNE)
    requires CodeAt(code, at, CoreJump64(op, a, b, 4 * k)) && Is13b(4 * k) && InReach(op, m.x[a.hi], m.x[b.hi], k)
    ensures Runs(code, Config(at, m), Config(if Jumps64(op, Val(m.x, a), Val(m.x, b)) then at + 1 + k else at + 2, m))
  {
    assert 4 * k + 4 == 4 * (k + 1);
    if op == JEQ {
      TwoBranches(code, at, Cmp(BNE, a.hi, b.hi), Cmp(BEQ, a.lo, b.lo), 2, k, m);
    } else {
      TwoBranches(code, at, Cmp(BNE, a.hi, b.hi), Cmp(BNE, a.lo, b.lo), k + 1, k, m);
    }
  }

  /** AND into T0, then branch if it is not zero. */
  lemma TestRuns(code: seq<Rv>, at: int, a: Reg, b: Reg, k: int, m: Mach) returns (x': RegFile)
    requires CodeAt(code, at, [R(AND, T0, a, b), Br(BNE, T0, ZERO, BrField(4 * k))])
    requires Is13b(4 * k) || Bits32(And, m.x[a], m.x[b]) == 0
    ensures x' == SetReg(m.x, T0, Bits32(And, m.x[a], m.x[b]))
    ensures Runs(code, Config(at, m),
                 Config(if Bits32(And, m.x[a], m.x[b]) != 0 then at + 1 + k else at + 2, Mach(x', m.mem)))
  {
    x' := SetReg(m.x, T0, Bits32(And, m.x[a], m.x[b]));
    Split2(code, at, R(AND, T0, a, b), Br(BNE, T0, ZERO, BrField(4 * k)));
    StepAt(code, at, [R(AND, T0, a, b)], Config(at, m));
    BranchRuns(code, at + 1, BNE, T0, ZERO, k, Mach(x', m.mem));
    RunsTrans(code, Config(at, m), Config(at + 1, Mach(x', m.mem)),
      Config(if Bits32(And, m.x[a], m.x[b]) != 0 then at + 1 + k else at + 2, Mach(x', m.mem)));
  }

  lemma CommonRuns(code: seq<Rv>, at: int, m: Mach, a: Pair, b: Pair, k: int) returns (x': RegFile)
    requires Usable(a) && Usable(b)
    requires CodeAt(code, at, CoreJump64(JSET, a, b, 4 * k)) && Is13b(4 * k) && InReach(JSET, m.x[a.hi], m.x[b.hi], k)
    ensures Lands(code, at, m, x', if Jumps64(JSET, Val(m.x, a), Val(m.x, b)) then at + 3 + k else at + 4)
  {
    var hi := [R(AND, T0, a.hi, b.hi), Br(BNE, T0, ZERO, BrField(4 * (k + 2)))];
    var lo := [R(AND, T0, a.lo, b.lo), Br(BNE, T0, ZERO, BrField(4 * k))];
    assert 4 * k + 8 == 4 * (k + 2);
    assert CoreJump64(JSET, a, b, 4 * k) == hi + lo;
    CodeAtPart(code, at, hi, lo);
    CommonHalves(m.x[a.hi], m.x[a.lo], m.x[b.hi], m.x[b.lo]);
    x' := TestRuns(code, at, a.hi, b.hi, k + 2, m);
    if Bits32(And, m.x[a.hi], m.x[b.hi]) == 0 {
      var m1 := Mach(x', m.mem);
      x' := TestRuns(code, at + 2, a.lo, b.lo, k, m1);
      RunsTrans(code, Config(at, m), Config(at + 2, m1),
        Config(if Bits32(And, m.x[a.lo], m.x[b.lo]) != 0 then at + 3 + k else at + 4, Mach(x', m.mem)));
    }
  }

  /** The sequence goes to its target exactly when BPF jumps, and else to its end.  `k` counts
      instructions from the last one of the sequence. */
  lemma Jump64Runs(op: JmpOp, code: seq<Rv>, at: int, m: Mach, a: Pair, b: Pair, k: int) returns (x': RegFile)
    requires Usable(a) && Usable(b)
    requires CodeAt(code, at, CoreJump64(op, a, b, 4 * k)) && Is13b(4 * k) && InReach(op, m.x[a.hi], m.x[b.hi], k)
    ensures var end := at + |CoreJump64(op, a, b, 4 * k)|;
      Lands(code, at, m, x', if Jumps64(op, Val(m.x, a), Val(m.x, b)) then end - 1 + k else end)
  {
    x' := m.x;
    if op == JSET {
      x' := CommonRuns(code, at, m, a, b, k);
    } else if op == JEQ || op == JNE {
      EqualRuns(op, code, at, m, a, b, k);
    } else {
      OrderedRuns(op, code, at, m, a, b, k);
    }
  }

  // ---------------------------------------------------------------- 32-bit comparisons

  function Only32(op: JmpOp, a: Reg, b: Reg): Cmp
    requires op != JSET
  {
    match op
    case JEQ => Cmp(BEQ, a, b)
    case JNE => Cmp(BNE, a, b)
    case JLE => Cmp(BGEU, b, a)
    case JLT => Cmp(BLTU, a, b)
    case JGE => Cmp(BGEU, a, b)
    case JGT => Cmp(BLTU, b, a)
    case JSLE => Cmp(BGE, b, a)
    case JSLT => Cmp(BLT, a, b)
    case JSGE => Cmp(BGE, a, b)
    case JSGT => Cmp(BLT, b, a)
  }

  lemma Jump32Runs(op: JmpOp, code: seq<Rv>, at: int, m: Mach, a: Reg, b: Reg, k: int) returns (x': RegFile)
    requires CodeAt(code, at, CoreJump32(op, a, b, 4 * k)) && Is13b(4 * k)
    ensures var end := at + |CoreJump32(op, a, b, 4 * k)|;
      Lands(code, at, m, x', if Jumps32(op, m.x[a], m.x[b]) then end - 1 + k else end)
  {
    x' := m.x;
    if op == JSET {
      x' := TestRuns(code, at, a, b, k, m);
    } else {
      var c := Only32(op, a, b);
      assert CoreJump32(op, a, b, 4 * k) == [Branch(c, 4 * k)];
      assert Holds(c, m.x) == Jumps32(op, m.x[a], m.x[b]);
      BranchRuns(code, at, c.op, c.a, c.b, k, m);
    }
  }

  lemma JalRuns(code: seq<Rv>, at: int, m: Mach, k: int)
    requires CodeAt(code, at, [Jal(ZERO, JalField(4 * k))]) && Is21b(4 * k)
    ensures Runs(code, Config(at, m), Config(at + k, m))
  {
    JumpReaches(k);
    StepAt(code, at, [Jal(ZERO, JalField(4 * k))], Config(at, m));
  }
}
