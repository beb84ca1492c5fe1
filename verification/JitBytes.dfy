/** BPF_END: the byte-reversal sequences compute cpu_to_be and cpu_to_le. */
module JitBytes {
  import opened Words
  import opened Rv32
  import opened Rv32Machine
  import opened Bpf
  import opened JitEmit
  import opened JitCore

  lemma AndByte(a: U32)
    ensures ImmOp(ANDI, a, 0xff) == a % 0x100
  {
    Pow2Values();
    AndMask(a, 8);
    ShrLowAreDivMod(a, 8);
  }

  lemma ByteShifts(a: U32)
    ensures ImmOp(SRLI, a, 8) == a / 0x100
    ensures ImmOp(SLLI, a, 8) == Mod32(a * 0x100)
  {
    Pow2Values();
    ShrLowAreDivMod(a, 8);
    ShlIsMul(a, 8);
  }

  function Take(rd: Reg): seq<Rv> {
    [I(ANDI, T0, rd, 0xff), R(ADD, T1, T1, T0)]
  }

  function TakeAndShift(rd: Reg): seq<Rv> {
    [I(ANDI, T0, rd, 0xff), R(ADD, T1, T1, T0), I(SLLI, T1, T1, 8), I(SRLI, rd, rd, 8)]
  }

  /** T1 holds `acc`, rd holds `v`, and only T0, T1 and rd differ from x0. */
  ghost predicate Folding(x0: RegFile, x: RegFile, rd: Reg, acc: int, v: int) {
    && x[T1] == acc && x[rd] == v
    && forall r: Reg :: r != rd && r != T0 && r != T1 ==> x[r] == x0[r]
  }

  lemma TakeAndShiftFolds(x0: RegFile, x: RegFile, rd: Reg, acc: int, v: int)
    requires rd != 0 && rd != T0 && rd != T1 && Folding(x0, x, rd, acc, v)
    requires 0 <= acc && (acc + v % 0x100) * 0x100 < 0x1_0000_0000
    ensures AllRegOnly(TakeAndShift(rd))
    ensures Folding(x0, RegExec(TakeAndShift(rd), x), rd, (acc + v % 0x100) * 0x100, v / 0x100)
  {
    var acc' := acc + v % 0x100;
    AndByte(v);
    ByteShifts(v);
    ByteShifts(acc');
    assert RegOp(ADD, acc, v % 0x100) == acc';
    RegExec4(I(ANDI, T0, rd, 0xff), R(ADD, T1, T1, T0), I(SLLI, T1, T1, 8), I(SRLI, rd, rd, 8), x);
  }

  lemma TakeFolds(x0: RegFile, x: RegFile, rd: Reg, acc: int, v: int)
    requires rd != 0 && rd != T0 && rd != T1 && Folding(x0, x, rd, acc, v)
    requires 0 <= acc && acc + v % 0x100 < 0x1_0000_0000
    ensures AllRegOnly(Take(rd) + [Mv(rd, T1)])
    ensures var acc' := acc + v % 0x100; Folding(x0, RegExec(Take(rd) + [Mv(rd, T1)], x), rd, acc', acc')
  {
    assert Take(rd) + [Mv(rd, T1)] == [I(ANDI, T0, rd, 0xff), R(ADD, T1, T1, T0), Mv(rd, T1)];
    RegExec3(I(ANDI, T0, rd, 0xff), R(ADD, T1, T1, T0), Mv(rd, T1), x);
    AndByte(v);
  }

  lemma StartFolds(x: RegFile, rd: Reg)
    requires rd != 0 && rd != T0 && rd != T1
    ensures AllRegOnly([I(ADDI, T1, ZERO, 0)])
    ensures Folding(x, RegExec([I(ADDI, T1, ZERO, 0)], x), rd, 0, x[rd])
  {
    RegExec1(I(ADDI, T1, ZERO, 0), x);
  }

  /** `blk` replaces rd by v, with T0 and T1 as scratch. */
  ghost predicate Replaces(blk: seq<Rv>, x: RegFile, rd: Reg, v: U32) {
    && AllRegOnly(blk) && RegExec(blk, x)[rd] == v
    && forall r: Reg :: r != rd && r != T0 && r != T1 ==> RegExec(blk, x)[r] == x[r]
  }

  lemma Rev16Replaces(x: RegFile, rd: Reg)
    requires rd != 0 && rd != T0 && rd != T1
    ensures Replaces(Rev16(rd), x, rd, Swap16(x[rd]))
  {
    var a := x[rd];
    var s0, s1, s2 := [I(ADDI, T1, ZERO, 0)], TakeAndShift(rd), Take(rd) + [Mv(rd, T1)];
    StartFolds(x, rd);
    var x1 := RegExec(s0, x);
    TakeAndShiftFolds(x, x1, rd, 0, a);
    var x2 := RegExec(s1, x1);
    TakeFolds(x, x2, rd, a % 0x100 * 0x100, a / 0x100);
    RegExecConcat(s0, s1, x);
    RegExecConcat(s0 + s1, s2, x);
    assert Rev16(rd) == s0 + s1 + s2;
  }

  lemma Rev32Replaces(x: RegFile, rd: Reg)
    requires rd != 0 && rd != T0 && rd != T1
    ensures Replaces(Rev32(rd), x, rd, Swap32(x[rd]))
  {
    var a := x[rd];
    var a1 := a / 0x100;
    var a2 := a1 / 0x100;
    var a3 := a2 / 0x100;
    var s0, s1, s2 := [I(ADDI, T1, ZERO, 0)], TakeAndShift(rd), Take(rd) + [Mv(rd, T1)];
    StartFolds(x, rd);
    var x1 := RegExec(s0, x);
    TakeAndShiftFolds(x, x1, rd, 0, a);
    var x2 := RegExec(s1, x1);
    var c1 := a % 0x100 * 0x100;
    TakeAndShiftFolds(x, x2, rd, c1, a1);
    var x3 := RegExec(s1, x2);
    var c2 := (c1 + a1 % 0x100) * 0x100;
    TakeAndShiftFolds(x, x3, rd, c2, a2);
    var x4 := RegExec(s1, x3);
    var c3 := (c2 + a2 % 0x100) * 0x100;
    TakeFolds(x, x4, rd, c3, a3);
    RegExecConcat(s0, s1, x);
    RegExecConcat(s0 + s1, s1, x);
    RegExecConcat(s0 + s1 + s1, s1, x);
    RegExecConcat(s0 + s1 + s1 + s1, s2, x);
    assert Rev32(rd) == s0 + s1 + s1 + s1 + s2;
    SwapFold(a);
  }

  lemma SwapFold(a: U32)
    ensures var a1 := a / 0x100;
      var a2 := a1 / 0x100;
      var a3 := a2 / 0x100;
      (((a % 0x100 * 0x100 + a1 % 0x100) * 0x100) + a2 % 0x100) * 0x100 + a3 % 0x100 == Swap32(a)
  {
    assert a / 0x1_0000 == a / 0x100 / 0x100 && a / 0x100_0000 == a / 0x100 / 0x100 / 0x100;
  }

  /** The low half replaced and the high half cleared. */
  lemma ReplaceAndClear(x: RegFile, rd: Pair, blk: seq<Rv>, v: U32)
    requires Usable(rd) && Replaces(blk, x, rd.lo, v)
    ensures Computes(blk + [Mv(rd.hi, ZERO)], x, rd, v)
  {
    var x1 := RegExec(blk, x);
    RegExec1(Mv(rd.hi, ZERO), x1);
    MvIsCopy(rd.hi, ZERO, x1);
    RegExecConcat(blk, [Mv(rd.hi, ZERO)], x);
  }

  lemma Swap64Computes(x: RegFile, rd: Pair)
    requires Usable(rd)
    ensures Computes([Mv(T0, rd.lo), Mv(rd.lo, rd.hi), Mv(rd.hi, T0)] + Rev32(rd.lo) + Rev32(rd.hi), x, rd,
                     Join(Swap32(x[rd.lo]), Swap32(x[rd.hi])))
  {
    var swap := [Mv(T0, rd.lo), Mv(rd.lo, rd.hi), Mv(rd.hi, T0)];
    RegExec3(Mv(T0, rd.lo), Mv(rd.lo, rd.hi), Mv(rd.hi, T0), x);
    var x1 := RegExec(swap, x);
    assert x1 == x[T0 := x[rd.lo]][rd.lo := x[rd.hi]][rd.hi := x[rd.lo]];
    Rev32Replaces(x1, rd.lo);
    var x2 := RegExec(Rev32(rd.lo), x1);
    Rev32Replaces(x2, rd.hi);
    RegExecConcat(swap, Rev32(rd.lo), x);
    RegExecConcat(swap + Rev32(rd.lo), Rev32(rd.hi), x);
  }

  lemma HalfwordShifts(a: U32, k: nat)
    requires k < 32 && Pow2(k) == 0x1_0000
    ensures ImmOp(SLLI, a, k) == a % 0x1_0000 * 0x1_0000
    ensures ImmOp(SRLI, a, k) == a / 0x1_0000
  {
    SmallImm(k);
    ShlIsMul(a, k);
    ShrLowAreDivMod(a, k);
    var q, r := a / 0x1_0000, a % 0x1_0000;
    ModUnique(a * 0x1_0000, 0x1_0000_0000, q, r * 0x1_0000);
  }

  lemma LowHalfOf(a: U32)
    ensures ImmOp(SRLI, ImmOp(SLLI, a, 16), 16) == a % 0x1_0000
  {
    Pow2Values();
    HalfwordShifts(a, 16);
    HalfwordShifts(a % 0x1_0000 * 0x1_0000, 16);
  }

  lemma Le16Computes(x: RegFile, rd: Pair)
    requires Usable(rd)
    ensures Computes([I(SLLI, rd.lo, rd.lo, 16), I(SRLI, rd.lo, rd.lo, 16), Mv(rd.hi, ZERO)], x, rd,
      x[rd.lo] % 0x1_0000)
  {
    LowHalfOf(x[rd.lo]);
    RegExec3(I(SLLI, rd.lo, rd.lo, 16), I(SRLI, rd.lo, rd.lo, 16), Mv(rd.hi, ZERO), x);
  }

  /** BPF_END as a whole. */
  lemma CoreEndComputes(be: bool, imm: U32, x: RegFile, rd: Pair)
    requires Usable(rd) && CoreEnd(be, imm, rd).Some?
    ensures Computes(CoreEnd(be, imm, rd).value, x, rd, Swapped(be, imm, Val(x, rd)))
  {
    if be {
      if imm == 16 {
        Rev16Replaces(x, rd.lo);
        ReplaceAndClear(x, rd, Rev16(rd.lo), Swap16(x[rd.lo]));
      } else if imm == 32 {
        Rev32Replaces(x, rd.lo);
        ReplaceAndClear(x, rd, Rev32(rd.lo), Swap32(x[rd.lo]));
      } else {
        Swap64Computes(x, rd);
      }
    } else {
      if imm == 16 {
        Le16Computes(x, rd);
        LowHalfword(x[rd.hi], x[rd.lo]);
      } else if imm == 32 {
        RegExec1(Mv(rd.hi, ZERO), x);
        MvIsCopy(rd.hi, ZERO, x);
      }
    }
  }

  lemma LowHalfword(hi: U32, lo: U32)
    ensures Join(hi, lo) % 0x1_0000 == lo % 0x1_0000
  {
  }
}
