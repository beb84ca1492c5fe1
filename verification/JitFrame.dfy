/** Where BPF registers live while compiled code runs: register pairs and slots below the frame
    pointer; loading operands from there and storing results back. */
module JitFrame {
  import opened Words
  import opened Reach
  import opened Rv32
  import opened Rv32Machine
  import opened Bpf
  import opened JitEmit
  import opened JitCore

  /** T0, T1 and the two temporary pairs. */
  predicate Scratch(r: int) {
    r == T0 || r == T1 || r == 7 || 28 <= r <= 30
  }

  /** The registers compiled code may change. */
  predicate Owned(r: int) {
    Scratch(r) || 9 <= r <= 22
  }

  function Slot(fp: U32, o: int): U32 {
    Mod32(fp as int + o)
  }

  predicate SlotOffset(o: int) {
    -48 <= o < 0 && o % 4 == 0
  }

  lemma SlotsDiffer(fp: U32, o: int, p: int)
    requires SlotOffset(o) && SlotOffset(p) && o != p
    ensures Slot(fp, o) != Slot(fp, p)
  {
    SlotIs(fp, o);
    SlotIs(fp, p);
  }

  lemma SlotIs(fp: U32, o: int)
    requires SlotOffset(o)
    ensures Slot(fp, o) == (if fp + o >= 0 then fp + o else fp + o + 0x1_0000_0000)
    ensures fp % 4 == 0 ==> Slot(fp, o) % 4 == 0
  {
  }

  /** The frame pointer is aligned and the twelve slots below it are memory. */
  ghost predicate Framed(m: Mach) {
    && m.x[FP] % 4 == 0
    && forall o :: SlotOffset(o) ==> Slot(m.x[FP], o) in m.mem
  }

  lemma HomeShape(r: BpfReg)
    ensures Home(r).Stacked() ==> SlotOffset(Home(r).hi) && SlotOffset(Home(r).lo) && Home(r).hi != Home(r).lo
    ensures !Home(r).Stacked() ==> Usable(Home(r)) && !Scratch(Home(r).hi) && !Scratch(Home(r).lo)
    ensures !Home(r).Stacked() ==> Owned(Home(r).hi) && Owned(Home(r).lo)
  {
  }

  lemma HomesDiffer(r: BpfReg, s: BpfReg)
    requires r != s
    ensures var p, q := Home(r), Home(s); p.hi != q.hi && p.hi != q.lo && p.lo != q.hi && p.lo != q.lo
  {
  }

  /** The value a BPF register has. */
  ghost function RegVal(m: Mach, r: BpfReg): U64
    requires Framed(m)
  {
    HomeShape(r);
    var p := Home(r);
    if p.Stacked() then Join(m.mem[Slot(m.x[FP], p.hi)], m.mem[Slot(m.x[FP], p.lo)]) else Val(m.x, p)
  }

  /** Compiled state and interpreter state agree on R0 to R10. */
  ghost predicate Rel(regs: BpfRegs, m: Mach) {
    Framed(m) && forall r: BpfReg {:trigger RegVal(m, r)} :: r <= 10 ==> RegVal(m, r) == regs[r]
  }

  ghost predicate IsSlot(fp: U32, a: U32) {
    exists o :: SlotOffset(o) && a == Slot(fp, o)
  }

  /** Nothing changes that compiled code does not own. */
  ghost predicate Outside(m: Mach, m': Mach) {
    && (forall r: Reg {:trigger m'.x[r]} :: !Owned(r) ==> m'.x[r] == m.x[r])
    && m'.mem.Keys == m.mem.Keys
    && forall a: U32 {:trigger m'.mem[a]} :: a in m.mem && !IsSlot(m.x[FP], a) ==> m'.mem[a] == m.mem[a]
  }

  lemma OutsideTrans(m: Mach, m': Mach, m'': Mach)
    requires Outside(m, m') && Outside(m', m'')
    ensures Outside(m, m'')
  {
    assert m'.x[FP] == m.x[FP];
    forall r: Reg {:trigger m''.x[r]} | !Owned(r) ensures m''.x[r] == m.x[r] {
      assert m'.x[r] == m.x[r];
    }
    forall a: U32 {:trigger m''.mem[a]} | a in m.mem && !IsSlot(m.x[FP], a) ensures m''.mem[a] == m.mem[a] {
      assert m'.mem[a] == m.mem[a];
    }
  }

  /** Register `dst` now has value `v`, the other BPF registers are as before. */
  ghost predicate Updated(m: Mach, m': Mach, dst: BpfReg, v: U64)
    requires Framed(m)
  {
    && Framed(m') && RegVal(m', dst) == v
    && (forall r: BpfReg {:trigger RegVal(m', r)} :: r != dst ==> RegVal(m', r) == RegVal(m, r))
    && Outside(m, m')
  }

  lemma RelUpdated(regs: BpfRegs, regs': BpfRegs, m: Mach, m': Mach, dst: BpfReg, v: U64)
    requires Rel(regs, m) && Updated(m, m', dst, v)
    requires forall r: BpfReg :: r <= 10 ==> regs'[r] == if r == dst then v else regs[r]
    ensures Rel(regs', m')
  {
    forall r: BpfReg {:trigger RegVal(m', r)} | r <= 10 ensures RegVal(m', r) == regs'[r] {
      assert RegVal(m, r) == regs[r];
    }
  }

  /** Only scratch registers differ. */
  ghost predicate Quiet(m: Mach, m': Mach) {
    m'.mem == m.mem && forall r: Reg {:trigger m'.x[r]} :: !Scratch(r) ==> m'.x[r] == m.x[r]
  }

  lemma QuietKeeps(m: Mach, m': Mach)
    requires Framed(m) && Quiet(m, m')
    ensures Framed(m') && Outside(m, m')
    ensures forall r: BpfReg {:trigger RegVal(m', r)} :: RegVal(m', r) == RegVal(m, r)
  {
    assert m'.x[FP] == m.x[FP];
    forall r: BpfReg {:trigger RegVal(m', r)} ensures RegVal(m', r) == RegVal(m, r) {
      HomeShape(r);
    }
  }

  lemma RelQuiet(regs: BpfRegs, m: Mach, m': Mach)
    requires Rel(regs, m) && Quiet(m, m')
    ensures Rel(regs, m') && Outside(m, m')
  {
    QuietKeeps(m, m');
    forall r: BpfReg {:trigger RegVal(m', r)} | r <= 10 ensures RegVal(m', r) == regs[r] {
      assert RegVal(m, r) == regs[r];
    }
  }

  // ---------------------------------------------------------------- loads

  lemma SlotAddress(x: RegFile, o: int)
    requires SlotOffset(o)
    ensures Address(x, FP, Imm(o)) == Slot(x[FP], o)
  {
    assert Imm(o) == o + 0x1000;
  }

  lemma LoadSlot(m: Mach, rd: Reg, o: int)
    requires Framed(m) && SlotOffset(o)
    ensures Exec1(Lw(rd, Imm(o), FP), m) == Some(Mach(SetReg(m.x, rd, m.mem[Slot(m.x[FP], o)]), m.mem))
  {
    SlotAddress(m.x, o);
    SlotIs(m.x[FP], o);
  }

  lemma Exec1Is(a: Rv, m: Mach)
    requires Exec1(a, m).Some?
    ensures Exec([a], m) == Exec1(a, m)
  {
    assert [a][1..] == [];
  }

  lemma Exec2Is(a: Rv, b: Rv, m: Mach)
    requires Exec1(a, m).Some? && Exec1(b, Exec1(a, m).value).Some?
    ensures Exec([a, b], m) == Exec1(b, Exec1(a, m).value)
  {
    assert [a, b][1..] == [b];
    Exec1Is(b, Exec1(a, m).value);
  }

  /** Only the registers of `tmp` differ. */
  ghost predicate Loaded2(x: RegFile, x': RegFile, tmp: Pair) {
    forall r: Reg {:trigger x'[r]} :: r != tmp.hi && r != tmp.lo ==> x'[r] == x[r]
  }

  ghost predicate Fetched(blk: seq<Rv>, m: Mach, tmp: Pair) {
    && Exec(blk, m).Some? && Exec(blk, m).value.mem == m.mem
    && Loaded2(m.x, Exec(blk, m).value.x, tmp)
  }

  lemma GetRuns(m: Mach, r: BpfReg, tmp: Pair)
    requires Framed(m) && (tmp == TMP1 || tmp == TMP2)
    ensures Fetched(Get64(Home(r), tmp), m, tmp) && Usable(At(Home(r), tmp))
    ensures Val(Exec(Get64(Home(r), tmp), m).value.x, At(Home(r), tmp)) == RegVal(m, r)
  {
    HomeShape(r);
    var p := Home(r);
    if p.Stacked() {
      LoadSlot(m, tmp.hi, p.hi);
      var m1 := Exec1(Lw(tmp.hi, Imm(p.hi), FP), m).value;
      LoadSlot(m1, tmp.lo, p.lo);
      Exec2Is(Lw(tmp.hi, Imm(p.hi), FP), Lw(tmp.lo, Imm(p.lo), FP), m);
    }
  }

  lemma GetLowRuns(m: Mach, r: BpfReg, tmp: Pair)
    requires Framed(m) && (tmp == TMP1 || tmp == TMP2)
    ensures Fetched(Get32(Home(r), tmp), m, tmp) && Usable(At(Home(r), tmp))
    ensures Exec(Get32(Home(r), tmp), m).value.x[At(Home(r), tmp).lo] == Lo(RegVal(m, r))
  {
    HomeShape(r);
    var p := Home(r);
    if p.Stacked() {
      LoadSlot(m, tmp.lo, p.lo);
      Exec1Is(Lw(tmp.lo, Imm(p.lo), FP), m);
    }
  }

  // ---------------------------------------------------------------- stores

  lemma StoreSlot(m: Mach, o: int, rs: Reg)
    requires Framed(m) && SlotOffset(o)
    ensures Exec1(Sw(FP, Imm(o), rs), m) == Some(Mach(m.x, m.mem[Slot(m.x[FP], o) := m.x[rs]]))
    ensures Framed(Exec1(Sw(FP, Imm(o), rs), m).value)
  {
    SlotAddress(m.x, o);
    SlotIs(m.x[FP], o);
  }

  /** Registers differ in scratch registers and in the home of `dst` at most. */
  ghost predicate Touches(m: Mach, m': Mach, dst: BpfReg) {
    && m'.mem == m.mem
    && forall r: Reg {:trigger m'.x[r]} :: !Scratch(r) && r != Home(dst).hi && r != Home(dst).lo ==> m'.x[r] == m.x[r]
  }

  ghost predicate Stored(blk: seq<Rv>, m: Mach, m2: Mach, dst: BpfReg, v: U64)
    requires Framed(m)
  {
    Exec(blk, m2).Some? && Updated(m, Exec(blk, m2).value, dst, v)
  }

  lemma TouchesFrame(m: Mach, m2: Mach, dst: BpfReg)
    requires Framed(m) && Touches(m, m2, dst)
    ensures Framed(m2) && m2.x[FP] == m.x[FP]
  {
    HomeShape(dst);
  }

  /** A result left in the home registers of `dst`. */
  lemma PutInRegs(m: Mach, m2: Mach, dst: BpfReg)
    requires Framed(m) && Touches(m, m2, dst) && !Home(dst).Stacked()
    ensures Updated(m, m2, dst, Val(m2.x, Home(dst)))
  {
    HomeShape(dst);
    TouchesFrame(m, m2, dst);
    forall r: BpfReg {:trigger RegVal(m2, r)} | r != dst ensures RegVal(m2, r) == RegVal(m, r) {
      HomesDiffer(r, dst);
      HomeShape(r);
    }
  }

  /** A result stored in the slots of `dst`. */
  lemma PutInSlots(m: Mach, m2: Mach, m3: Mach, dst: BpfReg, hi: U32, lo: U32)
    requires Framed(m) && Touches(m, m2, dst) && Home(dst).Stacked()
    requires m3.x == m2.x
    requires var fp, p := m.x[FP], Home(dst);
      m3.mem == m2.mem[Slot(fp, p.hi) := hi][Slot(fp, p.lo) := lo]
        || m3.mem == m2.mem[Slot(fp, p.lo) := lo][Slot(fp, p.hi) := hi]
    ensures Updated(m, m3, dst, Join(hi, lo))
  {
    HomeShape(dst);
    TouchesFrame(m, m2, dst);
    var fp, p := m.x[FP], Home(dst);
    SlotsDiffer(fp, p.hi, p.lo);
    assert Slot(fp, p.hi) in m.mem && Slot(fp, p.lo) in m.mem;
    assert Framed(m3);
    forall r: BpfReg {:trigger RegVal(m3, r)} | r != dst ensures RegVal(m3, r) == RegVal(m, r) {
      HomesDiffer(r, dst);
      HomeShape(r);
      var q := Home(r);
      if q.Stacked() {
        SlotsDiffer(fp, q.hi, p.hi);
        SlotsDiffer(fp, q.hi, p.lo);
        SlotsDiffer(fp, q.lo, p.hi);
        SlotsDiffer(fp, q.lo, p.lo);
      }
    }
    assert IsSlot(fp, Slot(fp, p.hi)) && IsSlot(fp, Slot(fp, p.lo));
    assert m3.mem.Keys == m.mem.Keys;
  }

  lemma PutRuns(m: Mach, m2: Mach, dst: BpfReg)
    requires Framed(m) && Touches(m, m2, dst) && At(Home(dst), TMP1).InRegs()
    ensures Stored(Put64(Home(dst), At(Home(dst), TMP1)), m, m2, dst, Val(m2.x, At(Home(dst), TMP1)))
  {
    HomeShape(dst);
    var p := Home(dst);
    if p.Stacked() {
      TouchesFrame(m, m2, dst);
      StoreSlot(m2, p.hi, TMP1.hi);
      var m3 := Exec1(Sw(FP, Imm(p.hi), TMP1.hi), m2).value;
      StoreSlot(m3, p.lo, TMP1.lo);
      Exec2Is(Sw(FP, Imm(p.hi), TMP1.hi), Sw(FP, Imm(p.lo), TMP1.lo), m2);
      PutInSlots(m, m2, Exec1(Sw(FP, Imm(p.lo), TMP1.lo), m3).value, dst, m2.x[TMP1.hi], m2.x[TMP1.lo]);
    } else {
      PutInRegs(m, m2, dst);
    }
  }

  /** The store of a 32-bit result clears the upper half. */
  lemma PutLowRuns(m: Mach, m2: Mach, dst: BpfReg)
    requires Framed(m) && Touches(m, m2, dst) && At(Home(dst), TMP1).InRegs()
    ensures Stored(Put32(Home(dst), At(Home(dst), TMP1), false), m, m2, dst, m2.x[At(Home(dst), TMP1).lo])
  {
    HomeShape(dst);
    var p := Home(dst);
    if p.Stacked() {
      TouchesFrame(m, m2, dst);
      var s1, s2 := Sw(FP, Imm(p.lo), TMP1.lo), Sw(FP, Imm(p.hi), ZERO);
      assert Put32(p, TMP1, false) == [s1, s2];
      StoreSlot(m2, p.lo, TMP1.lo);
      var m3 := Exec1(s1, m2).value;
      StoreSlot(m3, p.hi, ZERO);
      Exec2Is(s1, s2, m2);
      PutInSlots(m, m2, Exec1(s2, m3).value, dst, 0, m2.x[TMP1.lo]);
    } else {
      var m3 := Mach(SetReg(m2.x, p.hi, 0), m2.mem);
      assert Exec1(Mv(p.hi, ZERO), m2) == Some(m3) by {
        MvIsCopy(p.hi, ZERO, m2.x);
      }
      Exec1Is(Mv(p.hi, ZERO), m2);
      PutInRegs(m, m3, dst);
    }
  }
}
