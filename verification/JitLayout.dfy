/** The two passes of bpf_int_jit_compile: the first counts, the second emits. */
module JitLayout {
  import opened Reach
  import opened Rv32
  import opened Rv32Machine
  import opened Bpf
  import opened JitEmit

  function Zeros(n: nat): (s: seq<int>)
    ensures |s| == n && forall k :: 0 <= k < n ==> s[k] == 0
  {
    seq(n, _ => 0)
  }

  /** The number of instructions emitted for `i`, whatever the offsets. */
  function Size(prog: seq<Insn>, i: nat, vz: bool): nat
    requires i < |prog| && GoodInsn(prog, i)
  {
    match EmitInsn(prog, i, Layout(Zeros(|prog|), 0, 0, vz))
    case None => 0
    case Some(code) => |code|
  }

  lemma SizeFixed(prog: seq<Insn>, i: nat, l: Layout)
    requires i < |prog| && GoodInsn(prog, i) && |l.offset| == |prog| && EmitInsn(prog, i, l).Some?
    ensures |EmitInsn(prog, i, l).value| == Size(prog, i, l.vz)
  {
    if IsJump(prog[i].code) {
      JumpSize(prog, i, l);
    }
  }

  lemma JumpSize(prog: seq<Insn>, i: nat, l: Layout)
    requires i < |prog| && GoodInsn(prog, i) && |l.offset| == |prog| && EmitInsn(prog, i, l).Some?
    requires IsJump(prog[i].code)
    ensures |EmitInsn(prog, i, l).value| == Size(prog, i, l.vz)
  {
    var insn := prog[i];
    var off := RvOffset(l, i + insn.off, i);
    assert RvOffset(Layout(Zeros(|prog|), 0, 0, l.vz), i + insn.off, i) == 4;
    if insn.code.Jmp64? {
      Jump64Size(insn, insn.code.jop, insn.code.x, 4, off);
    } else if insn.code.Jmp32? {
      Jump32Size(insn, insn.code.jop, insn.code.x, 4, off);
    }
  }

  lemma Jump64Size(insn: Insn, op: JmpOp, x: bool, off: int, off': int)
    ensures |EmitJump64(insn, op, x, off)| == |EmitJump64(insn, op, x, off')|
  {
    CoreJump64Size(op, At(Home(insn.dst), TMP1), At(SourcePair(insn, x), TMP2), off, off');
  }

  lemma CoreJump64Size(op: JmpOp, a: Pair, b: Pair, off: int, off': int)
    requires a.InRegs() && b.InRegs()
    ensures |CoreJump64(op, a, b, off)| == |CoreJump64(op, a, b, off')|
  {
  }

  lemma Jump32Size(insn: Insn, op: JmpOp, x: bool, off: int, off': int)
    ensures |EmitJump32(insn, op, x, off)| == |EmitJump32(insn, op, x, off')|
  {
    CoreJump32Size(op, At(Home(insn.dst), TMP1).lo, At(SourcePair(insn, x), TMP2).lo, off, off');
  }

  lemma CoreJump32Size(op: JmpOp, a: Reg, b: Reg, off: int, off': int)
    ensures |CoreJump32(op, a, b, off)| == |CoreJump32(op, a, b, off')|
  {
  }

  /** The number of instructions emitted for each slot. */
  function Sizes(prog: seq<Insn>, vz: bool): (sizes: seq<nat>)
    ensures SizesOf(prog, sizes, vz)
  {
    seq(|prog|, i requires 0 <= i < |prog| => SizeAt(prog, i, vz))
  }

  function SizeAt(prog: seq<Insn>, i: nat, vz: bool): nat
    requires i < |prog|
  {
    if Second(prog, i) || !GoodInsn(prog, i) then 0 else Size(prog, i, vz)
  }

  ghost predicate HasSize(prog: seq<Insn>, sizes: seq<nat>, vz: bool, i: nat) {
    i < |prog| == |sizes| && sizes[i] == SizeAt(prog, i, vz)
  }

  ghost predicate SizesOf(prog: seq<Insn>, sizes: seq<nat>, vz: bool) {
    |sizes| == |prog| && forall i {:trigger HasSize(prog, sizes, vz, i)} :: 0 <= i < |prog| ==>
      HasSize(prog, sizes, vz, i)
  }

  /** Where the code for slot `i` starts, counted from the start of the body. */
  function Start(sizes: seq<nat>, i: nat): nat
    requires i <= |sizes|
  {
    if i == 0 then 0 else Start(sizes, i - 1) + sizes[i - 1]
  }

  lemma {:induction false} StartMono(sizes: seq<nat>, i: nat, j: nat)
    requires i <= j <= |sizes|
    ensures Start(sizes, i) <= Start(sizes, j)
    decreases j
  {
    if i < j {
      StartMono(sizes, i, j - 1);
    }
  }

  /** The offset table after the first pass has gone through the slots before `n`. */
  function Offsets(prog: seq<Insn>, sizes: seq<nat>, n: nat): (t: seq<int>)
    requires |sizes| == |prog|
    ensures |t| == |prog|
  {
    seq(|prog|, k requires 0 <= k < |prog| =>
      if k >= n || (prog[k].code.LdImm64? && !Second(prog, k)) then 0 else Start(sizes, k + 1))
  }

  /** The context in which the second pass emits instruction `i`. */
  function Final(prog: seq<Insn>, sizes: seq<nat>, i: nat, base: nat, vz: bool): (l: Layout)
    requires i <= |prog| == |sizes|
    ensures |l.offset| == |prog| && l.vz == vz
  {
    Layout(Offsets(prog, sizes, |prog|), base + Start(sizes, i), base + Start(sizes, |prog|), vz)
  }

  /** The context in which the first pass meets instruction `i`. */
  function Counting(prog: seq<Insn>, sizes: seq<nat>, i: nat, vz: bool): (l: Layout)
    requires i <= |prog| == |sizes|
    ensures |l.offset| == |prog| && l.vz == vz
  {
    Layout(Offsets(prog, sizes, i), Start(sizes, i), 0, vz)
  }

  ghost predicate Counts(prog: seq<Insn>, sizes: seq<nat>, i: nat, vz: bool)
    requires i < |prog| == |sizes|
  {
    GoodInsn(prog, i) && EmitInsn(prog, i, Counting(prog, sizes, i, vz)).Some?
  }

  ghost predicate FirstPass(prog: seq<Insn>, sizes: seq<nat>, n: nat, vz: bool)
    requires n <= |prog| == |sizes|
  {
    forall i {:trigger Counts(prog, sizes, i, vz)} :: 0 <= i < n && !Second(prog, i) ==> Counts(prog, sizes, i, vz)
  }

  /** What the second pass emits for instruction `i`. */
  function Final1(prog: seq<Insn>, sizes: seq<nat>, i: nat, base: nat, vz: bool): Option<seq<Rv>>
    requires i < |prog| == |sizes|
  {
    if GoodInsn(prog, i) then EmitInsn(prog, i, Final(prog, sizes, i, base, vz)) else None
  }

  /** What the second pass emits for the slots before `n`. */
  function Body(prog: seq<Insn>, sizes: seq<nat>, n: nat, base: nat, vz: bool): Option<seq<Rv>>
    requires n <= |prog| == |sizes|
  {
    if n == 0 then Some([])
    else if Second(prog, n - 1) then Body(prog, sizes, n - 1, base, vz)
    else
      match (Body(prog, sizes, n - 1, base, vz), Final1(prog, sizes, n - 1, base, vz))
      case (Some(a), Some(b)) => Some(a + b)
      case _ => None
  }

  /** The second pass emits for `i` as many instructions as the table says. */
  lemma Final1Size(prog: seq<Insn>, sizes: seq<nat>, i: nat, base: nat, vz: bool)
    requires i < |prog| && SizesOf(prog, sizes, vz) && !Second(prog, i) && Final1(prog, sizes, i, base, vz).Some?
    ensures |Final1(prog, sizes, i, base, vz).value| == sizes[i]
  {
    SizeFixed(prog, i, Final(prog, sizes, i, base, vz));
    assert HasSize(prog, sizes, vz, i);
  }

  lemma SecondSize(prog: seq<Insn>, sizes: seq<nat>, i: nat, vz: bool)
    requires i < |prog| && SizesOf(prog, sizes, vz) && Second(prog, i)
    ensures sizes[i] == 0
  {
    assert HasSize(prog, sizes, vz, i);
  }

  lemma {:induction false} BodyLength(prog: seq<Insn>, sizes: seq<nat>, n: nat, base: nat, vz: bool)
    requires n <= |prog| && SizesOf(prog, sizes, vz) && Body(prog, sizes, n, base, vz).Some?
    ensures |Body(prog, sizes, n, base, vz).value| == Start(sizes, n)
  {
    if n > 0 {
      BodyLength(prog, sizes, n - 1, base, vz);
      if Second(prog, n - 1) {
        SecondSize(prog, sizes, n - 1, vz);
      } else {
        Final1Size(prog, sizes, n - 1, base, vz);
      }
    }
  }

  ghost predicate PlacedAt(body: seq<Rv>, at: int, e: Option<seq<Rv>>) {
    e.Some? && CodeAt(body, at, e.value)
  }

  lemma PlacedLonger(a: seq<Rv>, b: seq<Rv>, at: int, e: Option<seq<Rv>>)
    requires PlacedAt(a, at, e)
    ensures PlacedAt(a + b, at, e)
  {
    assert (a + b)[at..at + |e.value|] == a[at..at + |e.value|];
  }

  lemma PlacedLast(a: seq<Rv>, e: Option<seq<Rv>>)
    requires e.Some?
    ensures PlacedAt(a + e.value, |a|, e)
  {
  }

  /** The code for instruction `i` stands at its start. */
  lemma {:induction false} BodyAt(prog: seq<Insn>, sizes: seq<nat>, n: nat, base: nat, vz: bool, i: nat)
    requires i < n <= |prog| && SizesOf(prog, sizes, vz) && Body(prog, sizes, n, base, vz).Some? && !Second(prog, i)
    ensures PlacedAt(Body(prog, sizes, n, base, vz).value, Start(sizes, i), Final1(prog, sizes, i, base, vz))
  {
    if i == n - 1 {
      BodyLength(prog, sizes, i, base, vz);
      PlacedLast(Body(prog, sizes, i, base, vz).value, Final1(prog, sizes, i, base, vz));
    } else {
      BodyAt(prog, sizes, n - 1, base, vz, i);
      if !Second(prog, n - 1) {
        PlacedLonger(Body(prog, sizes, n - 1, base, vz).value, Final1(prog, sizes, n - 1, base, vz).value,
                     Start(sizes, i), Final1(prog, sizes, i, base, vz));
      }
    }
  }

  /** Both passes succeed and leave `body`. */
  ghost predicate CompilesTo(prog: seq<Insn>, base: nat, vz: bool, body: seq<Rv>) {
    var sizes := Sizes(prog, vz);
    FirstPass(prog, sizes, |prog|, vz) && Body(prog, sizes, |prog|, base, vz) == Some(body)
  }

  /** The offset the second pass computes for the jump `i` leads from the last instruction
      emitted for it to the start of its target. */
  lemma JumpOffset(prog: seq<Insn>, sizes: seq<nat>, i: nat, base: nat, vz: bool)
    requires i < |prog| == |sizes| && !Second(prog, i) && IsJump(prog[i].code) && GoodInsn(prog, i)
    ensures RvOffset(Final(prog, sizes, i, base, vz), i + prog[i].off, i)
         == 4 * (Start(sizes, i + prog[i].off + 1) - (Start(sizes, i + 1) - 1))
  {
    var offset, to := Offsets(prog, sizes, |prog|), i + prog[i].off;
    assert offset[i] == Start(sizes, i + 1) && offset[to] == Start(sizes, to + 1);
  }

  lemma ExitOffset(prog: seq<Insn>, sizes: seq<nat>, i: nat, base: nat, vz: bool)
    requires i < |prog| == |sizes|
    ensures EpilogueOffset(Final(prog, sizes, i, base, vz)) == 4 * (Start(sizes, |prog|) - Start(sizes, i))
  {
  }
}
