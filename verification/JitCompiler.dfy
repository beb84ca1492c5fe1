/** struct rv_jit_context and the driver bpf_int_jit_compile, on mutable state. */
module JitCompiler {
  import opened Words
  import opened Reach
  import opened Rv32
  import opened Rv32Machine
  import opened Bpf
  import opened JitEmit
  import opened JitFrame
  import opened JitLayout
  import opened JitProgram

  /** The words of a successful compilation; None when a pass reports an error. */
  ghost function CompiledWords(prog: seq<Insn>, prologue: seq<U32>, epilogue: seq<U32>, vz: bool): Option<seq<U32>> {
    var sizes := Sizes(prog, vz);
    if !FirstPass(prog, sizes, |prog|, vz) then None
    else
      match Body(prog, sizes, |prog|, |prologue|, vz)
      case None => None
      case Some(body) => Some(prologue + EncodeAll(body) + epilogue)
  }

  /** The slot after instruction `i`. */
  function After(prog: seq<Insn>, i: nat): nat
    requires i < |prog|
  {
    if prog[i].code.LdImm64? then i + 2 else i + 1
  }

  lemma AfterIs(prog: seq<Insn>, sizes: seq<nat>, i: nat, vz: bool)
    requires Verified(prog) && SizesOf(prog, sizes, vz) && i < |prog| && !Second(prog, i)
    ensures GoodInsn(prog, i) && After(prog, i) <= |prog| && !Second(prog, After(prog, i))
    ensures Start(sizes, After(prog, i)) == Start(sizes, i) + sizes[i]
    ensures prog[i].code.LdImm64? ==> Second(prog, i + 1)
  {
    assert GoodInsn(prog, i);
    if prog[i].code.LdImm64? {
      assert Second(prog, i + 1);
      SecondSize(prog, sizes, i + 1, vz);
    }
  }

  lemma {:induction false} BodyStops(prog: seq<Insn>, sizes: seq<nat>, i: nat, j: nat, base: nat, vz: bool)
    requires i <= j <= |prog| == |sizes| && Body(prog, sizes, i, base, vz).None?
    ensures Body(prog, sizes, j, base, vz).None?
    decreases j
  {
    if i < j {
      BodyStops(prog, sizes, i, j - 1, base, vz);
    }
  }

  /** The next instruction of the second pass: it fits in the image, and what it adds. */
  lemma NextFits(prog: seq<Insn>, sizes: seq<nat>, i: nat, base: nat, vz: bool)
    requires Verified(prog) && SizesOf(prog, sizes, vz) && i < |prog| && !Second(prog, i)
    requires Final1(prog, sizes, i, base, vz).Some?
    ensures |Final1(prog, sizes, i, base, vz).value| == sizes[i]
    ensures Start(sizes, i) + sizes[i] <= Start(sizes, |prog|)
  {
    AfterIs(prog, sizes, i, vz);
    Final1Size(prog, sizes, i, base, vz);
    StartMono(sizes, After(prog, i), |prog|);
  }

  lemma NextBody(prog: seq<Insn>, sizes: seq<nat>, i: nat, base: nat, vz: bool)
    requires Verified(prog) && SizesOf(prog, sizes, vz) && i < |prog| && !Second(prog, i)
    requires Body(prog, sizes, i, base, vz).Some?
    ensures After(prog, i) <= |prog|
    ensures var e := Final1(prog, sizes, i, base, vz);
      if e.None? then Body(prog, sizes, |prog|, base, vz).None?
      else Body(prog, sizes, After(prog, i), base, vz) == Some(Body(prog, sizes, i, base, vz).value + e.value)
  {
    AfterIs(prog, sizes, i, vz);
    if Final1(prog, sizes, i, base, vz).None? {
      BodyStops(prog, sizes, i + 1, |prog|, base, vz);
    } else if prog[i].code.LdImm64? {
      assert Body(prog, sizes, i + 2, base, vz) == Body(prog, sizes, i + 1, base, vz);
    }
  }

  lemma EncodeConcat(a: seq<Rv>, b: seq<Rv>)
    ensures EncodeAll(a + b) == EncodeAll(a) + EncodeAll(b)
  {
  }

  lemma WordsAppend(prologue: seq<U32>, a: seq<Rv>, b: seq<Rv>)
    ensures prologue + EncodeAll(a) + EncodeAll(b) == prologue + EncodeAll(a + b)
  {
    EncodeConcat(a, b);
  }

  lemma CountSize(prog: seq<Insn>, sizes: seq<nat>, i: nat, vz: bool)
    requires SizesOf(prog, sizes, vz) && i < |prog| && !Second(prog, i) && Counts(prog, sizes, i, vz)
    ensures |JitEmit.EmitInsn(prog, i, Counting(prog, sizes, i, vz)).value| == sizes[i]
  {
    SizeFixed(prog, i, Counting(prog, sizes, i, vz));
    assert HasSize(prog, sizes, vz, i);
  }

  /** The next instruction of the first pass: what it adds to count and table. */
  lemma NextCount(prog: seq<Insn>, sizes: seq<nat>, i: nat, vz: bool)
    requires Verified(prog) && SizesOf(prog, sizes, vz) && i < |prog| && !Second(prog, i)
    requires FirstPass(prog, sizes, i, vz)
    ensures After(prog, i) <= |prog| && GoodInsn(prog, i)
    ensures var e := JitEmit.EmitInsn(prog, i, Counting(prog, sizes, i, vz));
      if e.None? then !FirstPass(prog, sizes, |prog|, vz)
      else |e.value| == sizes[i] && FirstPass(prog, sizes, After(prog, i), vz)
  {
    AfterIs(prog, sizes, i, vz);
    if Counts(prog, sizes, i, vz) {
      CountSize(prog, sizes, i, vz);
    }
  }

  lemma OffsetsNext(prog: seq<Insn>, sizes: seq<nat>, i: nat, n: nat)
    requires i < |prog| == |sizes| && !Second(prog, i) && n == After(prog, i) <= |prog|
    requires prog[i].code.LdImm64? ==> Second(prog, i + 1)
    ensures Offsets(prog, sizes, n) == Offsets(prog, sizes, i)[n - 1 := Start(sizes, n)]
  {
    var t := Offsets(prog, sizes, i)[n - 1 := Start(sizes, n)];
    forall k | 0 <= k < |prog| ensures Offsets(prog, sizes, n)[k] == t[k] {
    }
  }

  class JitContext {
    const prog: seq<Insn>
    const vz: bool
    const prologue: seq<U32>
    const epilogue: seq<U32>
    var offset: array<int>
    var ninsns: nat
    var epilogueOffset: nat
    var insns: array?<U32>

    constructor (prog: seq<Insn>, prologue: seq<U32>, epilogue: seq<U32>, vz: bool)
      ensures this.prog == prog && this.prologue == prologue && this.epilogue == epilogue && this.vz == vz
      ensures fresh(offset) && offset[..] == Zeros(|prog|) && ninsns == 0 && epilogueOffset == 0 && insns == null
    {
      this.prog, this.prologue, this.epilogue, this.vz := prog, prologue, epilogue, vz;
      offset := new int[|prog|](_ => 0);
      ninsns, epilogueOffset, insns := 0, 0, null;
    }

    /** Room for `n` more words; in the first pass there is no image to fill. */
    ghost predicate Room(n: nat)
      reads this
    {
      insns != null ==> ninsns + n <= insns.Length
    }

    method Emit(word: U32)
      requires Room(1)
      modifies this`ninsns, insns
      ensures insns == old(insns) && ninsns == old(ninsns) + 1
      ensures insns != null ==> ninsns <= insns.Length && insns[..ninsns] == old(insns[..ninsns]) + [word]
    {
      if insns != null {
        insns[ninsns] := word;
      }
      ninsns := ninsns + 1;
    }

    method EmitWords(words: seq<U32>)
      requires Room(|words|)
      modifies this`ninsns, insns
      ensures insns == old(insns) && ninsns == old(ninsns) + |words|
      ensures insns != null ==> ninsns <= insns.Length && insns[..ninsns] == old(insns[..ninsns]) + words
    {
      var k := 0;
      while k < |words|
        invariant 0 <= k <= |words| && insns == old(insns) && ninsns == old(ninsns) + k
        invariant insns != null ==>
          old(ninsns) + |words| <= insns.Length && insns[..ninsns] == old(insns[..ninsns]) + words[..k]
      {
        assert words[..k + 1] == words[..k] + [words[k]];
        Emit(words[k]);
        k := k + 1;
      }
      assert words[..k] == words;
    }

    function View(): (l: Layout)
      reads this, offset
    {
      Layout(offset[..], ninsns, epilogueOffset, vz)
    }

    /** emit_insn: 0 or 1 (an LD_IMM64 was emitted, skip its second slot), or -1.  On failure the
        original may have emitted the loads of a jump's operands before it finds the offset out of
        range; here nothing is emitted.  The compilation fails either way and the image is dropped. */
    method EmitInsn(i: nat) returns (ret: int)
      requires i < |prog| && GoodInsn(prog, i) && offset.Length == |prog|
      requires var e := JitEmit.EmitInsn(prog, i, View()); e.Some? ==> Room(|e.value|)
      modifies this`ninsns, insns
      ensures insns == old(insns)
      ensures var e := JitEmit.EmitInsn(prog, i, old(View()));
        if e.None? then ret == -1 && ninsns == old(ninsns) && (insns != null ==> insns[..] == old(insns[..]))
        else
          && ret == (if prog[i].code.LdImm64? then 1 else 0)
          && ninsns == old(ninsns) + |e.value|
          && (insns != null ==> ninsns <= insns.Length && insns[..ninsns] == old(insns[..ninsns]) + EncodeAll(e.value))
    {
      var e := JitEmit.EmitInsn(prog, i, View());
      if e.None? {
        return -1;
      }
      EmitWords(EncodeAll(e.value));
      ret := if prog[i].code.LdImm64? then 1 else 0;
    }

    /** The first pass has gone through the slots before `n`. */
    ghost predicate Counted(n: nat)
      requires n <= |prog|
      reads this, offset
    {
      var sizes := Sizes(prog, vz);
      && insns == null && epilogueOffset == 0
      && offset[..] == Offsets(prog, sizes, n) && ninsns == Start(sizes, n)
      && FirstPass(prog, sizes, n, vz)
    }

    /** The second pass has gone through the slots before `n`. */
    ghost predicate Written(n: nat)
      requires n <= |prog|
      reads this, offset, insns
    {
      var sizes := Sizes(prog, vz);
      && insns != null && epilogueOffset == |prologue| + Start(sizes, |prog|) <= insns.Length
      && offset[..] == Offsets(prog, sizes, |prog|) && ninsns == |prologue| + Start(sizes, n) <= insns.Length
      && Body(prog, sizes, n, |prologue|, vz).Some?
      && insns[..ninsns] == prologue + EncodeAll(Body(prog, sizes, n, |prologue|, vz).value)
    }

    lemma PrepareCount(i: nat, sizes: seq<nat>)
      requires Verified(prog) && i < |prog| && !Second(prog, i) && Counted(i) && sizes == Sizes(prog, vz)
      ensures GoodInsn(prog, i) && offset.Length == |prog| && View() == Counting(prog, sizes, i, vz)
    {
      assert GoodInsn(prog, i);
    }

    lemma PrepareWrite(i: nat, sizes: seq<nat>, e: Option<seq<Rv>>)
      requires Verified(prog) && i < |prog| && !Second(prog, i) && Written(i) && sizes == Sizes(prog, vz)
      requires e == Final1(prog, sizes, i, |prologue|, vz)
      ensures GoodInsn(prog, i) && offset.Length == |prog| && JitEmit.EmitInsn(prog, i, View()) == e
      ensures e.Some? ==> |e.value| == sizes[i] && Room(|e.value|)
    {
      assert GoodInsn(prog, i);
      assert View() == Final(prog, sizes, i, |prologue|, vz);
      if e.Some? {
        NextFits(prog, sizes, i, |prologue|, vz);
      }
    }

    /** One turn of the loop of build_body. */
    method BodyInsn(i: nat) returns (ok: bool, next: nat)
      requires Verified(prog) && i < |prog| && !Second(prog, i) && (Counted(i) || Written(i))
      modifies this`ninsns, offset, insns
      ensures insns == old(insns) && After(prog, i) <= |prog| && (ok ==> next == After(prog, i))
      ensures insns == null ==> if ok then Counted(next) else !FirstPass(prog, Sizes(prog, vz), |prog|, vz)
      ensures insns != null ==> if ok then Written(next) else Body(prog, Sizes(prog, vz), |prog|, |prologue|, vz).None?
    {
      ghost var sizes := Sizes(prog, vz);
      ghost var e := Final1(prog, sizes, i, |prologue|, vz);
      AfterIs(prog, sizes, i, vz);
      if insns == null {
        PrepareCount(i, sizes);
        NextCount(prog, sizes, i, vz);
        OffsetsNext(prog, sizes, i, After(prog, i));
      } else {
        PrepareWrite(i, sizes, e);
        NextBody(prog, sizes, i, |prologue|, vz);
      }
      var ret := EmitInsn(i);
      next := if ret > 0 then i + 2 else i + 1;
      ok := ret >= 0;
      if insns == null {
        offset[next - 1] := ninsns;
      } else if ok {
        WordsAppend(prologue, Body(prog, sizes, i, |prologue|, vz).value, e.value);
      }
    }

    /** build_body. */
    method BuildBody() returns (ok: bool)
      requires Verified(prog) && (Counted(0) || Written(0))
      modifies this`ninsns, offset, insns
      ensures insns == old(insns)
      ensures insns == null ==> if ok then Counted(|prog|) else !FirstPass(prog, Sizes(prog, vz), |prog|, vz)
      ensures insns != null ==>
        if ok then Written(|prog|) else Body(prog, Sizes(prog, vz), |prog|, |prologue|, vz).None?
    {
      var i := 0;
      ok := true;
      while i < |prog|
        invariant 0 <= i <= |prog| && !Second(prog, i) && insns == old(insns)
        invariant if insns == null then Counted(i) else Written(i)
      {
        ghost var j := i;
        ok, i := BodyInsn(i);
        if !ok {
          return;
        }
        AfterIs(prog, Sizes(prog, vz), j, vz);
      }
    }

    /** bpf_int_jit_compile, from the first pass to the finished image. */
    method Compile() returns (ok: bool)
      requires Verified(prog)
      requires offset[..] == Zeros(|prog|) && ninsns == 0 && epilogueOffset == 0 && insns == null
      modifies this, offset
      ensures ok <==> CompiledWords(prog, prologue, epilogue, vz).Some?
      ensures ok ==>
        && insns != null && ninsns == insns.Length
        && insns[..] == CompiledWords(prog, prologue, epilogue, vz).value
    {
      ghost var sizes := Sizes(prog, vz);
      assert Counted(0);
      ok := BuildBody();
      if !ok {
        return;
      }
      EmitWords(prologue);
      epilogueOffset := ninsns;
      EmitWords(epilogue);
      insns := new U32[ninsns];
      ninsns := 0;
      EmitWords(prologue);
      assert Written(0);
      ok := BuildBody();
      if !ok {
        return;
      }
      EmitWords(epilogue);
    }
  }

  lemma CompiledBody(prog: seq<Insn>, prologue: seq<U32>, epilogue: seq<U32>, words: seq<U32>) returns (body: seq<Rv>)
    requires CompiledWords(prog, prologue, epilogue, false) == Some(words)
    ensures CompilesTo(prog, |prologue|, false, body) && words == prologue + EncodeAll(body) + epilogue
  {
    body := Body(prog, Sizes(prog, false), |prog|, |prologue|, false).value;
  }

  /** What Compile leaves in memory runs as the program does: from the end of the prologue, whenever
      the interpreter returns, the hart comes to the start of the epilogue with the interpreter's
      registers in their homes. */
  lemma CompiledSimulates(prog: seq<Insn>, prologue: seq<U32>, epilogue: seq<U32>, words: seq<U32>,
                          n: nat, regs: BpfRegs, regs': BpfRegs, m: Mach) returns (m': Mach)
    requires Verified(prog) && CompiledWords(prog, prologue, epilogue, false) == Some(words)
    requires Faithful(prog, Sizes(prog, false)) && Rel(regs, m) && ReturnsIn(prog, BpfState(0, regs), n, regs')
    ensures Reaches(WordStepper(words), Config(|prologue|, m), Config(|words| - |epilogue|, m'))
    ensures Rel(regs', m') && Outside(m, m') && Join(m'.x[18], m'.x[9]) == regs'[0]
  {
    var body := CompiledBody(prog, prologue, epilogue, words);
    m' := ImageSimulates(prog, prologue, body, epilogue, words, n, regs, regs', m);
  }
}
