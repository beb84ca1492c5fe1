/** The 64-bit constant loader of bpf_jit_riscv64.c: emit_imm, the instructions it uses, and
    __ffs of bitops.h. */
module Rv64Imm {
  import opened Words
  import opened Reach
  import opened Rv32

  type S64 = v: int | -0x8000_0000_0000_0000 <= v < 0x8000_0000_0000_0000
  type Shamt = n: int | 0 <= n < 64

  // ---------------------------------------------------------------- RV64 instructions

  datatype Rv64 =
    | Lui64(rd: Reg, upper: Imm20)
    | Addi(rd: Reg, rs1: Reg, imm: Imm12)
    | Addiw(rd: Reg, rs1: Reg, imm: Imm12)
    | Slli(rd: Reg, rs1: Reg, shamt: Shamt)

  type Regs64 = x: seq<U64> | |x| == 32 && x[0] == 0 witness seq(32, _ => 0)

  function SetReg64(x: Regs64, rd: Reg, v: U64): Regs64 {
    if rd == 0 then x else x[rd := v]
  }

  function SImm12(imm: Imm12): int {
    if imm < 0x800 then imm else imm - 0x1000
  }

  /** LUI and ADDIW sign-extend their 32-bit results. */
  function Result(i: Rv64, x: Regs64): U64 {
    match i
    case Lui64(_, upper) => Mod64(Signed32(upper * 0x1000))
    case Addi(_, rs1, imm) => Mod64(x[rs1] as int + SImm12(imm))
    case Addiw(_, rs1, imm) => Mod64(Signed32(Mod32(x[rs1] as int + SImm12(imm))))
    case Slli(_, rs1, shamt) => Mod64(Shl(x[rs1], shamt))
  }

  function Exec64(code: seq<Rv64>, x: Regs64): Regs64 {
    if code == [] then x else Exec64(code[1..], SetReg64(x, code[0].rd, Result(code[0], x)))
  }

  lemma {:induction false} Exec64Concat(a: seq<Rv64>, b: seq<Rv64>, x: Regs64)
    ensures Exec64(a + b, x) == Exec64(b, Exec64(a, x))
    decreases |a|
  {
    if a == [] {
      assert a + b == b;
    } else {
      Exec64Concat(a[1..], b, SetReg64(x, a[0].rd, Result(a[0], x)));
      assert (a + b)[1..] == a[1..] + b;
    }
  }

  function Fields64(i: Rv64): (f: Fields)
    ensures f.Valid()
  {
    match i
    case Lui64(rd, imm) => UFields(imm, rd, 0x37)
    case Addi(rd, rs1, imm) => IFields(imm, rs1, 0, rd, 0x13)
    case Addiw(rd, rs1, imm) => IFields(imm, rs1, 0, rd, 0x1b)
    case Slli(rd, rs1, shamt) => IFields(shamt, rs1, 1, rd, 0x13)
  }

  function Encode64(i: Rv64): U32 {
    Assemble(Fields64(i))
  }

  /** The shift amount of RV64 has six bits, the lowest bit of funct7 among them. */
  function Decode64(w: U32): Option<Rv64> {
    var f := Split(w);
    var imm := f.funct7 * 32 + f.rs2;
    if f.opcode == 0x37 then Some(Lui64(f.rd, UpperImm(f)))
    else if f.opcode == 0x13 && f.funct3 == 0 then Some(Addi(f.rd, f.rs1, imm))
    else if f.opcode == 0x1b && f.funct3 == 0 then Some(Addiw(f.rd, f.rs1, imm))
    else if f.opcode == 0x13 && f.funct3 == 1 && f.funct7 < 2 then Some(Slli(f.rd, f.rs1, imm))
    else None
  }

  lemma DecodeEncode64(i: Rv64)
    ensures Decode64(Encode64(i)) == Some(i)
  {
    SplitAssemble(Fields64(i));
    if i.Lui64? {
      UpperFields(i.upper, i.rd, 0x37);
    }
  }

  // ---------------------------------------------------------------- the lowest set bit

  function Abs(x: int): nat {
    if x < 0 then -x else x
  }

  /** How many times 2 divides x. */
  function Twos(x: int): nat
    requires x != 0
    decreases Abs(x)
  {
    if x % 2 == 1 then 0 else 1 + Twos(x / 2)
  }

  lemma {:induction false} TwosBound(x: int, n: nat)
    requires x != 0 && Abs(x) < Pow2(n)
    ensures Twos(x) < n
    decreases n
  {
    if x % 2 == 0 {
      TwosBound(x / 2, n - 1);
    }
  }

  /** Dividing out the twos is exact. */
  lemma {:induction false} TwosExact(x: int)
    requires x != 0
    ensures Shl(Shr(x, Twos(x)), Twos(x)) == x
    ensures Abs(Shr(x, Twos(x))) <= Abs(x)
    decreases Abs(x)
  {
    if x % 2 == 0 {
      TwosExact(x / 2);
    }
  }

  lemma {:induction false} TwosShl(w: int, n: nat)
    requires w != 0 && Shl(w, n) != 0
    ensures Twos(Shl(w, n)) == n + Twos(w)
  {
    if n > 0 {
      assert Shl(w, n) == 2 * Shl(w, n - 1);
      TwosShl(w, n - 1);
    }
  }

  /** Adding a multiple of 2^n does not change fewer than n twos. */
  lemma {:induction false} TwosPeriod(x: int, k: int, n: nat)
    requires x != 0 && Twos(x) < n && x + Shl(k, n) != 0
    ensures Twos(x + Shl(k, n)) == Twos(x)
    decreases n
  {
    if x % 2 == 0 {
      assert (x + Shl(k, n)) / 2 == x / 2 + Shl(k, n - 1);
      TwosPeriod(x / 2, k, n - 1);
    }
  }

  lemma TwosOfWord(v: S64)
    requires v != 0
    ensures Mod64(v) != 0 && Twos(Mod64(v)) == Twos(v) < 64
  {
    Pow2Values();
    TwosBound(v, 64);
    ShlIsMul(1, 64);
    if v < 0 {
      assert Mod64(v) == v + 0x1_0000_0000_0000_0000;
      TwosPeriod(v, 1, 64);
    }
  }

  lemma LowClear(w: nat, k: nat)
    requires w > 0 && Low(w, k) == 0
    ensures Shr(w, k) > 0 && Twos(w) == k + Twos(Shr(w, k))
  {
    Decompose(w, k);
    if Shr(w, k) == 0 {
      ShlZero(k);
    }
    TwosShl(Shr(w, k), k);
  }

  /** A halving test: the low k bits are clear exactly when there are k twos to shift out. */
  lemma Halve(w: nat, k: nat, p: nat)
    requires w > 0 && p == Pow2(k)
    ensures w % p == 0 <==> Twos(w) >= k
    ensures w % p == 0 ==> w / p > 0 && Twos(w / p) == Twos(w) - k
  {
    ShrLowAreDivMod(w, k);
    if w % p == 0 {
      LowClear(w, k);
    } else if Twos(w) >= k {
      var t := Twos(w);
      TwosExact(w);
      ShlAdd(Shr(w, t), t - k, k);
      assert t - k + k == t;
      ShlIsMul(Shl(Shr(w, t), t - k), k);
      Commute(Shl(Shr(w, t), t - k), p);
      ModUnique(w, p, Shl(Shr(w, t), t - k), 0);
    }
  }

  /** One of the tests: if the low k bits are clear, shift them out and count them. */
  method Halved(word: nat, count: nat, k: nat, p: nat) returns (num: nat, w: nat)
    requires word > 0 && p == Pow2(k) && Twos(word) < 2 * k
    ensures w > 0 && num + Twos(w) == count + Twos(word) && Twos(w) < k
  {
    Halve(word, k, p);
    num, w := count, word;
    if w % p == 0 {
      num := num + k;
      w := w / p;
    }
  }

  /** __ffs: successive halving finds the lowest set bit. */
  method Ffs(word: U64) returns (num: nat)
    requires word != 0
    ensures num == Twos(word)
  {
    Halvings();
    TwosBound(word, 64);
    var w: nat := word;
    num := 0;
    num, w := Halved(w, num, 32, 0x1_0000_0000);
    num, w := Halved(w, num, 16, 0x1_0000);
    num, w := Halved(w, num, 8, 0x100);
    num, w := Halved(w, num, 4, 0x10);
    num, w := Halved(w, num, 2, 4);
    if w % 2 == 0 {
      num := num + 1;
    }
  }

  lemma Halvings()
    ensures Pow2(2) == 4 && Pow2(4) == 0x10 && Pow2(8) == 0x100 && Pow2(16) == 0x1_0000
    ensures Pow2(32) == 0x1_0000_0000 && Pow2(64) == 0x1_0000_0000_0000_0000
  {
    Pow2Values();
    assert Pow2(2) == 4;
    Pow2Add(2, 2);
  }

  // ---------------------------------------------------------------- emit_imm

  /** (val + 2^11) >> 12, the sum wrapping around like any 64-bit sum. */
  function Upper(v: S64): S64 {
    Signed64(Mod64(v + 0x800)) / 0x1000
  }

  function Lower(v: S64): Imm12 {
    v % 0x1000
  }

  predicate Is32b(v: int) {
    -0x8000_0000 <= v < 0x8000_0000
  }

  lemma UpperSmaller(v: S64)
    requires !Is32b(v)
    ensures Upper(v) != 0 && Abs(Upper(v)) * 0x1000 <= Abs(v) + 0x1000
    ensures -0x8_0000_0000_0000 <= Upper(v) < 0x8_0000_0000_0000
  {
  }

  /** What is left of the upper part when its twos are shifted out. */
  function Rest(v: S64): (u: S64)
    requires !Is32b(v)
    ensures Abs(u) < Abs(v)
  {
    UpperSmaller(v);
    TwosExact(Upper(v));
    Shr(Upper(v), Twos(Upper(v)))
  }

  lemma ShiftFits(v: S64)
    requires !Is32b(v)
    ensures Upper(v) != 0 && Twos(Upper(v)) + 12 < 64
  {
    UpperSmaller(v);
    Pow2Values();
    assert Pow2(52) == 0x10_0000_0000_0000 by {
      assert Pow2(2) == 4 && Pow2(4) == 16;
      Pow2Add(16, 4);
      Pow2Add(32, 20);
    }
    TwosBound(Upper(v), 52);
  }

  /** The instructions emit_imm appends. */
  function ImmCode(rd: Reg, v: S64): seq<Rv64>
    decreases Abs(v)
  {
    if Is32b(v) then
      if Upper(v) == 0 then [Addi(rd, 0, Lower(v))]
      else [Lui64(rd, Upper(v) % 0x10_0000), Addiw(rd, rd, Lower(v))]
    else
      ShiftFits(v);
      ImmCode(rd, Rest(v))
      + [Slli(rd, rd, Twos(Upper(v)) + 12)]
      + if Lower(v) != 0 then [Addi(rd, rd, Lower(v))] else []
  }

  class JitContext64 {
    var insns: seq<U32>

    constructor ()
      ensures insns == []
    {
      insns := [];
    }

    method Emit(i: Rv64)
      modifies this
      ensures insns == old(insns) + [Encode64(i)]
    {
      insns := insns + [Encode64(i)];
    }

    /** emit_imm. */
    method EmitImm(rd: Reg, v: S64)
      modifies this
      ensures insns == old(insns) + EncodeAll64(ImmCode(rd, v))
      decreases Abs(v)
    {
      var upper, lower := Upper(v), Lower(v);
      if Is32b(v) {
        if upper != 0 {
          Emit(Lui64(rd, upper % 0x10_0000));
        }
        if upper == 0 {
          Emit(Addi(rd, 0, lower));
          return;
        }
        Emit(Addiw(rd, rd, lower));
        return;
      }
      ShiftFits(v);
      TwosOfWord(upper);
      var shift := Ffs(Mod64(upper));
      upper := Rest(v);
      shift := shift + 12;
      EmitImm(rd, upper);
      Emit(Slli(rd, rd, shift));
      if lower != 0 {
        Emit(Addi(rd, rd, lower));
      }
    }
  }

  function EncodeAll64(code: seq<Rv64>): (words: seq<U32>)
    ensures |words| == |code| && forall k :: 0 <= k < |code| ==> words[k] == Encode64(code[k])
  {
    seq(|code|, k requires 0 <= k < |code| => Encode64(code[k]))
  }

  // ---------------------------------------------------------------- the value loaded

  /** The parts add up, modulo 2^64 also where val + 2^11 wraps around. */
  lemma PartsAddUp(v: S64)
    ensures Mod64(Upper(v) * 0x1000 + SImm12(Lower(v))) == Mod64(v)
  {
    var w := Signed64(Mod64(v + 0x800));
    assert w == v + 0x800 || w == v + 0x800 - 0x1_0000_0000_0000_0000;
    assert w == Upper(v) * 0x1000 + w % 0x1000;
    var q := v / 0x1000;
    assert v == q * 0x1000 + Lower(v);
    if Lower(v) < 0x800 {
      assert w % 0x1000 == Lower(v) + 0x800;
    } else {
      assert w % 0x1000 == Lower(v) - 0x800;
    }
    assert Upper(v) * 0x1000 + SImm12(Lower(v)) == w - 0x800;
  }

  lemma Mod32Period(x: int, k: int)
    ensures Mod32(x + k * 0x1_0000_0000) == Mod32(x)
  {
  }

  lemma PartsExact(v: S64)
    requires Is32b(v)
    ensures Upper(v) * 0x1000 + SImm12(Lower(v)) == v
  {
    var q := v / 0x1000;
    assert v == q * 0x1000 + Lower(v);
  }

  /** LUI keeps twenty bits of the upper part and sign-extends: it is off by a multiple of 2^32. */
  lemma LuiOff(u: int) returns (k: int)
    ensures Mod64(Signed32(u % 0x10_0000 * 0x1000)) == u * 0x1000 + k * 0x1_0000_0000
  {
    var q := u / 0x10_0000;
    assert u == q * 0x10_0000 + u % 0x10_0000;
    var s := Signed32(u % 0x10_0000 * 0x1000);
    if s >= 0 {
      k := -q;
    } else {
      k := -q - 1 + 0x1_0000_0000;
      assert Mod64(s) == s + 0x1_0000_0000_0000_0000;
    }
  }

  lemma Small32(v: S64)
    requires Is32b(v)
    ensures Upper(v) == 0 ==> SImm12(Lower(v)) == v
    ensures Mod32(Mod64(Signed32(Upper(v) % 0x10_0000 * 0x1000)) as int + SImm12(Lower(v))) == Mod32(v)
  {
    PartsExact(v);
    var k := LuiOff(Upper(v));
    Mod32Period(v, k);
  }

  /** Shifting left commutes with reduction modulo 2^64. */
  lemma ShlMod(u: int, n: nat)
    ensures Mod64(Shl(Mod64(u), n)) == Mod64(Shl(u, n))
  {
    var k := u / 0x1_0000_0000_0000_0000;
    assert u == Mod64(u) + k * 0x1_0000_0000_0000_0000;
    ShlPlus(Mod64(u), k * 0x1_0000_0000_0000_0000, n);
    ShlTimes(k, n);
    ModPeriod(Shl(Mod64(u), n), Shl(k, n));
  }

  lemma {:induction false} ShlTimes(k: int, n: nat)
    ensures Shl(k * 0x1_0000_0000_0000_0000, n) == Shl(k, n) * 0x1_0000_0000_0000_0000
  {
    if n > 0 {
      ShlTimes(k, n - 1);
    }
  }

  lemma ModPeriod(x: int, k: int)
    ensures Mod64(x + k * 0x1_0000_0000_0000_0000) == Mod64(x)
  {
  }

  lemma ModAgain64(x: int, y: int)
    ensures Mod64(Mod64(x) as int + y) == Mod64(x + y)
  {
  }

  lemma RestShifted(v: S64)
    requires !Is32b(v)
    ensures Upper(v) != 0 && Shl(Rest(v), Twos(Upper(v)) + 12) == Upper(v) * 0x1000
  {
    UpperSmaller(v);
    TwosExact(Upper(v));
    ShlAdd(Rest(v), Twos(Upper(v)), 12);
    ShlIsMul(Upper(v), 12);
    assert Pow2(12) == 0x1000 by {
      Halvings();
      Pow2Add(8, 4);
    }
  }

  lemma Exec64One(i: Rv64, x: Regs64)
    ensures Exec64([i], x) == SetReg64(x, i.rd, Result(i, x))
  {
    assert [i][1..] == [];
  }

  /** The tail of the recursive case: shift, then add the low part. */
  lemma TailLoads(rd: Reg, v: S64, x: Regs64)
    requires rd != 0 && !Is32b(v) && Upper(v) != 0 && Twos(Upper(v)) + 12 < 64 && x[rd] == Mod64(Rest(v))
    ensures var tail := [Slli(rd, rd, Twos(Upper(v)) + 12)] + if Lower(v) != 0 then [Addi(rd, rd, Lower(v))] else [];
      Exec64(tail, x) == x[rd := Mod64(v)]
  {
    var slli := Slli(rd, rd, Twos(Upper(v)) + 12);
    ShlMod(Rest(v), Twos(Upper(v)) + 12);
    RestShifted(v);
    PartsAddUp(v);
    Exec64One(slli, x);
    var x1 := Exec64([slli], x);
    if Lower(v) != 0 {
      Exec64Concat([slli], [Addi(rd, rd, Lower(v))], x);
      Exec64One(Addi(rd, rd, Lower(v)), x1);
      ModAgain64(Upper(v) * 0x1000, SImm12(Lower(v)));
    } else {
      assert [slli] + [] == [slli];
    }
  }

  lemma SmallLoads(rd: Reg, v: S64, x: Regs64)
    requires rd != 0 && Is32b(v)
    ensures Exec64(ImmCode(rd, v), x) == x[rd := Mod64(v)]
  {
    Small32(v);
    if Upper(v) == 0 {
      Exec64One(Addi(rd, 0, Lower(v)), x);
    } else {
      var lui, addiw := Lui64(rd, Upper(v) % 0x10_0000), Addiw(rd, rd, Lower(v));
      Exec64Concat([lui], [addiw], x);
      Exec64One(lui, x);
      Exec64One(addiw, Exec64([lui], x));
      assert [lui] + [addiw] == [lui, addiw];
      assert Signed32(Mod32(v)) == v;
    }
  }

  /** For every 64-bit value, the emitted code leaves exactly that value in rd and touches no
      other register. */
  lemma {:induction false} ImmCodeLoads(rd: Reg, v: S64, x: Regs64)
    requires rd != 0
    ensures Exec64(ImmCode(rd, v), x) == x[rd := Mod64(v)]
    decreases Abs(v)
  {
    if Is32b(v) {
      SmallLoads(rd, v, x);
    } else {
      ShiftFits(v);
      ImmCodeLoads(rd, Rest(v), x);
      var x1 := x[rd := Mod64(Rest(v))];
      var tail := [Slli(rd, rd, Twos(Upper(v)) + 12)] + if Lower(v) != 0 then [Addi(rd, rd, Lower(v))] else [];
      TailLoads(rd, v, x1);
      Exec64Concat(ImmCode(rd, Rest(v)), tail, x);
      assert ImmCode(rd, v) == ImmCode(rd, Rest(v)) + tail;
    }
  }

  // ---------------------------------------------------------------- its length

  lemma RestBound(v: S64)
    requires !Is32b(v)
    ensures Abs(Rest(v)) * 0x1000 <= Abs(v) + 0x1000 && Abs(Rest(v)) <= 0x8_0000_0000_0000
  {
    UpperSmaller(v);
    TwosExact(Upper(v));
  }

  lemma {:induction false} LengthBy(rd: Reg, v: S64, depth: nat)
    requires Is32b(v) || (depth >= 1 && Abs(v) <= 0x81_0000_0000) || (depth >= 2 && Abs(v) <= 0x8_0000_0000_0000)
      || depth >= 3
    ensures |ImmCode(rd, v)| <= 2 + 2 * depth
    decreases depth
  {
    if !Is32b(v) {
      RestBound(v);
      LengthBy(rd, Rest(v), depth - 1);
    }
  }

  /** At most eight instructions. */
  lemma ImmCodeLength(rd: Reg, v: S64)
    ensures 1 <= |ImmCode(rd, v)| <= 8
  {
    LengthBy(rd, v, 3);
    if !Is32b(v) {
      ShiftFits(v);
    }
  }

  lemma OneLevel(rd: Reg, v: S64, u: S64)
    requires !Is32b(v) && v == u * 0x1000 + 1 && u % 2 == 1
    ensures |ImmCode(rd, v)| == |ImmCode(rd, u)| + 2
  {
    assert Upper(v) == u && Lower(v) == 1;
    assert Twos(u) == 0 && Rest(v) == u;
  }

  /** And eight are needed: the bound is tight. */
  lemma ImmCodeTight(rd: Reg)
    ensures |ImmCode(rd, 0x4000_0010_0100_1001)| == 8
  {
    assert |ImmCode(rd, 0x400_0001)| == 2;
    OneLevel(rd, 0x40_0000_1001, 0x400_0001);
    OneLevel(rd, 0x4_0000_0100_1001, 0x40_0000_1001);
    OneLevel(rd, 0x4000_0010_0100_1001, 0x4_0000_0100_1001);
  }

  /** The hart decodes the emitted words to that code. */
  lemma ImmWordsDecode(rd: Reg, v: S64)
    ensures var code, words := ImmCode(rd, v), EncodeAll64(ImmCode(rd, v));
      |words| == |code| && forall k :: 0 <= k < |words| ==> Decode64(words[k]) == Some(code[k])
  {
    var code, words := ImmCode(rd, v), EncodeAll64(ImmCode(rd, v));
    forall k | 0 <= k < |words| ensures Decode64(words[k]) == Some(code[k]) {
      DecodeEncode64(code[k]);
    }
  }
}
