/** 64-bit arithmetic on 32-bit halves: the identities behind each sequence the compiler emits. */
module JitArith {
  import opened Words
  import opened Rv32
  import opened Rv32Machine

  const B: int := 0x1_0000_0000

  /** The value mod 2^64 of hi * 2^32 + lo with lo already reduced. */
  lemma JoinMod(x: int, lo: U32)
    ensures Mod64(x * 0x1_0000_0000 + lo) == Join(Mod32(x), lo)
  {
    var q, r := x / B, x % B;
    assert x * B + lo == 0x1_0000_0000_0000_0000 * q + (r * B + lo);
    ModUnique(x * B + lo, 0x1_0000_0000_0000_0000, q, r * B + lo);
  }

  lemma ModAgain(x: int, y: int)
    ensures Mod32(Mod32(x) as int + y) == Mod32(x + y)
  {
  }

  lemma AddHalves(h: U32, l: U32, h2: U32, l2: U32)
    ensures var lo := RegOp(ADD, l, l2);
      Join(RegOp(ADD, RegOp(ADD, h, h2), RegOp(SLTU, lo, l)), lo) == Mod64(Join(h, l) as int + Join(h2, l2))
  {
    var lo := Mod32(l as int + l2);
    var c := if lo < l then 1 else 0;
    assert l as int + l2 == c * B + lo;
    ModAgain(h as int + h2, c);
    JoinMod(h as int + h2 + c, lo);
  }

  lemma SubHalves(h: U32, l: U32, h2: U32, l2: U32)
    ensures var lo := RegOp(SUB, l, l2);
      Join(RegOp(SUB, RegOp(SUB, h, h2), RegOp(SLTU, l, lo)), lo) == Mod64(Join(h, l) as int - Join(h2, l2))
  {
    var lo := Mod32(l as int - l2);
    var c := if l < lo then 1 else 0;
    assert l as int - l2 == -c * B + lo;
    ModAgain(h as int - h2, -c);
    JoinMod(h as int - h2 - c, lo);
  }

  lemma NegHalves(h: U32, l: U32)
    ensures var lo := RegOp(SUB, 0, l);
      Join(RegOp(SUB, RegOp(SUB, 0, h), RegOp(SLTU, 0, lo)), lo) == Mod64(-(Join(h, l) as int))
  {
    var lo := Mod32(0 - l as int);
    var c := if 0 < lo then 1 else 0;
    assert 0 - l as int == -c * B + lo;
    ModAgain(0 - h as int, -c);
    JoinMod(0 - h as int - c, lo);
  }

  lemma ModSum(x: int, y: int, z: int)
    ensures Mod32(Mod32(Mod32(x) as int + Mod32(y)) as int + z) == Mod32(x + y + z)
  {
    ModAgain(x, Mod32(y));
    ModAgain(y, x);
    ModAgain(x + y, z);
  }

  lemma Product(h: int, l: int, h2: int, l2: int)
    ensures (h * B + l) * (h2 * B + l2) == h * h2 * (B * B) + (h * l2 + h2 * l) * B + l * l2
  {
  }

  lemma MulHalves(h: U32, l: U32, h2: U32, l2: U32)
    ensures Join(RegOp(ADD, RegOp(ADD, RegOp(MUL, h, l2), RegOp(MUL, h2, l)), RegOp(MULHU, l, l2)), RegOp(MUL, l, l2))
         == Mod64(Join(h, l) * Join(h2, l2))
  {
    var x, y, z := h * l2, h2 * l, Mulhu(l, l2);
    var lo := Mod32(l * l2);
    var s := (x + y + z) * B + lo;
    assert Join(h, l) * Join(h2, l2) == h * h2 * 0x1_0000_0000_0000_0000 + s by {
      Product(h, l, h2, l2);
      assert l * l2 == z * B + lo;
    }
    ModSum(x, y, z);
    JoinMod(x + y + z, lo);
    DropHigh(h * h2, s);
  }

  // ---------------------------------------------------------------- shift laws

  lemma {:induction false} LowShl(x: int, m: nat, n: nat)
    ensures Low(Shl(x, n), m + n) == Shl(Low(x, m), n)
  {
    if n > 0 {
      LowShl(x, m, n - 1);
      assert Shl(x, n) / 2 == Shl(x, n - 1) && Shl(x, n) % 2 == 0;
    }
  }

  lemma {:induction false} ShrBound(x: int, m: nat, n: nat)
    requires 0 <= x < Pow2(m + n)
    ensures 0 <= Shr(x, m) < Pow2(n)
    decreases m
  {
    if m > 0 {
      assert Pow2(m + n) == 2 * Pow2(m - 1 + n);
      ShrBound(x / 2, m - 1, n);
    }
  }

  lemma {:induction false} ShrPlus(y: int, x: int, n: nat)
    ensures Shr(Shl(y, n) + x, n) == y + Shr(x, n)
    decreases n
  {
    if n > 0 {
      assert (Shl(y, n) + x) / 2 == Shl(y, n - 1) + x / 2;
      ShrPlus(y, x / 2, n - 1);
    }
  }

  /** Only the low bits of x matter to the low bits of a left shift. */
  lemma {:induction false} LowShlLow(x: int, y: int, m: nat, k: nat)
    requires Low(x, m) == Low(y, m)
    ensures Low(Shl(x, k), m) == Low(Shl(y, k), m)
    decreases k
  {
    if k > 0 {
      LowShlLow(x, y, m, k - 1);
      LowDouble(Shl(x, k - 1), Shl(y, k - 1), m);
    }
  }

  lemma {:induction false} LowDouble(x: int, y: int, m: nat)
    requires Low(x, m) == Low(y, m)
    ensures Low(2 * x, m) == Low(2 * y, m)
    decreases m
  {
    if m > 0 {
      LowPrefix(x, y, m);
      assert 2 * x / 2 == x && 2 * y / 2 == y;
    }
  }

  lemma {:induction false} LowPrefix(x: int, y: int, m: nat)
    requires m > 0 && Low(x, m) == Low(y, m)
    ensures Low(x, m - 1) == Low(y, m - 1)
    decreases m
  {
    if m > 1 {
      assert x % 2 == y % 2;
      LowPrefix(x / 2, y / 2, m - 1);
    }
  }

  lemma LowIdem(x: int, n: nat)
    ensures Low(Low(x, n), n) == Low(x, n)
  {
    Compose(0, Low(x, n), n);
    ShlZero(n);
  }

  lemma {:induction false} LowPeriod(x: int, k: int, m: nat, n: nat)
    requires n <= m
    ensures Low(x + Shl(k, m), n) == Low(x, n)
    decreases n
  {
    if n > 0 {
      assert (x + Shl(k, m)) / 2 == x / 2 + Shl(k, m - 1) && (x + Shl(k, m)) % 2 == x % 2;
      LowPeriod(x / 2, k, m - 1, n - 1);
    }
  }

  // ---------------------------------------------------------------- shifts of a pair

  lemma ShlJoin(h: int, l: int, n: nat)
    ensures Shl(h * 0x1_0000_0000 + l, n) == Shl(h, n) * 0x1_0000_0000 + Shl(l, n)
  {
    ShlPlus(h * B, l, n);
    ShlIsMul(h * B, n);
    ShlIsMul(h, n);
    assert h * B * Pow2(n) == h * Pow2(n) * B;
  }

  /** What spills from the low half into the high half. */
  lemma Spill(l: U32, n: nat)
    requires n < 32
    ensures Shl(l, n) == Shr(l, 32 - n) * 0x1_0000_0000 + Mod32(Shl(l, n))
    ensures Shr(l, 32 - n) < Pow2(n)
  {
    Pow2Values();
    Compose(l, 0, n);
    ShrAdd(Shl(l, n), n, 32 - n);
    Low32(Shl(l, n));
    Decompose(Shl(l, n), 32);
    Low32(Shr(l, 32 - n));
    ShrBound(l, 32 - n, n);
  }

  /** The part of the high half that stays, shifted, and what it leaves room for. */
  lemma Stay(h: U32, n: nat)
    requires n < 32
    ensures Mod32(Shl(h, n)) == Shl(Low(h, 32 - n), n)
  {
    LowShl(h, 32 - n, n);
    Low32(Shl(h, n));
  }

  lemma OrSum(h: nat, u: nat, n: nat)
    requires n < 32 && h < Pow2(32 - n) && u < Pow2(n)
    ensures 0 <= Shl(h, n) + u < 0x1_0000_0000
    ensures Bits(Or, u, Shl(h, n)) == Shl(h, n) + u
  {
    ShlFits(h, u, 32 - n, n);
    Pow2Values();
    OrDisjointBelow(h, u, n);
  }

  lemma {:induction false} ShlFits(h: nat, u: nat, m: nat, n: nat)
    requires h < Pow2(m) && u < Pow2(n)
    ensures Shl(h, n) + u < Pow2(m + n)
    decreases n
  {
    if n > 0 {
      ShlFits(h, u / 2, m, n - 1);
    }
  }

  /** A high half that has room for u. */
  lemma RoomFor(x: int, u: nat, v: U32)
    requires Mod32(x) as int + u < 0x1_0000_0000
    ensures Mod64(x * 0x1_0000_0000 + (u * 0x1_0000_0000 + v)) == Join(Mod32(x) as int + u, v)
  {
    ModAgain(x, u);
    JoinMod(x + u, v);
    assert x * B + (u * B + v) == (x + u) * B + v;
  }

  lemma OrSpill(h: U32, l: U32, n: nat)
    requires n < 32
    ensures Mod32(Shl(h, n)) as int + Shr(l, 32 - n) < 0x1_0000_0000
    ensures Bits32(Or, Shr(l, 32 - n), Mod32(Shl(h, n))) == Mod32(Shl(h, n)) as int + Shr(l, 32 - n)
  {
    Spill(l, n);
    Stay(h, n);
    OrSum(Low(h, 32 - n), Shr(l, 32 - n), n);
  }

  lemma LshNearHalves(h: U32, l: U32, n: nat)
    requires n < 32
    ensures Join(Bits32(Or, Shr(l, 32 - n), Mod32(Shl(h, n))), Mod32(Shl(l, n))) == Mod64(Shl(Join(h, l), n))
  {
    var x, u, v := Shl(h, n), Shr(l, 32 - n), Mod32(Shl(l, n));
    assert Shl(Join(h, l), n) == x * B + (u * B + v) by {
      ShlJoin(h, l, n);
      Spill(l, n);
    }
    OrSpill(h, l, n);
    RoomFor(x, u, v);
  }

  // Lemmas that need the width 32 take it as a parameter w with 2^w = 2^32.

  lemma LshFarAt(h: U32, l: U32, s: nat, w: nat)
    requires Pow2(w) == 0x1_0000_0000
    ensures Join(Mod32(Shl(l, s)), 0) == Mod64(Shl(Join(h, l), s + w))
  {
    var x, y := Shl(h, s), Shl(l, s);
    assert Shl(Join(h, l), s + w) == x * 0x1_0000_0000_0000_0000 + y * B by {
      ShlAdd(Join(h, l), s, w);
      ShlJoin(h, l, s);
      ShlIsMul(x * B + y, w);
    }
    JoinMod(y, 0);
    DropHigh(x, y * B);
  }

  lemma LshFarHalves(h: U32, l: U32, s: nat)
    ensures Join(Mod32(Shl(l, s)), 0) == Mod64(Shl(Join(h, l), s + 32))
  {
    Pow2Values();
    LshFarAt(h, l, s, 32);
  }

  lemma DropHigh(x: int, z: int)
    ensures Mod64(x * 0x1_0000_0000_0000_0000 + z) == Mod64(z)
  {
    ModUnique(x * 0x1_0000_0000_0000_0000 + z, 0x1_0000_0000_0000_0000, x + z / 0x1_0000_0000_0000_0000, Mod64(z));
  }

  lemma RshHigh(sh: int, n: nat, m: nat)
    requires Pow2(n + m) == 0x1_0000_0000
    ensures Shl(sh, m) == Shr(sh, n) * 0x1_0000_0000 + Shl(Low(sh, n), m)
  {
    Decompose(sh, n);
    ShlPlus(Shl(Shr(sh, n), n), Low(sh, n), m);
    ShlAdd(Shr(sh, n), n, m);
    ShlIsMul(Shr(sh, n), n + m);
  }

  lemma RshPartsAt(sh: int, l: U32, n: nat, m: nat)
    requires Pow2(n + m) == 0x1_0000_0000
    ensures Shr(sh * 0x1_0000_0000 + l, n) == Shr(sh, n) * 0x1_0000_0000 + (Shl(Low(sh, n), m) + Shr(l, n))
  {
    assert sh * B == Shl(Shl(sh, m), n) by {
      ShlIsMul(sh, m + n);
      ShlAdd(sh, m, n);
      assert m + n == n + m;
    }
    ShrPlus(Shl(sh, m), l, n);
    RshHigh(sh, n, m);
  }

  /** What a right shift by n moves from the high half into the low half; `sh` is the high
      half read unsigned or signed. */
  lemma RshParts(sh: int, l: U32, n: nat)
    requires n < 32
    ensures Shr(sh * 0x1_0000_0000 + l, n) == Shr(sh, n) * 0x1_0000_0000 + (Shl(Low(sh, n), 32 - n) + Shr(l, n))
  {
    Pow2Values();
    RshPartsAt(sh, l, n, 32 - n);
  }

  lemma RshRoom(sh: int, l: U32, n: nat)
    requires n < 32
    ensures Shr(l, n) < Pow2(32 - n)
    ensures 0 <= Shl(Low(sh, n), 32 - n) + Shr(l, n) < 0x1_0000_0000
    ensures Bits(Or, Shl(Low(sh, n), 32 - n), Shr(l, n)) == Shl(Low(sh, n), 32 - n) + Shr(l, n)
  {
    Pow2Values();
    ShrBound(l, n, 32 - n);
    ShlFits(Low(sh, n), Shr(l, n), n, 32 - n);
    OrDisjoint(Low(sh, n), Shr(l, n), 32 - n);
  }

  /** The bits moved down, as the compiler computes them. */
  lemma Moved(h: U32, n: nat)
    requires n < 32
    ensures Mod32(Shl(h, 32 - n)) == Shl(Low(h, n), 32 - n)
    ensures Mod32(Shl(Mod32(Shl(h, 1)), 31 - n)) == Shl(Low(h, n), 32 - n)
  {
    LowShl(h, n, 32 - n);
    Low32(Shl(h, 32 - n));
    var t := Mod32(Shl(h, 1));
    Low32(Shl(h, 1));
    LowIdem(Shl(h, 1), 32);
    LowShlLow(Shl(h, 1), t, 32, 31 - n);
    ShlAdd(h, 1, 31 - n);
    Low32(Shl(t, 31 - n));
  }

  lemma LowSigned(h: U32, n: nat)
    requires n <= 32
    ensures Low(Signed32(h), n) == Low(h, n)
  {
    Low32(-1);
    LowPeriod(h, -1, 32, n);
  }

  /** The low half after a right shift by n < 32, in the compiler's way and as a sum. */
  lemma RshLow(h: U32, l: U32, n: nat)
    requires n < 32
    ensures 0 <= Shl(Low(h, n), 32 - n) < 0x1_0000_0000
    ensures Bits32(Or, Shl(Low(h, n), 32 - n), Shr(l, n)) == Shl(Low(h, n), 32 - n) + Shr(l, n)
  {
    RshRoom(h, l, n);
  }

  lemma RshNearHalves(h: U32, l: U32, t: U32, n: nat)
    requires n < 32 && t == Shl(Low(h, n), 32 - n)
    ensures Join(Shr(h, n), Bits32(Or, t, Shr(l, n))) == Shr(Join(h, l), n)
  {
    RshLow(h, l, n);
    RshParts(h, l, n);
  }

  lemma ArshNearHalves(h: U32, l: U32, t: U32, n: nat)
    requires n < 32 && t == Shl(Low(h, n), 32 - n)
    ensures Join(Mod32(Shr(Signed32(h), n)), Bits32(Or, t, Shr(l, n))) == Mod64(Shr(Signed64(Join(h, l)), n))
  {
    var sh, lo := Signed32(h), Bits32(Or, t, Shr(l, n));
    assert Shr(Signed64(Join(h, l)), n) == Shr(sh, n) * B + lo by {
      SignedJoin(h, l);
      LowSigned(h, n);
      RshLow(h, l, n);
      RshParts(sh, l, n);
    }
    JoinMod(Shr(sh, n), lo);
  }

  lemma ShrJoinAt(sh: int, l: U32, s: nat, w: nat)
    requires Pow2(w) == 0x1_0000_0000
    ensures Shr(sh * 0x1_0000_0000 + l, w + s) == Shr(sh, s)
  {
    var x := sh * B + l;
    ShrLowAreDivMod(x, w);
    ShrAdd(x, w, s);
  }

  lemma ShrJoin32(sh: int, l: U32, s: nat)
    ensures Shr(sh * 0x1_0000_0000 + l, 32 + s) == Shr(sh, s)
  {
    Pow2Values();
    ShrJoinAt(sh, l, s, 32);
  }

  lemma RshFarHalves(h: U32, l: U32, s: nat)
    ensures Join(0, Shr(h, s)) == Shr(Join(h, l), 32 + s)
  {
    ShrJoin32(h, l, s);
  }

  lemma {:induction false} ShrSign(x: int, k: nat, n: nat)
    requires 0 - Pow2(k) <= x < Pow2(k)
    ensures x >= 0 ==> 0 <= Shr(x, n) < Pow2(k)
    ensures x < 0 ==> 0 - Pow2(k) <= Shr(x, n) < 0
    ensures n >= k ==> Shr(x, n) == if x >= 0 then 0 else -1
    decreases n
  {
    if n > 0 {
      if k > 0 {
        ShrSign(x / 2, k - 1, n - 1);
      } else {
        ShrSign(x / 2, 0, n - 1);
      }
    }
  }

  /** An arithmetic shift by 31 leaves copies of the sign. */
  lemma SignCopies(x: int, k: nat)
    requires Pow2(k) == 0x8000_0000 && -0x8000_0000 <= x < 0x8000_0000
    ensures Shr(x, k) == if x >= 0 then 0 else -1
  {
    ShrSign(x, k, k);
  }

  lemma ArshFarAt(h: U32, l: U32, s: nat, k: nat)
    requires Pow2(k) == 0x8000_0000
    ensures Join(Mod32(Shr(Signed32(h), k)), Mod32(Shr(Signed32(h), s))) == Mod64(Shr(Signed64(Join(h, l)), 32 + s))
  {
    var sh := Signed32(h);
    var v := Shr(sh, s);
    assert Shr(Signed64(Join(h, l)), 32 + s) == v by {
      SignedJoin(h, l);
      ShrJoin32(sh, l, s);
    }
    SignCopies(sh, k);
    ShrSign(sh, k, s);
    SignFill(v);
  }

  lemma SignFill(v: int)
    requires -0x8000_0000 <= v < 0x8000_0000
    ensures Mod64(v) == Join(Mod32(if v >= 0 then 0 else -1), Mod32(v))
  {
    if v < 0 {
      ModUnique(v, 0x1_0000_0000_0000_0000, -1, v + 0x1_0000_0000_0000_0000);
      ModUnique(v, B, -1, v + B);
    }
  }

  lemma ArshFarHalves(h: U32, l: U32, s: nat)
    ensures Join(Mod32(Shr(Signed32(h), 31)), Mod32(Shr(Signed32(h), s))) == Mod64(Shr(Signed64(Join(h, l)), 32 + s))
  {
    assert Pow2(31) == 0x8000_0000 by {
      Pow2Values();
      assert Pow2(32) == 2 * Pow2(31);
    }
    ArshFarAt(h, l, s, 31);
  }
}
