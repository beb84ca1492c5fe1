/** 32- and 64-bit words as integers.  Shifts and bitwise operations are defined one bit at a
    time, which keeps every law below linear. */
module Words {

  type U32 = x: int | 0 <= x < 0x1_0000_0000
  type U64 = x: int | 0 <= x < 0x1_0000_0000_0000_0000

  /** The 64-bit word with the given halves. */
  function Join(hi: U32, lo: U32): (w: U64)
    ensures w / 0x1_0000_0000 == hi && w % 0x1_0000_0000 == lo
  {
    hi * 0x1_0000_0000 + lo
  }

  function Hi(w: U64): U32 {
    w / 0x1_0000_0000
  }

  function Lo(w: U64): U32 {
    w % 0x1_0000_0000
  }

  /** x mod 2^32 and x mod 2^64; most values the code computes already fit. */
  function Mod32(x: int): U32 {
    if 0 <= x < 0x1_0000_0000 then x else x % 0x1_0000_0000
  }

  function Mod64(x: int): U64 {
    if 0 <= x < 0x1_0000_0000_0000_0000 then x else x % 0x1_0000_0000_0000_0000
  }

  function Signed32(x: U32): int {
    if x < 0x8000_0000 then x else x - 0x1_0000_0000
  }

  function Signed64(x: U64): int {
    if x < 0x8000_0000_0000_0000 then x else x - 0x1_0000_0000_0000_0000
  }

  lemma SignedJoin(h: U32, l: U32)
    ensures Signed64(Join(h, l)) == Signed32(h) * 0x1_0000_0000 + l
  {
  }

  /** Unsigned division of words; the quotient of a word is a word. */
  function Quot(a: int, b: int): (q: int)
    requires a >= 0 && b > 0
    ensures 0 <= q <= a
  {
    DivAtMost(a, b);
    a / b
  }

  lemma DivAtMost(a: int, b: int)
    requires a >= 0 && b > 0
    ensures 0 <= a / b <= a && 0 <= a % b <= a
  {
    var q, r := a / b, a % b;
    assert a == b * q + r;
    MulAtLeast(b, -q);
    assert b * -q == -(b * q);
    MulGrows(b, q);
  }

  lemma MulGrows(b: int, q: int)
    requires b > 0
    ensures q >= 0 ==> b * q >= q
  {
  }

  function Rem(a: int, b: int): (r: int)
    requires a >= 0 && b > 0
    ensures 0 <= r < b && r <= a
  {
    DivAtMost(a, b);
    a % b
  }

  // ---------------------------------------------------------------- shifts

  function Pow2(n: nat): (p: nat)
    ensures p > 0
  {
    if n == 0 then 1 else 2 * Pow2(n - 1)
  }

  /** x * 2^n. */
  function Shl(x: int, n: nat): (r: int)
    ensures x >= 0 ==> r >= 0
  {
    if n == 0 then x else 2 * Shl(x, n - 1)
  }

  /** The floor of x / 2^n: a logical shift of a word, an arithmetic shift of a signed value. */
  function Shr(x: int, n: nat): (r: int)
    ensures x >= 0 ==> 0 <= r <= x
    decreases n
  {
    if n == 0 then x else Shr(x / 2, n - 1)
  }

  /** The low n bits of x, also of a negative x. */
  function Low(x: int, n: nat): (r: nat)
    ensures r < Pow2(n)
    decreases n
  {
    if n == 0 then 0 else 2 * Low(x / 2, n - 1) + x % 2
  }

  lemma {:induction false} Pow2IsShl(n: nat)
    ensures Pow2(n) == Shl(1, n)
  {
    if n > 0 {
      Pow2IsShl(n - 1);
    }
  }

  lemma {:induction false} ShlAdd(x: int, m: nat, n: nat)
    ensures Shl(x, m + n) == Shl(Shl(x, m), n)
  {
    if n > 0 {
      ShlAdd(x, m, n - 1);
      assert Shl(x, m + n) == 2 * Shl(x, m + (n - 1));
    }
  }

  lemma {:induction false} ShlPlus(x: int, y: int, n: nat)
    ensures Shl(x + y, n) == Shl(x, n) + Shl(y, n)
  {
    if n > 0 {
      ShlPlus(x, y, n - 1);
    }
  }

  lemma {:induction false} ShlIsMul(x: int, n: nat)
    ensures Shl(x, n) == x * Pow2(n)
  {
    if n > 0 {
      ShlIsMul(x, n - 1);
      assert x * (2 * Pow2(n - 1)) == 2 * (x * Pow2(n - 1));
    }
  }

  lemma {:induction false} Pow2Add(m: nat, n: nat)
    ensures Pow2(m + n) == Pow2(m) * Pow2(n)
  {
    Pow2IsShl(m + n);
    ShlAdd(1, m, n);
    Pow2IsShl(m);
    ShlIsMul(Pow2(m), n);
  }

  lemma Pow2Values()
    ensures Pow2(8) == 0x100 && Pow2(16) == 0x1_0000
    ensures Pow2(32) == 0x1_0000_0000 && Pow2(64) == 0x1_0000_0000_0000_0000
  {
    assert Pow2(4) == 16;
    Pow2Add(4, 4);
    Pow2Add(8, 8);
    Pow2Add(16, 16);
    Pow2Add(32, 32);
  }

  lemma {:induction false} Decompose(x: int, n: nat)
    ensures x == Shl(Shr(x, n), n) + Low(x, n)
    decreases n
  {
    if n > 0 {
      Decompose(x / 2, n - 1);
    }
  }

  lemma {:induction false} Compose(h: int, l: int, n: nat)
    requires 0 <= l < Pow2(n)
    ensures Shr(Shl(h, n) + l, n) == h
    ensures Low(Shl(h, n) + l, n) == l
  {
    if n > 0 {
      Compose(h, l / 2, n - 1);
      assert (Shl(h, n) + l) / 2 == Shl(h, n - 1) + l / 2;
      assert (Shl(h, n) + l) % 2 == l % 2;
    }
  }

  lemma {:induction false} ShrAdd(x: int, m: nat, n: nat)
    ensures Shr(x, m + n) == Shr(Shr(x, m), n)
    decreases m
  {
    if m > 0 {
      ShrAdd(x / 2, m - 1, n);
      assert Shr(x, m + n) == Shr(x / 2, m - 1 + n);
    }
  }

  /** Quotient and remainder are the only such pair. */
  lemma ModUnique(x: int, d: int, q: int, r: int)
    requires d > 0 && 0 <= r < d && x == d * q + r
    ensures x / d == q && x % d == r
  {
    var k := x / d - q;
    assert d * (x / d) == d * q + d * k;
    assert d * k == r - x % d;
    MulAtLeast(d, k);
    MulAtLeast(d, -k);
    assert d * -k == -(d * k);
  }

  lemma MulAtLeast(d: int, k: int)
    requires d > 0
    ensures k >= 1 ==> d * k >= d
  {
  }

  lemma ShrLowProduct(x: int, n: nat)
    ensures x == Pow2(n) * Shr(x, n) + Low(x, n)
  {
    Decompose(x, n);
    ShlIsMul(Shr(x, n), n);
    Commute(Shr(x, n), Pow2(n));
  }

  lemma Commute(a: int, b: int)
    ensures a * b == b * a
  {
  }

  lemma ShrLowAreDivMod(x: int, n: nat)
    ensures Shr(x, n) == x / Pow2(n) && Low(x, n) == x % Pow2(n)
  {
    ShrLowProduct(x, n);
    ModUnique(x, Pow2(n), Shr(x, n), Low(x, n));
  }

  lemma LowAt(x: int, w: nat)
    requires Pow2(w) == 0x1_0000_0000
    ensures Low(x, w) == Mod32(x) && Shr(x, w) == x / 0x1_0000_0000 && Shl(x, w) == x * 0x1_0000_0000
  {
    ShrLowAreDivMod(x, w);
    ShlIsMul(x, w);
  }

  lemma Low32(x: int)
    ensures Low(x, 32) == Mod32(x) && Shr(x, 32) == x / 0x1_0000_0000 && Shl(x, 32) == x * 0x1_0000_0000
  {
    Pow2Values();
    LowAt(x, 32);
  }

  // ---------------------------------------------------------------- bitwise operations

  datatype BitOp = And | Or | Xor

  function Bit(op: BitOp, a: nat, b: nat): (r: nat)
    ensures r <= 1
  {
    match op
    case And => if a == 1 && b == 1 then 1 else 0
    case Or => if a == 1 || b == 1 then 1 else 0
    case Xor => if a != b then 1 else 0
  }

  /** `op` on every bit of a and b. */
  function Bits(op: BitOp, a: nat, b: nat): nat
    decreases a + b
  {
    if a == 0 && b == 0 then 0 else 2 * Bits(op, a / 2, b / 2) + Bit(op, a % 2, b % 2)
  }

  lemma {:induction false} BitsFit(op: BitOp, a: nat, b: nat, n: nat)
    requires a < Pow2(n) && b < Pow2(n)
    ensures Bits(op, a, b) < Pow2(n)
    decreases n
  {
    if n > 0 {
      BitsFit(op, a / 2, b / 2, n - 1);
    }
  }

  function Bits32(op: BitOp, a: U32, b: U32): U32 {
    Pow2Values();
    BitsFit(op, a, b, 32);
    Bits(op, a, b)
  }

  function Bits64(op: BitOp, a: U64, b: U64): U64 {
    Pow2Values();
    BitsFit(op, a, b, 64);
    Bits(op, a, b)
  }

  lemma HalfOf(h: int, l: int, k: nat)
    requires k > 0
    ensures (Shl(h, k) + l) / 2 == Shl(h, k - 1) + l / 2 && (Shl(h, k) + l) % 2 == l % 2
  {
  }

  /** Bitwise operations work on the parts of a word separately. */
  lemma {:induction false} BitsSplit(op: BitOp, ah: nat, al: nat, bh: nat, bl: nat, k: nat)
    requires al < Pow2(k) && bl < Pow2(k)
    ensures Bits(op, Shl(ah, k) + al, Shl(bh, k) + bl) == Shl(Bits(op, ah, bh), k) + Bits(op, al, bl)
    decreases k
  {
    if k > 0 {
      BitsSplit(op, ah, al / 2, bh, bl / 2, k - 1);
      HalfOf(ah, al, k);
      HalfOf(bh, bl, k);
    }
  }

  lemma JoinBitsAt(op: BitOp, ah: U32, al: U32, bh: U32, bl: U32, n: nat)
    requires Pow2(n) == 0x1_0000_0000
    ensures Bits(op, Join(ah, al), Join(bh, bl)) == Bits(op, ah, bh) * 0x1_0000_0000 + Bits(op, al, bl)
  {
    BitsSplit(op, ah, al, bh, bl, n);
    ShlIsMul(ah, n);
    ShlIsMul(bh, n);
    ShlIsMul(Bits(op, ah, bh), n);
  }

  lemma JoinBits(op: BitOp, ah: U32, al: U32, bh: U32, bl: U32)
    ensures Bits64(op, Join(ah, al), Join(bh, bl)) == Join(Bits32(op, ah, bh), Bits32(op, al, bl))
  {
    Pow2Values();
    JoinBitsAt(op, ah, al, bh, bl, 32);
  }

  lemma {:induction false} BitsZero(a: nat)
    ensures Bits(Or, a, 0) == a && Bits(Or, 0, a) == a
    decreases a
  {
    if a > 0 {
      BitsZero(a / 2);
    }
  }

  lemma {:induction false} ShlZero(n: nat)
    ensures Shl(0, n) == 0
  {
    if n > 0 {
      ShlZero(n - 1);
    }
  }

  /** Or-ing parts that do not overlap adds them. */
  lemma OrDisjoint(h: nat, l: nat, k: nat)
    requires l < Pow2(k)
    ensures Bits(Or, Shl(h, k), l) == Shl(h, k) + l
  {
    OrParts(h, l, k, 0);
  }

  lemma OrParts(h: nat, l: nat, k: nat, z: nat)
    requires l < Pow2(k) && z == 0
    ensures Bits(Or, Shl(h, k), l) == Shl(h, k) + l && Bits(Or, l, Shl(h, k)) == Shl(h, k) + l
  {
    BitsSplit(Or, h, z, z, l, k);
    BitsSplit(Or, z, l, h, z, k);
    ShlZero(k);
    BitsZero(h);
    BitsZero(l);
  }

  lemma OrDisjointBelow(h: nat, l: nat, k: nat)
    requires l < Pow2(k)
    ensures Bits(Or, l, Shl(h, k)) == Shl(h, k) + l
  {
    OrParts(h, l, k, 0);
  }

  lemma {:induction false} AndZero(a: nat)
    ensures Bits(And, a, 0) == 0
    decreases a
  {
    if a > 0 {
      AndZero(a / 2);
    }
  }

  lemma {:induction false} AndSelf(a: nat)
    ensures Bits(And, a, a) == a
    decreases a
  {
    if a > 0 {
      AndSelf(a / 2);
    }
  }

  /** And-ing with 2^k - 1 keeps the low k bits. */
  lemma {:induction false} AndMask(a: nat, k: nat)
    ensures Bits(And, a, Pow2(k) - 1) == Low(a, k)
    decreases k
  {
    var mask := Pow2(k) - 1;
    if k == 0 {
      AndZero(a);
    } else {
      assert mask / 2 == Pow2(k - 1) - 1 && mask % 2 == 1;
      AndMask(a / 2, k - 1);
      assert Bits(And, a, mask) == 2 * Bits(And, a / 2, mask / 2) + Bit(And, a % 2, mask % 2);
    }
  }
}
