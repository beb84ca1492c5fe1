/** strscpy of kernel/string.c: copying a word at a time finds the terminating NUL with bit
    tricks, and still does what a byte loop would. */
module Strscpy {
  import opened Words

  type Byte = b: int | 0 <= b < 0x100

  const E2BIG := 7

  // ---------------------------------------------------------------- words of n bytes

  /** The little-endian value of a word. */
  function Value(bs: seq<Byte>): nat {
    if bs == [] then 0 else bs[0] + 0x100 * Value(bs[1..])
  }

  /** 2^(8n), and REPEAT_BYTE for n bytes. */
  function Size(n: nat): (r: nat)
    ensures r > 0
  {
    if n == 0 then 1 else 0x100 * Size(n - 1)
  }

  function Repeat(b: Byte, n: nat): nat {
    if n == 0 then 0 else b + 0x100 * Repeat(b, n - 1)
  }

  lemma {:induction false} ValueFits(bs: seq<Byte>)
    ensures Value(bs) < Size(|bs|)
  {
    if bs != [] {
      ValueFits(bs[1..]);
    }
  }

  /** A difference of two words modulo the word size, and the complement of a word. */
  function Wrap(x: int, n: nat): nat
    requires 0 - (Size(n) as int) <= x < Size(n)
  {
    if x < 0 then x + Size(n) else x
  }

  function Not(x: nat, n: nat): int {
    Size(n) - 1 - x
  }

  /** The mask of has_zero: ((val - one_bits) & ~val) & high_bits. */
  function ZeroBits(v: nat, n: nat): nat
    requires v < Size(n)
  {
    RepeatFits(1, n);
    Bits(And, Bits(And, Wrap(v as int - Repeat(1, n), n), Not(v, n)), Repeat(0x80, n))
  }

  /** create_zero_mask: the bits below the lowest one, then shifted down by 7. */
  function Below(m: nat, n: nat): nat
    requires 0 < m < Size(n)
  {
    Bits(And, m - 1, Not(m, n))
  }

  function Fls(x: nat): nat {
    if x == 0 then 0 else 1 + Fls(x / 2)
  }

  /** Index of the first zero byte. */
  function FirstZero(bs: seq<Byte>): (n: nat)
    ensures n <= |bs|
  {
    if bs == [] || bs[0] == 0 then 0 else 1 + FirstZero(bs[1..])
  }

  predicate HasZero(bs: seq<Byte>) {
    FirstZero(bs) < |bs|
  }

  // ---------------------------------------------------------------- one byte at a time

  lemma ByteBits(op: BitOp, ah: nat, al: nat, bh: nat, bl: nat)
    requires al < 0x100 && bl < 0x100
    ensures Bits(op, 0x100 * ah + al, 0x100 * bh + bl) == 0x100 * Bits(op, ah, bh) + Bits(op, al, bl)
  {
    Pow2Values();
    BitsSplit(op, ah, al, bh, bl, 8);
    ShlIsMul(ah, 8);
    ShlIsMul(bh, 8);
    ShlIsMul(Bits(op, ah, bh), 8);
  }

  /** Bit 7 of a byte. */
  lemma Bit7(x: Byte)
    ensures Bits(And, x, 0x80) == if x >= 0x80 then 0x80 else 0
  {
    var h, l := x / 0x80, x % 0x80;
    assert Pow2(7) == 0x80 by {
      assert Pow2(3) == 8 && Pow2(4) == 16;
      Pow2Add(3, 4);
    }
    BitsSplit(And, h, l, 1, 0, 7);
    ShlIsMul(h, 7);
    ShlIsMul(1, 7);
    ShlIsMul(Bits(And, h, 1), 7);
    AndZero(l);
    assert Bits(And, 0, 1) == 0 && Bits(And, 1, 1) == 1;
  }

  lemma {:induction false} AndBelow(a: nat, b: nat)
    ensures Bits(And, a, b) <= a && Bits(And, a, b) <= b
    decreases a + b
  {
    if a > 0 || b > 0 {
      AndBelow(a / 2, b / 2);
    }
  }

  /** A nonzero byte leaves no bit. */
  lemma NonzeroByte(b: Byte)
    requires b != 0
    ensures Bits(And, Bits(And, b - 1, 0xff - b), 0x80) == 0
  {
    AndBelow(b - 1, 0xff - b);
    Bit7(Bits(And, b - 1, 0xff - b));
  }

  /** A zero byte leaves bit 7, whatever is borrowed from the bytes above. */
  lemma ZeroByte(f: Byte, h: Byte)
    requires f == 0xff && h == 0x80
    ensures Bits(And, Bits(And, f, f), h) == h
  {
    AndSelf(f);
    Bit7(f);
  }

  lemma WrapNonzero(b: Byte, v: nat, r: nat, n: nat)
    requires n > 0 && v < Size(n - 1) && r < Size(n - 1) && b > 0
    ensures Wrap((b + 0x100 * v) as int - (1 + 0x100 * r), n) == 0x100 * Wrap(v as int - r, n - 1) + (b - 1)
  {
  }

  lemma WrapZero(v: nat, r: nat, n: nat) returns (x: nat)
    requires n > 0 && v < Size(n - 1) && r < Size(n - 1)
    ensures Wrap(0x100 * v as int - (1 + 0x100 * r), n) == 0x100 * x + 0xff
  {
    x := if v > r then v - r - 1 else v - r - 1 + Size(n - 1);
  }

  lemma {:induction false} RepeatFits(b: Byte, n: nat)
    ensures Repeat(b, n) < Size(n)
  {
    if n > 0 {
      RepeatFits(b, n - 1);
    }
  }

  // ---------------------------------------------------------------- the masks

  lemma NotStep(b: Byte, v: nat, n: nat)
    requires n > 0 && v < Size(n - 1)
    ensures Not(b + 0x100 * v, n) == 0x100 * Not(v, n - 1) + (0xff - b) && Not(v, n - 1) >= 0
  {
  }

  lemma MaskStep(wh: nat, wl: Byte, nh: nat, nl: Byte, hh: nat, hl: Byte)
    ensures Bits(And, Bits(And, 0x100 * wh + wl, 0x100 * nh + nl), 0x100 * hh + hl)
         == 0x100 * Bits(And, Bits(And, wh, nh), hh) + Bits(And, Bits(And, wl, nl), hl)
  {
    ByteBits(And, wh, wl, nh, nl);
    AndBelow(wl, nl);
    ByteBits(And, Bits(And, wh, nh), Bits(And, wl, nl), hh, hl);
  }

  lemma StepFits(b: Byte, v: nat, n: nat)
    requires n > 0 && v < Size(n - 1)
    ensures b + 0x100 * v < Size(n)
  {
  }

  /** A nonzero first byte only shifts the mask of the rest. */
  lemma NonzeroStep(b: Byte, v: nat, n: nat)
    requires n > 0 && v < Size(n - 1) && b != 0
    ensures b + 0x100 * v < Size(n) && ZeroBits(b + 0x100 * v, n) == 0x100 * ZeroBits(v, n - 1)
  {
    var r, h, hb := Repeat(1, n - 1), Repeat(0x80, n - 1), 0x80;
    StepFits(b, v, n);
    RepeatFits(1, n - 1);
    RepeatFits(1, n);
    NotStep(b, v, n);
    WrapNonzero(b, v, r, n);
    MaskStep(Wrap(v as int - r, n - 1), b - 1, Not(v, n - 1), 0xff - b, h, hb);
    NonzeroByte(b);
  }

  /** A zero first byte sets the lowest bit the mask can have. */
  lemma ZeroStep(v: nat, n: nat, f: Byte, h: Byte) returns (x: nat)
    requires n > 0 && v < Size(n - 1) && f == 0xff && h == 0x80
    ensures 0x100 * v < Size(n) && ZeroBits(0x100 * v, n) == 0x100 * x + h
  {
    StepFits(0, v, n);
    RepeatFits(1, n - 1);
    RepeatFits(1, n);
    var w := WrapZero(v, Repeat(1, n - 1), n);
    var nv, hh := Not(v, n - 1), Repeat(h, n - 1);
    assert Not(0x100 * v, n) == 0x100 * nv + f;
    assert Repeat(h, n) == 0x100 * hh + h;
    MaskStep(w, f, nv, f, hh, h);
    ZeroByte(f, h);
    x := Bits(And, Bits(And, w, nv), hh);
  }

  lemma {:induction false} ZeroBitsFit(bs: seq<Byte>)
    ensures Value(bs) < Size(|bs|) && ZeroBits(Value(bs), |bs|) < Size(|bs|)
  {
    ValueFits(bs);
    RepeatFits(1, |bs|);
    AndBelow(Bits(And, Wrap(Value(bs) as int - Repeat(1, |bs|), |bs|), Not(Value(bs), |bs|)), Repeat(0x80, |bs|));
    RepeatFits(0x80, |bs|);
  }

  lemma OneByte(b: Byte, n: nat, h: Byte, f: Byte)
    requires n == 1 && h == 0x80 && f == 0xff && Size(n) == 0x100 && Repeat(1, n) == 1 && Repeat(0x80, n) == h
    ensures ZeroBits(b, n) == if b == 0 then h else 0
  {
    if b != 0 {
      NonzeroByte(b);
    } else {
      assert Wrap(b as int - 1, n) == f && Not(b, n) == f;
      ZeroByte(f, h);
    }
  }

  lemma DetectStep(b: Byte, v: nat, n: nat)
    requires n > 0 && v < Size(n - 1)
    ensures b + 0x100 * v < Size(n) && (ZeroBits(b + 0x100 * v, n) != 0 <==> b == 0 || ZeroBits(v, n - 1) != 0)
  {
    if b != 0 {
      NonzeroStep(b, v, n);
    } else {
      var x := ZeroStep(v, n, 0xff, 0x80);
    }
  }

  ghost predicate Detects(bs: seq<Byte>, v: nat, n: nat, bits: nat) {
    v == Value(bs) && n == |bs| && (bits != 0 <==> HasZero(bs))
  }

  lemma DetectsCons(b: Byte, bs: seq<Byte>, v: nat, n: nat, bits: nat, bits': nat)
    requires Detects(bs, v, n, bits) && (bits' != 0 <==> b == 0 || bits != 0)
    ensures Detects([b] + bs, b + 0x100 * v, n + 1, bits')
  {
    assert ([b] + bs)[1..] == bs;
  }

  lemma {:induction false} DetectsAll(bs: seq<Byte>, v: nat, n: nat)
    requires v == Value(bs) && n == |bs| > 0
    ensures v < Size(n) && Detects(bs, v, n, ZeroBits(v, n))
    decreases n
  {
    var b, rest := bs[0], bs[1..];
    var v1 := Value(rest);
    assert v == b + 0x100 * v1;
    if n == 1 {
      assert rest == [] && Size(n) == 0x100 && Repeat(1, n) == 1 && Repeat(0x80, n) == 0x80;
      OneByte(b, n, 0x80, 0xff);
    } else {
      DetectsAll(rest, v1, n - 1);
      DetectStep(b, v1, n);
      DetectsCons(b, rest, v1, n - 1, ZeroBits(v1, n - 1), ZeroBits(v, n));
      assert bs == [b] + rest;
    }
  }

  /** has_zero: the mask is nonzero exactly when some byte is zero. */
  lemma ZeroBitsDetect(bs: seq<Byte>)
    requires |bs| > 0
    ensures Value(bs) < Size(|bs|) && (ZeroBits(Value(bs), |bs|) != 0 <==> HasZero(bs))
  {
    DetectsAll(bs, Value(bs), |bs|);
  }

  // ---------------------------------------------------------------- create_zero_mask and find_zero

  lemma {:induction false} AndComplement(x: nat, k: nat)
    requires x < Pow2(k)
    ensures Bits(And, x, Pow2(k) - 1 - x) == 0
    decreases k
  {
    if k > 0 {
      var y := Pow2(k) - 1 - x;
      assert y / 2 == Pow2(k - 1) - 1 - x / 2 && x % 2 + y % 2 == 1;
      AndComplement(x / 2, k - 1);
    }
  }

  lemma SizeIsPow(n: nat)
    ensures Size(n) == Pow2(8 * n)
    decreases n
  {
    if n > 0 {
      SizeIsPow(n - 1);
      Pow2Add(8, 8 * (n - 1));
      Pow2Values();
      assert 8 + 8 * (n - 1) == 8 * n;
    }
  }

  lemma AndDisjoint(x: nat, n: nat)
    requires x < Size(n)
    ensures Bits(And, x, Not(x, n)) == 0
  {
    SizeIsPow(n);
    AndComplement(x, 8 * n);
  }

  lemma NotCons(x: nat, n: nat, l: Byte, u: Byte)
    requires n > 0 && l + u == 0xff
    ensures Not(0x100 * x + l, n) == 0x100 * Not(x, n - 1) + u
  {
  }

  /** The lowest bit is bit 7 of the first byte. */
  lemma BelowFirst(x: nat, n: nat, h: Byte, g: Byte)
    requires n > 0 && 0x100 * x + h < Size(n) && h == 0x80 && g == 0x7f
    ensures Below(0x100 * x + h, n) == g
  {
    var y := Not(x, n - 1);
    NotCons(x, n, h, g);
    AndDisjoint(x, n - 1);
    ByteBits(And, x, g, y, g);
    AndSelf(g);
  }

  /** The lowest bit is further up. */
  lemma BelowLater(m: nat, n: nat, f: Byte)
    requires n > 0 && 0 < m && 0x100 * m < Size(n) && f == 0xff
    ensures m < Size(n - 1) && Below(0x100 * m, n) == 0x100 * Below(m, n - 1) + f
  {
    NotCons(m, n, 0, f);
    BelowParts(m - 1, Not(m, n - 1), f);
    assert 0x100 * m - 1 == 0x100 * (m - 1) + f;
  }

  lemma BelowParts(x: nat, y: nat, f: Byte)
    requires f == 0xff
    ensures Bits(And, 0x100 * x + f, 0x100 * y + f) == 0x100 * Bits(And, x, y) + f
  {
    ByteBits(And, x, f, y, f);
    AndSelf(f);
  }

  lemma BelowAtZero(v: nat, n: nat)
    requires n > 0 && v < Size(n - 1) && 0x100 * v < Size(n) && ZeroBits(0x100 * v, n) < Size(n)
    ensures ZeroBits(0x100 * v, n) > 0 && Below(ZeroBits(0x100 * v, n), n) == 0x7f
  {
    var x := ZeroStep(v, n, 0xff, 0x80);
    BelowFirst(x, n, 0x80, 0x7f);
  }

  lemma BelowPast(b: Byte, v: nat, n: nat)
    requires n > 0 && v < Size(n - 1) && b != 0 && b + 0x100 * v < Size(n)
    requires 0 < ZeroBits(v, n - 1) < Size(n - 1) && 0 < ZeroBits(b + 0x100 * v, n) < Size(n)
    ensures Below(ZeroBits(b + 0x100 * v, n), n) == 0x100 * Below(ZeroBits(v, n - 1), n - 1) + 0xff
  {
    NonzeroStep(b, v, n);
    BelowLater(ZeroBits(v, n - 1), n, 0xff);
  }

  /** So the bits below the mask's lowest one are all bits up to bit 6 of the first zero byte. */
  lemma {:induction false} BelowIs(bs: seq<Byte>)
    requires HasZero(bs)
    ensures Value(bs) < Size(|bs|) && 0 < ZeroBits(Value(bs), |bs|) < Size(|bs|)
    ensures Below(ZeroBits(Value(bs), |bs|), |bs|) == 0x80 * Size(FirstZero(bs)) - 1
    decreases |bs|
  {
    ZeroBitsDetect(bs);
    ZeroBitsFit(bs);
    var tail := bs[1..];
    ValueFits(tail);
    var b, v, n := bs[0], Value(tail), |bs|;
    assert Value(bs) == b + 0x100 * v;
    if b == 0 {
      BelowAtZero(v, n);
    } else {
      BelowIs(tail);
      BelowPast(b, v, n);
      NextOnes(FirstZero(tail));
    }
  }

  lemma NextOnes(k: nat)
    ensures 0x100 * (0x80 * Size(k) - 1) + 0xff == 0x80 * Size(k + 1) - 1
  {
  }

  lemma {:induction false} FlsOnes(k: nat)
    ensures Fls(Pow2(k) - 1) == k
    decreases k
  {
    if k > 0 {
      FlsOnes(k - 1);
      assert (Pow2(k) - 1) / 2 == Pow2(k - 1) - 1;
    }
  }

  /** The zero mask of a word: create_zero_mask applied to has_zero's bits. */
  function ZeroMask(v: nat, n: nat): nat
    requires v < Size(n) && 0 < ZeroBits(v, n) < Size(n)
  {
    Below(ZeroBits(v, n), n) / 0x80
  }

  lemma Shift7(m: nat, k: nat)
    requires m == 0x80 * Size(k) - 1
    ensures m / 0x80 == Size(k) - 1
  {
  }

  /** find_zero: the position of the highest bit, in bytes. */
  lemma FindZeroIs(m: nat, k: nat)
    requires m == Size(k) - 1
    ensures Fls(m) / 8 == k
  {
    SizeIsPow(k);
    FlsOnes(8 * k);
  }

  /** The mask covers the bytes before the first zero. */
  lemma ZeroMaskIs(bs: seq<Byte>)
    requires HasZero(bs)
    ensures Value(bs) < Size(|bs|) && 0 < ZeroBits(Value(bs), |bs|) < Size(|bs|)
    ensures ZeroMask(Value(bs), |bs|) == Size(FirstZero(bs)) - 1
  {
    BelowIs(bs);
    Shift7(Below(ZeroBits(Value(bs), |bs|), |bs|), FirstZero(bs));
  }

  /** A word and-ed with the mask keeps those bytes and clears the others. */
  function Kept(bs: seq<Byte>, k: nat): (r: seq<Byte>)
    requires k <= |bs|
    ensures |r| == |bs|
  {
    bs[..k] + Zeros(|bs| - k)
  }

  function Zeros(n: nat): (r: seq<Byte>)
    ensures |r| == n && forall i :: 0 <= i < n ==> r[i] == 0
  {
    seq(n, _ => 0)
  }

  lemma {:induction false} ValueZeros(n: nat)
    ensures Value(Zeros(n)) == 0
  {
    if n > 0 {
      ValueZeros(n - 1);
      assert Zeros(n)[1..] == Zeros(n - 1);
    }
  }

  lemma {:induction false} MaskedIs(bs: seq<Byte>, k: nat)
    requires k <= |bs|
    ensures Bits(And, Value(bs), Size(k) - 1) == Value(Kept(bs, k))
    decreases |bs|
  {
    if k == 0 {
      AndZero(Value(bs));
      ValueZeros(|bs|);
      assert Kept(bs, 0) == Zeros(|bs|);
    } else {
      var b, v, f := bs[0], Value(bs[1..]), 0xff;
      MaskedIs(bs[1..], k - 1);
      MaskedByte(b, v, k, f);
      assert Kept(bs, k)[1..] == Kept(bs[1..], k - 1);
    }
  }

  lemma {:induction false} AndOnes(b: nat, k: nat)
    requires b < Pow2(k)
    ensures Bits(And, b, Pow2(k) - 1) == b
    decreases k
  {
    if k > 0 {
      var y := Pow2(k) - 1;
      assert y / 2 == Pow2(k - 1) - 1 && y % 2 == 1;
      AndOnes(b / 2, k - 1);
    }
  }

  lemma MaskedByte(b: Byte, v: nat, k: nat, f: Byte)
    requires k > 0 && f == 0xff
    ensures Bits(And, b + 0x100 * v, Size(k) - 1) == b + 0x100 * Bits(And, v, Size(k - 1) - 1)
  {
    var t := Size(k - 1) - 1;
    assert Size(k) - 1 == 0x100 * t + f;
    ByteBits(And, v, b, t, f);
    Pow2Values();
    AndOnes(b, 8);
  }

  // ---------------------------------------------------------------- strscpy

  lemma {:induction false} FirstZeroIs(bs: seq<Byte>, n: nat)
    requires n <= |bs| && (forall i :: 0 <= i < n ==> bs[i] != 0) && (n < |bs| ==> bs[n] == 0)
    ensures FirstZero(bs) == n
    decreases n
  {
    if n > 0 {
      FirstZeroIs(bs[1..], n - 1);
    }
  }

  lemma {:induction false} BeforeFirstZero(bs: seq<Byte>)
    ensures forall i :: 0 <= i < FirstZero(bs) ==> bs[i] != 0
    ensures FirstZero(bs) < |bs| ==> bs[FirstZero(bs)] == 0
    decreases |bs|
  {
    if bs != [] && bs[0] != 0 {
      BeforeFirstZero(bs[1..]);
      forall i | 0 <= i < FirstZero(bs) ensures bs[i] != 0 {
        assert i > 0 ==> bs[i] == bs[1..][i - 1];
      }
    }
  }

  /** The bytes of a word. */
  function Bytes(v: nat, n: nat): (bs: seq<Byte>)
    ensures |bs| == n
  {
    if n == 0 then [] else [v % 0x100] + Bytes(v / 0x100, n - 1)
  }

  lemma FirstByte(b: Byte, v: nat)
    ensures (b + 0x100 * v) % 0x100 == b && (b + 0x100 * v) / 0x100 == v
  {
  }

  lemma {:induction false} BytesOfValue(bs: seq<Byte>)
    ensures Bytes(Value(bs), |bs|) == bs
  {
    if bs != [] {
      FirstByte(bs[0], Value(bs[1..]));
      BytesOfValue(bs[1..]);
      assert bs == [bs[0]] + bs[1..];
    }
  }

  /** What strscpy promises: the string if it fits in `count` bytes, else its first bytes, always
      terminated, and nothing outside of them. */
  ghost predicate Copied(src: seq<Byte>, before: seq<Byte>, after: seq<Byte>, count: nat, res: int) {
    && |after| == |before| && count <= |before|
    && (forall i {:trigger after[i]} :: count <= i < |after| ==> after[i] == before[i])
    && var n := FirstZero(src);
       if n < count then res == n && after[..n] == src[..n] && after[n] == 0
       else res == -E2BIG && (count > 0 ==> after[..count - 1] == src[..count - 1] && after[count - 1] == 0)
  }

  /** The source is long enough: up to `count` or its NUL, whose whole word is memory if words
      are read. */
  predicate Readable(src: seq<Byte>, count: nat, aligned: bool) {
    var n := FirstZero(src);
    count <= |src| || (n < |src| && (aligned ==> n / 8 * 8 + 8 <= |src|))
  }

  method LoadWord(src: array<Byte>, at: nat, n: nat) returns (c: nat)
    requires at + n <= src.Length
    ensures c == Value(src[at..at + n]) && c < Size(n)
  {
    c := Value(src[at..at + n]);
    ValueFits(src[at..at + n]);
  }

  method StoreWord(dest: array<Byte>, at: nat, c: nat, n: nat)
    requires at + n <= dest.Length
    modifies dest
    ensures dest[..] == old(dest[..])[..at] + Bytes(c, n) + old(dest[..])[at + n..]
  {
    var bs := Bytes(c, n);
    forall i | at <= i < at + n {
      dest[i] := bs[i - at];
    }
  }

  /** The part of the word loop that stores a word with a zero byte: the index of that byte and
      the bytes before it. */
  method StoreLast(dest: array<Byte>, at: nat, c: nat, n: nat, ghost bs: seq<Byte>) returns (k: nat)
    requires at + n <= dest.Length && |bs| == n && c == Value(bs) < Size(n) && HasZero(bs)
    modifies dest
    ensures k == FirstZero(bs) && dest[..] == old(dest[..])[..at] + Kept(bs, k) + old(dest[..])[at + n..]
  {
    ZeroMaskIs(bs);
    var data := ZeroMask(c, n);
    FindZeroIs(data, FirstZero(bs));
    MaskedIs(bs, FirstZero(bs));
    BytesOfValue(Kept(bs, FirstZero(bs)));
    StoreWord(dest, at, Bits(And, c, data), n);
    k := Fls(data) / 8;
  }

  /** The first `res` bytes, none of them NUL, have been copied. */
  ghost predicate Progress(src: seq<Byte>, before: seq<Byte>, after: seq<Byte>, res: nat) {
    && res <= FirstZero(src) && |after| == |before| && res <= |after|
    && after[..res] == src[..res] && after[res..] == before[res..]
  }

  lemma NoZeroYet(src: seq<Byte>, res: nat, n: nat)
    requires res + n <= |src| && res <= FirstZero(src) && !HasZero(src[res..res + n])
    ensures res + n <= FirstZero(src)
  {
    BeforeFirstZero(src);
    BeforeFirstZero(src[res..res + n]);
    forall i | res <= i < res + n ensures src[i] != 0 {
      assert src[i] == src[res..res + n][i - res];
    }
  }

  /** A word without a zero byte moves on by its length. */
  lemma WordCopied(src: seq<Byte>, before: seq<Byte>, after: seq<Byte>, after': seq<Byte>, res: nat, n: nat)
    requires Progress(src, before, after, res) && res + n <= |src| && res + n <= |after| && !HasZero(src[res..res + n])
    requires after' == after[..res] + src[res..res + n] + after[res + n..]
    ensures Progress(src, before, after', res + n)
  {
    NoZeroYet(src, res, n);
    assert after'[..res + n] == src[..res + n];
    assert after[res + n..] == after[res..][n..] == before[res..][n..] == before[res + n..];
  }

  /** A word with a zero byte ends the copy. */
  lemma LastCopied(src: seq<Byte>, before: seq<Byte>, after: seq<Byte>, after': seq<Byte>, res: nat, n: nat, count: nat,
                   k: nat)
    requires Progress(src, before, after, res) && res + n <= |src| && res + n <= count <= |after|
    requires HasZero(src[res..res + n])
    requires k == FirstZero(src[res..res + n]) && after' == after[..res] + Kept(src[res..res + n], k) + after[res + n..]
    ensures Copied(src, before, after', count, res + k)
  {
    var bs := src[res..res + n];
    BeforeFirstZero(bs);
    BeforeFirstZero(src);
    forall i | 0 <= i < res + k ensures src[i] != 0 {
      assert i >= res ==> src[i] == bs[i - res];
    }
    FirstZeroIs(src, res + k);
    forall i {:trigger after'[i]} | 0 <= i < res + k ensures after'[i] == src[i] {
      assert i < res ==> after'[i] == after[..res][i] == src[..res][i];
      assert i >= res ==> after'[i] == bs[i - res];
    }
    assert after'[..res + k] == src[..res + k];
    assert after'[res + k] == 0;
    forall i {:trigger after'[i]} | count <= i < |after'| ensures after'[i] == before[i] {
      assert after'[i] == after[i] == after[res..][i - res] == before[res..][i - res];
    }
  }

  /** One turn of the word loop. */
  method CopyWord(dest: array<Byte>, src: array<Byte>, res: nat, n: nat, count: nat, ghost before: seq<Byte>)
    returns (next: nat, done: bool)
    requires dest != src && 0 < n && res + n <= src.Length && res + n <= count <= dest.Length
    requires Progress(src[..], before, dest[..], res)
    modifies dest
    ensures if done then Copied(src[..], before, dest[..], count, next)
            else next == res + n && Progress(src[..], before, dest[..], next)
  {
    ghost var bs, text, after := src[res..res + n], src[..], dest[..];
    assert bs == text[res..res + n];
    var c := LoadWord(src, res, n);
    ZeroBitsDetect(bs);
    if ZeroBits(c, n) != 0 {
      var k := StoreLast(dest, res, c, n, bs);
      LastCopied(text, before, after, dest[..], res, n, count, k);
      return res + k, true;
    }
    BytesOfValue(bs);
    StoreWord(dest, res, c, n);
    WordCopied(text, before, after, dest[..], res, n);
    return res + n, false;
  }

  /** The word loop: stops with the result, or with less than a word to go. */
  method CopyWords(dest: array<Byte>, src: array<Byte>, count: nat) returns (res: nat, done: bool)
    requires dest != src && count <= dest.Length && Readable(src[..], count, true)
    modifies dest
    ensures if done then Copied(src[..], old(dest[..]), dest[..], count, res)
            else res <= count && Progress(src[..], old(dest[..]), dest[..], res)
  {
    ghost var text, before := src[..], dest[..];
    res, done := 0, false;
    while count - res >= 8
      invariant res % 8 == 0 && res <= count && src[..] == text && Progress(text, before, dest[..], res)
      decreases count - res
    {
      assert res + 8 <= src.Length;
      res, done := CopyWord(dest, src, res, 8, count, before);
      if done {
        return;
      }
    }
  }

  /** One turn of the byte loop: the word step with a word of one byte. */
  method CopyByte(dest: array<Byte>, src: array<Byte>, res: nat, count: nat, ghost before: seq<Byte>)
    returns (done: bool)
    requires dest != src && res < src.Length && res < count <= dest.Length
    requires Progress(src[..], before, dest[..], res)
    modifies dest
    ensures if done then Copied(src[..], before, dest[..], count, res) else Progress(src[..], before, dest[..], res + 1)
  {
    ghost var text, after := src[..], dest[..];
    assert text[res..res + 1] == [text[res]];
    var c := src[res];
    dest[res] := c;
    done := c == 0;
    if done {
      assert dest[..] == after[..res] + Kept(text[res..res + 1], 0) + after[res + 1..];
      LastCopied(text, before, after, dest[..], res, 1, count, 0);
    } else {
      assert dest[..] == after[..res] + text[res..res + 1] + after[res + 1..];
      WordCopied(text, before, after, dest[..], res, 1);
    }
  }

  /** Forced termination: the buffer is full and gets a zero as its last byte. */
  lemma TruncatedCopied(src: seq<Byte>, before: seq<Byte>, after: seq<Byte>, after': seq<Byte>, count: nat)
    requires Progress(src, before, after, count) && Readable(src, count, false)
    requires after' == if count != 0 then after[count - 1 := 0] else after
    ensures Copied(src, before, after', count, -E2BIG)
  {
    forall i {:trigger after'[i]} | count <= i < |after'| ensures after'[i] == before[i] {
      assert after'[i] == after[i] == after[count..][i - count] == before[count..][i - count];
    }
  }

  /** The byte loop and the forced termination. */
  method CopyBytes(dest: array<Byte>, src: array<Byte>, count: nat, start: nat, ghost before: seq<Byte>)
    returns (r: int)
    requires dest != src && start <= count <= dest.Length && Readable(src[..], count, false)
    requires Progress(src[..], before, dest[..], start)
    modifies dest
    ensures Copied(src[..], before, dest[..], count, r)
  {
    ghost var text := src[..];
    var res := start;
    while res < count
      invariant start <= res <= count && src[..] == text && Progress(text, before, dest[..], res)
    {
      var done := CopyByte(dest, src, res, count, before);
      if done {
        return res;
      }
      res := res + 1;
    }
    ghost var after := dest[..];
    if res != 0 {
      dest[res - 1] := 0;
    }
    TruncatedCopied(text, before, after, dest[..], count);
    return -E2BIG;
  }

  /** strscpy for buffers that do not overlap; `aligned` says whether both are word-aligned. */
  method StrScpy(dest: array<Byte>, src: array<Byte>, count: nat, aligned: bool) returns (r: int)
    requires dest != src && count <= dest.Length && Readable(src[..], count, aligned)
    modifies dest
    ensures Copied(src[..], old(dest[..]), dest[..], count, r)
  {
    if count == 0 {
      return -E2BIG;
    }
    var res, done := 0, false;
    if aligned {
      res, done := CopyWords(dest, src, count);
    }
    if done {
      return res;
    }
    r := CopyBytes(dest, src, count, res, old(dest[..]));
  }
}
