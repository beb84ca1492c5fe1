/** Printing numbers: put_dec and number of kernel/vsprintf.c. */
module Vsprintf {
  import opened Words

  // ---------------------------------------------------------------- digits

  type Digit = d: int | 0 <= d < 16

  /** The digits of n from the lowest up, without leading zeros. */
  function Digits(n: nat, base: nat): seq<Digit>
    requires 2 <= base <= 16
  {
    if n < base then [n] else
      DivLess(n, base);
      [n % base] + Digits(n / base, base)
  }

  lemma DivLess(n: nat, base: nat)
    requires base >= 2 && n >= base
    ensures 0 < n / base < n
  {
    var q, r := n / base, n % base;
    assert n == base * q + r;
    MulAtLeast(base, 1 - q);
    assert base * (1 - q) == base - base * q;
    MulGrows(base - 1, q);
    assert (base - 1) * q == base * q - q;
  }

  /** What digits stand for. */
  function ValueOf(ds: seq<Digit>, base: nat): nat {
    if ds == [] then 0 else ds[0] + base * ValueOf(ds[1..], base)
  }

  lemma ValueOfCons(d: Digit, ds: seq<Digit>, base: nat)
    ensures ValueOf([d] + ds, base) == d + base * ValueOf(ds, base)
  {
    assert ([d] + ds)[1..] == ds;
  }

  lemma ReadBackStep(n: nat, base: nat, q: nat, r: Digit, ds: seq<Digit>)
    requires n == base * q + r && ValueOf(ds, base) == q
    ensures ValueOf([r] + ds, base) == n
  {
    ValueOfCons(r, ds, base);
  }

  lemma Division(n: nat, base: nat) returns (q: nat, r: Digit)
    requires 2 <= base <= 16 && n >= base
    ensures n == base * q + r && q < n && q == n / base && r == n % base
  {
    DivLess(n, base);
    q, r := n / base, n % base;
  }

  /** Digits read back as the number. */
  lemma {:induction false} DigitsReadBack(n: nat, base: nat)
    requires 2 <= base <= 16
    ensures ValueOf(Digits(n, base), base) == n
    decreases n
  {
    if n >= base {
      var q, r := Division(n, base);
      DigitsReadBack(q, base);
      ReadBackStep(n, base, q, r, Digits(q, base));
    } else {
      ValueOfCons(n, [], base);
      assert [n] + [] == [n];
    }
  }

  ghost predicate AreDigits(ds: seq<Digit>, base: nat) {
    |ds| > 0 && forall i {:trigger ds[i]} :: 0 <= i < |ds| ==> ds[i] < base
  }

  /** They are digits, and there is no leading zero. */
  lemma {:induction false} DigitsProper(n: nat, base: nat)
    requires 2 <= base <= 16
    ensures AreDigits(Digits(n, base), base) && (n > 0 ==> Digits(n, base)[|Digits(n, base)| - 1] != 0)
    decreases n
  {
    if n >= base {
      DivLess(n, base);
      DigitsProper(n / base, base);
      assert n % base < base;
    }
  }

  /** Exactly k decimal digits, with leading zeros. */
  function Fixed(n: nat, k: nat): seq<Digit> {
    if k == 0 then [] else [n % 10] + Fixed(n / 10, k - 1)
  }

  function Ten(k: nat): (p: nat)
    ensures p > 0
  {
    if k == 0 then 1 else 10 * Ten(k - 1)
  }

  /** Splitting off the lowest k digits. */
  lemma {:induction false} SplitDigits(n: nat, k: nat, p: nat)
    requires p == Ten(k) && n >= p
    ensures Digits(n, 10) == Fixed(n % p, k) + Digits(n / p, 10)
    decreases k
  {
    if k > 0 {
      var p' := Ten(k - 1);
      DivDiv(n, p');
      assert n / 10 >= p';
      SplitDigits(n / 10, k - 1, p');
    } else {
      assert n % 1 == 0 && n / 1 == n && Fixed(0, 0) == [];
    }
  }

  lemma DivDiv(n: nat, p: nat)
    requires p > 0
    ensures n / (10 * p) == n / 10 / p && n % (10 * p) % 10 == n % 10 && n % (10 * p) / 10 == n / 10 % p
  {
    var q, r := n / 10, n % 10;
    var a, b := q / p, q % p;
    assert q == p * a + b;
    assert n == 10 * p * a + (10 * b + r);
    assert 10 * b + r < 10 * p;
    assert 10 * p * a == (10 * p) * a;
    ModUnique(n, 10 * p, a, 10 * b + r);
  }

  function Two(x: nat): seq<Digit>
    requires x < 100
  {
    [x % 10, x / 10]
  }

  /** Both kinds of digits, two at a time. */
  lemma FixedTwo(n: nat, k: nat)
    requires k >= 2
    ensures Fixed(n, k) == Two(n % 100) + Fixed(n / 100, k - 2)
  {
    DivDiv(n, 10);
    assert Fixed(n / 10, k - 1) == [n / 10 % 10] + Fixed(n / 10 / 10, k - 2);
  }

  lemma DigitsTwo(n: nat)
    requires n >= 100
    ensures Digits(n, 10) == Two(n % 100) + Digits(n / 100, 10)
  {
    DivDiv(n, 10);
    assert Digits(n / 10, 10) == [n / 10 % 10] + Digits(n / 10 / 10, 10);
  }

  // ---------------------------------------------------------------- reciprocals

  /** (x * 0x28f5c29) >> 32 divides by 100. */
  lemma Reciprocal32(x: nat)
    requires x < 100_000_000
    ensures x * 0x28f5c29 / 0x1_0000_0000 == x / 100
  {
    var q, s := x / 100, x % 100;
    assert x == 100 * q + s;
    assert x * 0x28f5c29 == q * 0x1_0000_0000 + (4 * q + s * 0x28f5c29);
    assert 4 * q + s * 0x28f5c29 < 0x1_0000_0000;
  }

  /** (x * 0x147b) >> 19 divides by 100. */
  lemma Reciprocal19(x: nat)
    requires x < 10_000
    ensures x * 0x147b / 0x8_0000 == x / 100
  {
    var q, s := x / 100, x % 100;
    assert x == 100 * q + s;
    assert x * 0x147b == q * 0x8_0000 + (12 * q + s * 0x147b);
    assert 12 * q + s * 0x147b < 0x8_0000;
  }

  // ---------------------------------------------------------------- decimal digits into a buffer

  /** A digit as a character; ORing 0x20 makes a letter small and leaves '0'..'9' alone. */
  function Shown(d: Digit, small: bool): char {
    if d < 10 then '0' + d as char
    else if small then 'a' + (d - 10) as char
    else 'A' + (d - 10) as char
  }

  function Chars(ds: seq<Digit>, small: bool): (t: string)
    ensures |t| == |ds|
  {
    seq(|ds|, i requires 0 <= i < |ds| => Shown(ds[i], small))
  }

  lemma CharsAppend(a: seq<Digit>, b: seq<Digit>, small: bool)
    ensures Chars(a + b, small) == Chars(a, small) + Chars(b, small)
  {
  }

  /** The 16-bit table entry for x < 100. */
  function DecPair(x: nat): (w: nat)
    requires x < 100
    ensures w < 0x1_0000
  {
    x % 10 + x / 10 * 0x100 + 0x3030
  }

  /** Storing a table entry, low byte first, writes the two digits of x, low digit first. */
  method PutPair(tmp: array<char>, at: nat, x: nat)
    requires at + 2 <= tmp.Length && x < 100
    modifies tmp
    ensures tmp[..at + 2] == old(tmp[..at]) + Chars(Two(x), false)
    ensures forall i :: at + 2 <= i < tmp.Length ==> tmp[i] == old(tmp[i])
  {
    var w := DecPair(x);
    assert w % 0x100 == x % 10 + 0x30 && w / 0x100 == x / 10 + 0x30;
    tmp[at] := (w % 0x100) as char;
    tmp[at + 1] := (w / 0x100) as char;
  }

  /** What is written so far and the digits still to come make up the whole. */
  lemma AppendStep(before: string, a: seq<Digit>, b: seq<Digit>, whole: seq<Digit>)
    requires whole == a + b
    ensures before + Chars(a, false) + Chars(b, false) == before + Chars(whole, false)
  {
    CharsAppend(a, b, false);
  }

  /** Dividing by 100 with a multiplication and a shift. */
  method Div100(x: nat) returns (q: nat)
    requires x < 100_000_000
    ensures q == x / 100 && x - 100 * q == x % 100
  {
    q := x * 0x28f5c29 / 0x1_0000_0000;
    Reciprocal32(x);
  }

  method SmallDiv100(x: nat) returns (q: nat)
    requires x < 10_000
    ensures q == x / 100 && x - 100 * q == x % 100
  {
    q := x * 0x147b / 0x8_0000;
    Reciprocal19(x);
  }

  /** Two digits go out and the rest of the number remains. */
  method PutLowDigits(tmp: array<char>, at: nat, n: nat, q: nat)
    requires at + 2 <= tmp.Length && n >= 100 && q == n / 100
    modifies tmp
    ensures tmp[..at + 2] + Chars(Digits(q, 10), false) == old(tmp[..at]) + Chars(Digits(n, 10), false)
    ensures forall i :: at + 2 <= i < tmp.Length ==> tmp[i] == old(tmp[i])
  {
    DigitsTwo(n);
    AppendStep(tmp[..at], Two(n % 100), Digits(q, 10), Digits(n, 10));
    PutPair(tmp, at, n - 100 * q);
  }

  method PutFixedDigits(tmp: array<char>, at: nat, n: nat, q: nat, ghost k: nat)
    requires at + 2 <= tmp.Length && k >= 2 && q == n / 100
    modifies tmp
    ensures tmp[..at + 2] + Chars(Fixed(q, k - 2), false) == old(tmp[..at]) + Chars(Fixed(n, k), false)
    ensures forall i :: at + 2 <= i < tmp.Length ==> tmp[i] == old(tmp[i])
  {
    FixedTwo(n, k);
    AppendStep(tmp[..at], Two(n % 100), Fixed(q, k - 2), Fixed(n, k));
    PutPair(tmp, at, n - 100 * q);
  }

  lemma LastPair(before: string, n: nat, after: string)
    requires n < 100 && after == before + Chars(Two(n), false)
    ensures before + Chars(Digits(n, 10), false) == if n < 10 then after[..|after| - 1] else after
  {
    if n >= 10 {
      assert Digits(n, 10) == [n % 10] + Digits(n / 10, 10) == Two(n);
    } else {
      assert Digits(n, 10) == [n] && Two(n) == [n, 0];
    }
  }

  /** put_dec_trunc8: the digits of r, without leading zeros; the byte after them may be hit too. */
  method PutDecTrunc8(tmp: array<char>, buf: nat, num: nat) returns (next: nat)
    requires num < 100_000_000 && buf + 8 <= tmp.Length
    modifies tmp
    ensures buf < next <= buf + 8 && tmp[..next] == old(tmp[..buf]) + Chars(Digits(num, 10), false)
    ensures forall i :: buf + 8 <= i < tmp.Length ==> tmp[i] == old(tmp[i])
  {
    var at, r := buf, num;
    ghost var all := tmp[..buf] + Chars(Digits(num, 10), false);
    if r >= 100 {
      var q := Div100(r);
      PutLowDigits(tmp, at, r, q);
      at := at + 2;
      if q < 100 {
        r := q;
      } else {
        r := Div100(q);
        PutLowDigits(tmp, at, q, r);
        at := at + 2;
        if r >= 100 {
          q := SmallDiv100(r);
          PutLowDigits(tmp, at, r, q);
          at := at + 2;
          r := q;
        }
      }
    }
    assert r < 100 && tmp[..at] + Chars(Digits(r, 10), false) == all;
    LastPair(tmp[..at], r, tmp[..at] + Chars(Two(r), false));
    PutPair(tmp, at, r);
    next := at + if r < 10 then 1 else 2;
    assert tmp[..next] == tmp[..at + 2][..next];
  }

  /** put_dec_full8: exactly eight digits. */
  method PutDecFull8(tmp: array<char>, buf: nat, num: nat) returns (next: nat)
    requires num < 100_000_000 && buf + 8 <= tmp.Length
    modifies tmp
    ensures next == buf + 8 && tmp[..next] == old(tmp[..buf]) + Chars(Fixed(num, 8), false)
    ensures forall i :: buf + 8 <= i < tmp.Length ==> tmp[i] == old(tmp[i])
  {
    ghost var k := 8;
    var at := buf;
    var q := Div100(num);
    PutFixedDigits(tmp, at, num, q, k);
    at := at + 2;
    var r := Div100(q);
    PutFixedDigits(tmp, at, q, r, k - 2);
    at := at + 2;
    q := SmallDiv100(r);
    PutFixedDigits(tmp, at, r, q, k - 4);
    at := at + 2;
    PutFixedDigits(tmp, at, q, 0, k - 6);
    next := at + 2;
  }

  lemma OneEight(before: string, n: nat, after: string)
    requires n >= 100_000_000 && after == before + Chars(Fixed(n % 100_000_000, 8), false)
    ensures after + Chars(Digits(n / 100_000_000, 10), false) == before + Chars(Digits(n, 10), false)
  {
    SplitDigits(n, 8, 100_000_000);
    AppendStep(before, Fixed(n % 100_000_000, 8), Digits(n / 100_000_000, 10), Digits(n, 10));
  }

  /** put_dec: the decimal digits of any 64-bit number, low digit first. */
  method PutDec(tmp: array<char>, buf: nat, num: U64) returns (next: nat)
    requires buf + 24 <= tmp.Length
    modifies tmp
    ensures buf < next <= buf + 24 && tmp[..next] == old(tmp[..buf]) + Chars(Digits(num, 10), false)
    ensures forall i :: buf + 24 <= i < tmp.Length ==> tmp[i] == old(tmp[i])
  {
    var n, at := num, buf;
    ghost var all := tmp[..buf] + Chars(Digits(num, 10), false);
    if n >= 100_000_000 {
      OneEight(tmp[..at], n, tmp[..at] + Chars(Fixed(n % 100_000_000, 8), false));
      at := PutDecFull8(tmp, at, n % 100_000_000);
      n := n / 100_000_000;
    }
    if n >= 100_000_000 {
      OneEight(tmp[..at], n, tmp[..at] + Chars(Fixed(n % 100_000_000, 8), false));
      at := PutDecFull8(tmp, at, n % 100_000_000);
      n := n / 100_000_000;
    }
    next := PutDecTrunc8(tmp, at, n);
  }
}
