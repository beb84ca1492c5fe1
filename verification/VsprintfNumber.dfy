/** number of kernel/vsprintf.c: one formatted number, written into a bounded buffer. */
module VsprintfNumber {
  import opened Words
  import opened Vsprintf

  /** The flags of printf_spec as booleans, with base, field width and precision. */
  datatype Spec = Spec(sign: bool, left: bool, plus: bool, space: bool, zeropad: bool, small: bool, special: bool,
                       base: nat, width: int, precision: int)

  predicate IsBase(base: nat) {
    base == 8 || base == 10 || base == 16
  }

  // ---------------------------------------------------------------- what is to be printed

  function Rep(c: char, n: int): (t: string)
    ensures |t| == if n > 0 then n else 0
    ensures forall i :: 0 <= i < |t| ==> t[i] == c
  {
    seq(if n > 0 then n else 0, _ => c)
  }

  /** The number meant: signed only under the SIGN flag. */
  function Meant(num: U64, spec: Spec): int {
    if spec.sign then Signed64(num) else num
  }

  function Magnitude(num: U64, spec: Spec): (m: U64)
  {
    if Meant(num, spec) < 0 then -Meant(num, spec) else Meant(num, spec)
  }

  function SignText(num: U64, spec: Spec): string {
    if !spec.sign then "" else if Meant(num, spec) < 0 then "-" else if spec.plus then "+" else if spec.space then " "
      else ""
  }

  function PrefixText(num: U64, spec: Spec): string {
    if !spec.special || spec.base == 10 then ""
    else if spec.base == 16 then ['0', if spec.small then 'x' else 'X']
    else if num != 0 then "0" else ""
  }

  /** Highest digit first. */
  function DigitText(n: nat, base: nat, small: bool): (t: string)
    requires 2 <= base <= 16
    ensures |t| > 0
  {
    DigitsProper(n, base);
    Reversed(Chars(Digits(n, base), small))
  }

  function Reversed(t: string): (r: string)
    ensures |r| == |t|
    ensures forall i :: 0 <= i < |t| ==> r[i] == t[|t| - 1 - i]
  {
    seq(|t|, i requires 0 <= i < |t| => t[|t| - 1 - i])
  }

  function Layout(head: string, digits: string, spec: Spec): string {
    var tail := Rep('0', spec.precision - |digits|) + digits;
    var room := spec.width - |head| - |tail|;
    if spec.left then head + tail + Rep(' ', room)
    else if spec.zeropad then head + Rep('0', room) + tail
    else Rep(' ', room) + head + tail
  }

  function Text(num: U64, spec: Spec): string
    requires IsBase(spec.base)
  {
    Layout(SignText(num, spec) + PrefixText(num, spec), DigitText(Magnitude(num, spec), spec.base, spec.small), spec)
  }

  // ---------------------------------------------------------------- writing under a bound

  /** Memory after text is written at position `at`, dropping whatever falls at or past `end`. */
  function Put(mem: string, at: nat, end: nat, text: string): (r: string)
    ensures |r| == |mem|
  {
    seq(|mem|, i requires 0 <= i < |mem| => if at <= i < end && i < at + |text| then text[i - at] else mem[i])
  }

  lemma PutPut(mem: string, at: nat, end: nat, a: string, b: string)
    ensures Put(Put(mem, at, end, a), at + |a|, end, b) == Put(mem, at, end, a + b)
  {
  }

  method PutChar(mem: array<char>, buf: nat, end: nat, c: char) returns (next: nat)
    requires end <= mem.Length
    modifies mem
    ensures next == buf + 1 && mem[..] == Put(old(mem[..]), buf, end, [c])
  {
    if buf < end {
      mem[buf] := c;
    }
    next := buf + 1;
  }

  /** while (--width >= 0): the width left over is negative, so a later loop over it writes nothing. */
  method Pad(mem: array<char>, buf: nat, end: nat, c: char, width: int) returns (next: nat, left: int)
    requires end <= mem.Length
    modifies mem
    ensures next == buf + |Rep(c, width)| && mem[..] == Put(old(mem[..]), buf, end, Rep(c, width)) && left < 0
  {
    next, left := buf, width - 1;
    ghost var mem0 := mem[..];
    ghost var n := 0;
    assert Put(mem0, buf, end, Rep(c, n)) == mem0;
    while left >= 0
      invariant n >= 0 && next == buf + n && (n == 0 || left >= -1) && n + left == width - 1
      invariant mem[..] == Put(mem0, buf, end, Rep(c, n))
    {
      next := PutChar(mem, next, end, c);
      PutPut(mem0, buf, end, Rep(c, n), [c]);
      assert Rep(c, n) + [c] == Rep(c, n + 1);
      n := n + 1;
      left := left - 1;
    }
    assert Rep(c, n) == Rep(c, width);
  }

  // ---------------------------------------------------------------- the digits

  lemma {:induction false} FewDigits(n: nat, base: nat, k: nat, bound: nat)
    requires (base == 8 || base == 16) && k > 0 && bound == Pow2(3 * k) && n < bound
    ensures |Digits(n, base)| <= k
    decreases k
  {
    if n >= base {
      var below := Pow2(3 * k - 3);
      Octave(k);
      var q, r := Division(n, base);
      SmallQuotient(n, base, q, r, below);
      if k > 1 {
        FewDigits(q, base, k - 1, below);
      }
    }
  }

  lemma Octave(k: nat)
    requires k > 0
    ensures Pow2(3 * k) == 8 * Pow2(3 * k - 3)
  {
    assert Pow2(3 * k - 1) == 2 * Pow2(3 * k - 2);
  }

  lemma SmallQuotient(n: nat, base: nat, q: nat, r: nat, below: nat)
    requires (base == 8 || base == 16) && n == base * q + r && n < 8 * below
    ensures q < below
  {
    assert base == 8 ==> n == 8 * q + r;
    assert base == 16 ==> n == 16 * q + r;
  }

  /** At most 22 digits in base 8, so tmp[24] is large enough. */
  lemma AtMost22(num: U64, base: nat)
    requires base == 8 || base == 16
    ensures |Digits(num, base)| <= 22
  {
    Pow2Values();
    var k := 22;
    assert Pow2(3 * k) == 2 * Pow2(3 * k - 1) == 4 * Pow2(3 * k - 2);
    FewDigits(num, base, k, Pow2(3 * k));
  }

  lemma DecimalCase(n: nat, small: bool)
    ensures Chars(Digits(n, 10), small) == Chars(Digits(n, 10), false)
  {
    DigitsProper(n, 10);
  }

  /** Masking out the lowest digit and shifting it away. */
  method ShiftDigit(n: U64, base: nat) returns (d: Digit, q: U64)
    requires base == 8 || base == 16
    ensures d == n % base && q == n / base && q <= n && (q == 0 <==> n < base) && (q != 0 ==> q < n)
  {
    LowBits(n);
    if base == 16 {
      d, q := n % 0x100 % 16, n / 16;
    } else {
      d, q := n % 0x100 % 8, n / 8;
    }
  }

  lemma LowBits(n: nat)
    ensures n % 0x100 % 16 == n % 16 && n % 0x100 % 8 == n % 8
  {
    var q, r := n / 0x100, n % 0x100;
    var a, b := r / 16, r % 16;
    ModUnique(n, 16, 16 * q + a, b);
    var c, d := r / 8, r % 8;
    ModUnique(n, 8, 32 * q + c, d);
  }

  /** The characters still to come when `n` is left, and nothing once the loop has ended. */
  function Rest(n: nat, base: nat, small: bool, more: bool): string
    requires 2 <= base <= 16
  {
    if more then Chars(Digits(n, base), small) else ""
  }

  lemma RestStep(n: nat, base: nat, small: bool, d: Digit, q: nat)
    requires 2 <= base <= 16 && d == n % base && q == n / base && (q == 0 <==> n < base)
    ensures [Shown(d, small)] + Rest(q, base, small, q != 0) == Rest(n, base, small, true)
  {
    if q != 0 {
      CharsAppend([d], Digits(q, base), small);
    } else {
      assert n == d && Digits(n, base) == [d];
    }
  }

  method PutBinaryDigit(tmp: array<char>, i: nat, n: U64, base: nat, small: bool, ghost all: string) returns (q: U64)
    requires (base == 8 || base == 16) && i < tmp.Length && tmp[..i] + Rest(n, base, small, true) == all
    modifies tmp
    ensures tmp[..i + 1] + Rest(q, base, small, q != 0) == all && (q != 0 ==> q < n)
  {
    var d;
    d, q := ShiftDigit(n, base);
    RestStep(n, base, small, d, q);
    ghost var before, rest := tmp[..i], Rest(q, base, small, q != 0);
    assert before + ([Shown(d, small)] + rest) == before + [Shown(d, small)] + rest;
    tmp[i] := Shown(d, small);
    assert tmp[..i + 1] == before + [Shown(d, small)];
  }

  lemma RestNonEmpty(n: nat, base: nat, small: bool)
    requires 2 <= base <= 16
    ensures Rest(n, base, small, true) != ""
  {
    DigitsProper(n, base);
  }

  /** Bases 8 and 16, a digit at a time. */
  method MakeBinaryDigits(tmp: array<char>, num: U64, base: nat, small: bool) returns (i: nat)
    requires tmp.Length == 24 && (base == 8 || base == 16)
    modifies tmp
    ensures i <= 24 && tmp[..i] == Chars(Digits(num, base), small)
  {
    var n: U64, more := num, true;
    i := 0;
    ghost var all := Rest(num, base, small, true);
    AtMost22(num, base);
    while more
      invariant i <= |all| <= 22 && tmp[..i] + Rest(n, base, small, more) == all
      decreases more, n
    {
      RestNonEmpty(n, base, small);
      n := PutBinaryDigit(tmp, i, n, base, small, all);
      i := i + 1;
      more := n != 0;
    }
  }

  /** The digits of num at the start of tmp, lowest first. */
  method MakeDigits(tmp: array<char>, num: U64, base: nat, small: bool) returns (i: nat)
    requires tmp.Length == 24 && IsBase(base)
    modifies tmp
    ensures i <= 24 && tmp[..i] == Chars(Digits(num, base), small)
  {
    if num < base {
      tmp[0] := Shown(num, small);
      i := 1;
    } else if base != 10 {
      i := MakeBinaryDigits(tmp, num, base, small);
    } else {
      DecimalCase(num, small);
      i := PutDec(tmp, 0, num);
    }
  }

  // ---------------------------------------------------------------- the whole number

  /** Since buf, exactly `done` has been written, as far as `end` allows. */
  ghost predicate Written(mem: string, mem0: string, buf: nat, end: nat, at: nat, done: string) {
    at == buf + |done| && mem == Put(mem0, buf, end, done)
  }

  lemma WrittenMore(mem: string, mem0: string, buf: nat, end: nat, at: nat, done: string, piece: string)
    requires Written(mem, mem0, buf, end, at, done)
    ensures Written(Put(mem, at, end, piece), mem0, buf, end, at + |piece|, done + piece)
  {
    PutPut(mem0, buf, end, done, piece);
  }

  /** tmp[i - 1] first, down to tmp[0]. */
  method PutDigits(mem: array<char>, buf: nat, end: nat, tmp: array<char>, n: nat) returns (next: nat)
    requires end <= mem.Length && n <= tmp.Length && mem != tmp
    modifies mem
    ensures next == buf + n && mem[..] == Put(old(mem[..]), buf, end, Reversed(tmp[..n]))
  {
    next := buf;
    var i: int := n - 1;
    ghost var all := Reversed(tmp[..n]);
    ghost var mem0 := mem[..];
    assert Put(mem0, buf, end, "") == mem0;
    while i >= 0
      invariant -1 <= i < n && Written(mem[..], mem0, buf, end, next, all[..n - 1 - i])
    {
      WrittenMore(mem[..], mem0, buf, end, next, all[..n - 1 - i], [tmp[i]]);
      assert all[..n - 1 - i] + [tmp[i]] == all[..n - i];
      next := PutChar(mem, next, end, tmp[i]);
      i := i - 1;
    }
    assert all[..n] == all;
  }

  /** The sign character, or none, and the magnitude; a sign takes one column. */
  method TakeSign(num: U64, spec: Spec) returns (sign: string, n: U64, width: int)
    ensures sign == SignText(num, spec) && n == Magnitude(num, spec) && width == spec.width - |sign|
  {
    sign, n, width := "", num, spec.width;
    if spec.sign {
      if num >= 0x8000_0000_0000_0000 {
        sign := "-";
        n := 0x1_0000_0000_0000_0000 - num;
        width := width - 1;
      } else if spec.plus {
        sign := "+";
        width := width - 1;
      } else if spec.space {
        sign := " ";
        width := width - 1;
      }
    }
  }

  /** Sign and prefix. */
  method PutHead(mem: array<char>, buf: nat, end: nat, num: U64, spec: Spec, sign: string) returns (next: nat)
    requires end <= mem.Length && |sign| <= 1
    modifies mem
    ensures next == buf + |sign| + |PrefixText(num, spec)|
    ensures mem[..] == Put(old(mem[..]), buf, end, sign + PrefixText(num, spec))
  {
    next := buf;
    ghost var mem0 := mem[..];
    ghost var done := "";
    assert Put(mem0, buf, end, "") == mem0;
    if sign != "" {
      WrittenMore(mem[..], mem0, buf, end, next, done, sign);
      next := PutChar(mem, next, end, sign[0]);
      done := sign;
    }
    assert done == sign;
    if spec.special && spec.base != 10 {
      if spec.base == 16 || num != 0 {
        WrittenMore(mem[..], mem0, buf, end, next, done, "0");
        next := PutChar(mem, next, end, '0');
        done := done + "0";
      }
      if spec.base == 16 {
        var x := if spec.small then 'x' else 'X';
        WrittenMore(mem[..], mem0, buf, end, next, done, [x]);
        next := PutChar(mem, next, end, x);
        done := done + [x];
      }
    }
    assert done == sign + PrefixText(num, spec);
  }

  /** number: writes exactly Text, cut off at end; the position returned does not depend on end. */
  method Number(mem: array<char>, buf: nat, end: nat, num: U64, spec: Spec) returns (next: nat)
    requires end <= mem.Length && IsBase(spec.base)
    modifies mem
    ensures next == buf + |Text(num, spec)| && mem[..] == Put(old(mem[..]), buf, end, Text(num, spec))
  {
    var tmp := new char[24];
    var sign, n, width := TakeSign(num, spec);
    if spec.special && spec.base != 10 {
      if spec.base == 16 {
        width := width - 2;
      } else if num != 0 {
        width := width - 1;
      }
    }
    var i := MakeDigits(tmp, n, spec.base, spec.small);
    next := PutBody(mem, buf, end, num, spec, sign, width, tmp, i);
  }

  /** Layout in two parts: what precedes the zeros and digits, and the rest. */
  function Front(head: string, spec: Spec, room: int): string {
    if spec.left then head else if spec.zeropad then head + Rep('0', room) else Rep(' ', room) + head
  }

  function Back(digits: string, spec: Spec, room: int): string {
    Rep('0', spec.precision - |digits|) + digits + if spec.left then Rep(' ', room) else ""
  }

  lemma LayoutParts(head: string, digits: string, spec: Spec, room: int)
    requires room == spec.width - |head| - if |digits| > spec.precision then |digits| else spec.precision
    ensures Front(head, spec, room) + Back(digits, spec, room) == Layout(head, digits, spec)
  {
    var tail := Rep('0', spec.precision - |digits|) + digits;
    if spec.left {
      assert head + (tail + Rep(' ', room)) == head + tail + Rep(' ', room);
    } else if spec.zeropad {
      assert head + Rep('0', room) + (tail + "") == head + Rep('0', room) + tail;
    } else {
      assert Rep(' ', room) + head + (tail + "") == Rep(' ', room) + head + tail;
    }
  }

  method PutFront(mem: array<char>, buf: nat, end: nat, num: U64, spec: Spec, sign: string, room: int)
    returns (next: nat, width: int)
    requires end <= mem.Length && |sign| <= 1
    modifies mem
    ensures Written(mem[..], old(mem[..]), buf, end, next, Front(sign + PrefixText(num, spec), spec, room))
    ensures if spec.left then width == room else width < 0
  {
    var zeropad := spec.zeropad && !spec.left;
    ghost var mem0 := mem[..];
    ghost var head := sign + PrefixText(num, spec);
    ghost var lead := "";
    next, width := buf, room;
    assert Put(mem0, buf, end, "") == mem0;
    if !zeropad && !spec.left {
      lead := Rep(' ', width);
      next, width := Pad(mem, next, end, ' ', width);
    }
    WrittenMore(mem[..], mem0, buf, end, next, lead, head);
    next := PutHead(mem, next, end, num, spec, sign);
    if !spec.left {
      var c := if zeropad then '0' else ' ';
      WrittenMore(mem[..], mem0, buf, end, next, lead + head, Rep(c, width));
      next, width := Pad(mem, next, end, c, width);
    }
  }

  method PutBack(mem: array<char>, buf: nat, end: nat, spec: Spec, tmp: array<char>, i: nat, room: int)
    returns (next: nat)
    requires end <= mem.Length && i <= tmp.Length && mem != tmp && (spec.left || room < 0)
    modifies mem
    ensures Written(mem[..], old(mem[..]), buf, end, next, Back(Reversed(tmp[..i]), spec, room))
  {
    var precision := if i > spec.precision then i else spec.precision;
    ghost var mem0 := mem[..];
    ghost var zeros, digits := Rep('0', precision - i), Reversed(tmp[..i]);
    var left;
    next, left := Pad(mem, buf, end, '0', precision - i);
    WrittenMore(mem[..], mem0, buf, end, next, zeros, digits);
    next := PutDigits(mem, next, end, tmp, i);
    WrittenMore(mem[..], mem0, buf, end, next, zeros + digits, Rep(' ', room));
    next, left := Pad(mem, next, end, ' ', room);
  }

  /** Padding, head, zeros and digits in their order. */
  method PutBody(mem: array<char>, buf: nat, end: nat, num: U64, spec: Spec, sign: string, columns: int,
                 tmp: array<char>, i: nat) returns (next: nat)
    requires end <= mem.Length && i <= tmp.Length && mem != tmp && |sign| <= 1
    requires columns == spec.width - |sign + PrefixText(num, spec)|
    modifies mem
    ensures Written(mem[..], old(mem[..]), buf, end, next,
      Layout(sign + PrefixText(num, spec), Reversed(tmp[..i]), spec))
  {
    var precision := if i > spec.precision then i else spec.precision;
    ghost var head, digits := sign + PrefixText(num, spec), Reversed(tmp[..i]);
    ghost var room := columns - precision;
    LayoutParts(head, digits, spec, room);
    ghost var front, back := Front(head, spec, room), Back(digits, spec, room);
    ghost var mem0 := mem[..];
    var width;
    next, width := PutFront(mem, buf, end, num, spec, sign, columns - precision);
    WrittenMore(mem[..], mem0, buf, end, next, front, back);
    next := PutBack(mem, next, end, spec, tmp, i, width);
  }
}
