/** Reading back what number prints, and how long it is. */
module VsprintfRead {
  import opened Words
  import opened Vsprintf
  import opened VsprintfNumber

  // ---------------------------------------------------------------- a reader of numbers

  /** The digit a character stands for; 16 if none. */
  function DigitOf(c: char): nat {
    if '0' <= c <= '9' then (c - '0') as nat
    else if 'a' <= c <= 'f' then 10 + (c - 'a') as nat
    else if 'A' <= c <= 'F' then 10 + (c - 'A') as nat
    else 16
  }

  function Reading(t: string, base: nat, acc: int): int {
    if t == "" || DigitOf(t[0]) >= base then acc else Reading(t[1..], base, DigitOf(t[0]) + base * acc)
  }

  function AfterSpaces(t: string): string {
    if t != "" && t[0] == ' ' then AfterSpaces(t[1..]) else t
  }

  function AfterPrefix(t: string, base: nat): string {
    if base == 16 && |t| >= 2 && t[0] == '0' && (t[1] == 'x' || t[1] == 'X') then t[2..] else t
  }

  /** Spaces, an optional sign, an optional 0x, digits; whatever follows is ignored. */
  function Read(t: string, base: nat): int {
    ReadSigned(AfterSpaces(t), base)
  }

  function ReadSigned(t: string, base: nat): int {
    if t != "" && t[0] == '-' then -Reading(AfterPrefix(t[1..], base), base, 0)
    else if t != "" && t[0] == '+' then Reading(AfterPrefix(t[1..], base), base, 0)
    else Reading(AfterPrefix(t, base), base, 0)
  }

  // ---------------------------------------------------------------- digits

  lemma ShownIs(d: Digit, small: bool)
    ensures DigitOf(Shown(d, small)) == d && Shown(d, small) !in " -+xX"
  {
  }

  lemma ReversedCons(d: Digit, ds: seq<Digit>, small: bool, rest: string)
    ensures Reversed(Chars([d] + ds, small)) + rest == Reversed(Chars(ds, small)) + ([Shown(d, small)] + rest)
  {
    var t := Chars([d] + ds, small);
    assert t == [Shown(d, small)] + Chars(ds, small);
    assert Reversed(t) == Reversed(Chars(ds, small)) + [Shown(d, small)];
  }

  lemma ReadOne(c: char, rest: string, base: nat, acc: int)
    requires DigitOf(c) < base
    ensures Reading([c] + rest, base, acc) == Reading(rest, base, DigitOf(c) + base * acc)
  {
    assert ([c] + rest)[1..] == rest;
  }

  lemma {:induction false} ReadDigits(ds: seq<Digit>, base: nat, small: bool, rest: string)
    requires forall i :: 0 <= i < |ds| ==> ds[i] < base
    ensures Reading(Reversed(Chars(ds, small)) + rest, base, 0) == Reading(rest, base, ValueOf(ds, base))
    decreases |ds|
  {
    if ds == [] {
      assert Reversed(Chars(ds, small)) + rest == rest;
    } else {
      var d, lower := ds[0], ds[1..];
      assert [d] + lower == ds;
      ReversedCons(d, lower, small, rest);
      ReadDigits(lower, base, small, [Shown(d, small)] + rest);
      ShownIs(d, small);
      ReadOne(Shown(d, small), rest, base, ValueOf(lower, base));
      ValueOfCons(d, lower, base);
    }
  }

  lemma {:induction false} ReadZeros(n: int, base: nat, t: string)
    requires base >= 2
    ensures Reading(Rep('0', n) + t, base, 0) == Reading(t, base, 0)
    decreases n
  {
    if n > 0 {
      assert Rep('0', n) + t == ['0'] + (Rep('0', n - 1) + t);
      ReadOne('0', Rep('0', n - 1) + t, base, 0);
      assert base * 0 == 0;
      ReadZeros(n - 1, base, t);
    } else {
      assert Rep('0', n) + t == t;
    }
  }

  lemma {:induction false} SkipSpaces(n: int, t: string)
    ensures AfterSpaces(Rep(' ', n) + t) == AfterSpaces(t)
    decreases n
  {
    if n > 0 {
      assert Rep(' ', n) + t == [' '] + (Rep(' ', n - 1) + t);
      assert ([' '] + (Rep(' ', n - 1) + t))[1..] == Rep(' ', n - 1) + t;
      SkipSpaces(n - 1, t);
    } else {
      assert Rep(' ', n) + t == t;
    }
  }

  /** Zeros, the digits of n, spaces. */
  function Body(n: nat, base: nat, small: bool, zeros: int, spaces: int): (t: string)
    requires 2 <= base <= 16
    ensures t != ""
  {
    Rep('0', zeros) + DigitText(n, base, small) + Rep(' ', spaces)
  }

  lemma BodyChars(n: nat, base: nat, small: bool, zeros: int, spaces: int)
    requires 2 <= base <= 16
    ensures var t := Body(n, base, small, zeros, spaces);
      t[0] !in " -+" && forall i :: 0 <= i < |t| ==> t[i] !in "xX"
  {
    var ds := Digits(n, base);
    forall i | 0 <= i < |ds|
      ensures Shown(ds[i], small) !in " -+xX"
    {
      ShownIs(ds[i], small);
    }
  }

  lemma ReadBody(n: nat, base: nat, small: bool, zeros: int, spaces: int)
    requires 2 <= base <= 16
    ensures Reading(Body(n, base, small, zeros, spaces), base, 0) == n
  {
    var ds, rest := Digits(n, base), Rep(' ', spaces);
    assert Body(n, base, small, zeros, spaces) == Rep('0', zeros) + (DigitText(n, base, small) + rest);
    ReadZeros(zeros, base, DigitText(n, base, small) + rest);
    DigitsProper(n, base);
    ReadDigits(ds, base, small, rest);
    DigitsReadBack(n, base);
  }

  // ---------------------------------------------------------------- the text

  lemma LayoutShape(sign: string, prefix: string, digits: string, spec: Spec)
    returns (lead: int, zeros: int, trail: int)
    ensures Layout(sign + prefix, digits, spec)
         == Rep(' ', lead) + (sign + (prefix + (Rep('0', zeros) + digits + Rep(' ', trail))))
  {
    var extra := spec.precision - |digits|;
    var tail := Rep('0', extra) + digits;
    var room := spec.width - |sign + prefix| - |tail|;
    lead, zeros, trail := 0, extra, 0;
    var none := "";
    assert Rep(' ', 0) == none;
    if spec.left {
      trail := room;
      Regroup(none, sign, prefix, tail, Rep(' ', room));
      assert none + (sign + prefix) == sign + prefix;
    } else if spec.zeropad {
      zeros := (if extra > 0 then extra else 0) + if room > 0 then room else 0;
      assert Rep('0', room) + tail == Rep('0', zeros) + digits;
      Regroup(none, sign, prefix, Rep('0', zeros) + digits, none);
      assert none + (sign + prefix) + (Rep('0', room) + tail) + none == sign + prefix + Rep('0', room) + tail;
    } else {
      lead := room;
      Regroup(Rep(' ', room), sign, prefix, tail, none);
      assert Rep(' ', room) + (sign + prefix) + tail + none == Rep(' ', room) + (sign + prefix) + tail;
    }
  }

  lemma Regroup(a: string, b: string, c: string, d: string, e: string)
    ensures a + (b + c) + d + e == a + (b + (c + (d + e)))
  {
  }

  /** Spaces, sign, prefix, zeros, digits, spaces. */
  lemma TextShape(num: U64, spec: Spec) returns (lead: int, zeros: int, trail: int)
    requires IsBase(spec.base)
    ensures Text(num, spec) == Rep(' ', lead) + (SignText(num, spec)
      + (PrefixText(num, spec) + Body(Magnitude(num, spec), spec.base, spec.small, zeros, trail)))
  {
    lead, zeros, trail := LayoutShape(SignText(num, spec), PrefixText(num, spec),
                                      DigitText(Magnitude(num, spec), spec.base, spec.small), spec);
  }

  /** A field is as wide as asked for, or as its content needs; never cut. */
  lemma TextLength(num: U64, spec: Spec)
    requires IsBase(spec.base)
    ensures var shown := |DigitText(Magnitude(num, spec), spec.base, spec.small)|;
      var content := |SignText(num, spec)| + |PrefixText(num, spec)| + if shown > spec.precision then shown
        else spec.precision;
      |Text(num, spec)| == if spec.width > content then spec.width else content
  {
  }

  lemma ReadUnsigned(num: U64, spec: Spec, zeros: int, trail: int)
    requires IsBase(spec.base)
    ensures var t := PrefixText(num, spec) + Body(Magnitude(num, spec), spec.base, spec.small, zeros, trail);
      t != "" && t[0] !in " -+" && Reading(AfterPrefix(t, spec.base), spec.base, 0) == Magnitude(num, spec)
  {
    var n, base, prefix := Magnitude(num, spec), spec.base, PrefixText(num, spec);
    var body := Body(n, base, spec.small, zeros, trail);
    BodyChars(n, base, spec.small, zeros, trail);
    ReadBody(n, base, spec.small, zeros, trail);
    if prefix == "" {
      assert prefix + body == body;
    } else if base == 16 {
      assert (prefix + body)[2..] == body;
    } else {
      assert prefix == ['0'];
      ReadOne('0', body, base, 0);
      assert base * 0 == 0;
    }
  }

  /** Round trip: under every combination of flags, width and precision the text reads back as the number. */
  lemma TextReadsBack(num: U64, spec: Spec)
    requires IsBase(spec.base)
    ensures Read(Text(num, spec), spec.base) == Meant(num, spec)
  {
    var lead, zeros, trail := TextShape(num, spec);
    var sign := SignText(num, spec);
    var t := PrefixText(num, spec) + Body(Magnitude(num, spec), spec.base, spec.small, zeros, trail);
    ReadUnsigned(num, spec, zeros, trail);
    SkipSpaces(lead, sign + t);
    SignRead(sign, t, spec.base);
  }

  lemma SignRead(sign: string, t: string, base: nat)
    requires sign == "" || sign == " " || sign == "+" || sign == "-"
    requires t != "" && t[0] !in " -+"
    ensures ReadSigned(AfterSpaces(sign + t), base)
         == var r := Reading(AfterPrefix(t, base), base, 0); if sign == "-" then -r else r
  {
    if sign == "" {
      assert sign + t == t;
    } else {
      assert (sign + t)[1..] == t;
    }
  }
}
