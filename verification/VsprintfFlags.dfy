/** What each flag of a number format does to the text, by comparison with the text without it. */
module VsprintfFlags {
  import opened Words
  import opened Vsprintf
  import opened VsprintfNumber

  /** The parts of the text. */
  lemma TextIs(num: U64, spec: Spec) returns (sign: string, prefix: string, digits: string)
    requires IsBase(spec.base)
    ensures sign == SignText(num, spec) && prefix == PrefixText(num, spec)
    ensures digits == DigitText(Magnitude(num, spec), spec.base, spec.small)
    ensures Text(num, spec) == Layout(sign + prefix, digits, spec)
  {
    sign, prefix := SignText(num, spec), PrefixText(num, spec);
    digits := DigitText(Magnitude(num, spec), spec.base, spec.small);
  }

  lemma TextWith(num: U64, spec: Spec, m: U64, sign: string, prefix: string, digits: string)
    requires IsBase(spec.base) && m == Magnitude(num, spec) && sign == SignText(num, spec)
    requires prefix == PrefixText(num, spec) && digits == DigitText(m, spec.base, spec.small)
    ensures Text(num, spec) == Layout(sign + prefix, digits, spec)
  {
  }

  predicate SameButSize(spec: Spec, spec': Spec) {
    spec' == spec.(width := spec'.width, precision := spec'.precision)
  }

  lemma PartsSame(num: U64, spec: Spec, spec': Spec)
    requires SameButSize(spec, spec')
    ensures SignText(num, spec') == SignText(num, spec) && PrefixText(num, spec') == PrefixText(num, spec)
    ensures Magnitude(num, spec') == Magnitude(num, spec)
  {
  }

  /** Width and precision leave the parts as they are. */
  lemma ThreeTexts(num: U64, spec: Spec, spec': Spec, spec'': Spec) returns (head: string, digits: string)
    requires IsBase(spec.base) && SameButSize(spec, spec') && SameButSize(spec, spec'')
    ensures Text(num, spec) == Layout(head, digits, spec) && Text(num, spec') == Layout(head, digits, spec')
    ensures Text(num, spec'') == Layout(head, digits, spec'')
    ensures |head| == |SignText(num, spec)| + |PrefixText(num, spec)|
  {
    var m, sign, prefix := Magnitude(num, spec), SignText(num, spec), PrefixText(num, spec);
    digits := DigitText(m, spec.base, spec.small);
    head := sign + prefix;
    PartsSame(num, spec, spec');
    PartsSame(num, spec, spec'');
    TextWith(num, spec, m, sign, prefix, digits);
    TextWith(num, spec', m, sign, prefix, digits);
    TextWith(num, spec'', m, sign, prefix, digits);
  }

  lemma SameParts(num: U64, spec: Spec, spec': Spec) returns (head: string, digits: string)
    requires IsBase(spec.base) && SameButSize(spec, spec')
    ensures Text(num, spec) == Layout(head, digits, spec) && Text(num, spec') == Layout(head, digits, spec')
    ensures |head| == |SignText(num, spec)| + |PrefixText(num, spec)|
  {
    head, digits := ThreeTexts(num, spec, spec', spec');
  }

  // ---------------------------------------------------------------- field width

  lemma LayoutPads(head: string, digits: string, spec: Spec)
    ensures var c := Layout(head, digits, spec.(width := 0));
      && (spec.left ==> Layout(head, digits, spec) == c + Rep(' ', spec.width - |c|))
      && (!spec.left && !spec.zeropad ==> Layout(head, digits, spec) == Rep(' ', spec.width - |c|) + c)
  {
    var tail := Rep('0', spec.precision - |digits|) + digits;
    var room := spec.width - |head| - |tail|;
    Bare(head, digits, spec.(width := 0));
    assert Rep(' ', room) + head + tail == Rep(' ', room) + (head + tail);
  }

  lemma Bare(head: string, digits: string, spec: Spec)
    requires spec.width <= 0
    ensures Layout(head, digits, spec) == head + (Rep('0', spec.precision - |digits|) + digits)
  {
    var tail := Rep('0', spec.precision - |digits|) + digits;
    var room := spec.width - |head| - |tail|;
    assert Rep(' ', room) == "" && Rep('0', room) == "";
    assert head + tail + "" == head + tail && "" + head + tail == head + tail && head + "" + tail == head + tail;
  }

  /** LEFT and the field width: the text without a width, then spaces. */
  lemma LeftPads(num: U64, spec: Spec)
    requires IsBase(spec.base) && spec.left
    ensures var c := Text(num, spec.(width := 0)); Text(num, spec) == c + Rep(' ', spec.width - |c|)
  {
    var head, digits := SameParts(num, spec, spec.(width := 0));
    LayoutPads(head, digits, spec);
  }

  /** Neither LEFT nor ZEROPAD: spaces, then the text without a width. */
  lemma RightPads(num: U64, spec: Spec)
    requires IsBase(spec.base) && !spec.left && !spec.zeropad
    ensures var c := Text(num, spec.(width := 0)); Text(num, spec) == Rep(' ', spec.width - |c|) + c
  {
    var head, digits := SameParts(num, spec, spec.(width := 0));
    LayoutPads(head, digits, spec);
  }

  lemma LayoutZeros(head: string, digits: string, spec: Spec, wide: Spec)
    requires !spec.left && spec.zeropad && wide == spec.(width := 0, precision := spec.width - |head|)
    requires spec.width - |head| >= |digits| && spec.width - |head| >= spec.precision
    ensures Layout(head, digits, spec) == Layout(head, digits, wide)
  {
    Bare(head, digits, wide);
    var extra := if spec.precision > |digits| then spec.precision - |digits| else 0;
    var room := spec.width - |head| - extra - |digits|;
    assert Rep('0', spec.precision - |digits|) == Rep('0', extra);
    assert Rep('0', room) + Rep('0', extra) == Rep('0', wide.precision - |digits|);
    assert head + Rep('0', room) + (Rep('0', extra) + digits) == head + (Rep('0', room) + Rep('0', extra) + digits);
  }

  /** ZEROPAD without LEFT: what a precision that fills the field would give. */
  lemma ZeroPads(num: U64, spec: Spec, bare: Spec, wide: Spec)
    requires IsBase(spec.base) && !spec.left && spec.zeropad && bare == spec.(width := 0)
    requires wide == bare.(precision := spec.width - |SignText(num, spec)| - |PrefixText(num, spec)|)
    ensures Text(num, spec) == if spec.width <= |Text(num, bare)| then Text(num, bare) else Text(num, wide)
  {
    var head, digits := ThreeTexts(num, spec, bare, wide);
    ZeroTexts(Text(num, spec), Text(num, bare), Text(num, wide), head, digits, spec, bare, wide);
  }

  lemma ZeroTexts(t: string, tb: string, tw: string, head: string, digits: string, spec: Spec, bare: Spec, wide: Spec)
    requires !spec.left && spec.zeropad && bare == spec.(width := 0) && wide == bare.(precision := spec.width - |head|)
    requires t == Layout(head, digits, spec) && tb == Layout(head, digits, bare) && tw == Layout(head, digits, wide)
    ensures t == if spec.width <= |tb| then tb else tw
  {
    ZeroLayout(head, digits, spec);
  }

  lemma ZeroLayout(head: string, digits: string, spec: Spec)
    requires !spec.left && spec.zeropad
    ensures var bare := spec.(width := 0);
      Layout(head, digits, spec) == if spec.width <= |Layout(head, digits, bare)| then Layout(head, digits, bare)
        else Layout(head, digits, bare.(precision := spec.width - |head|))
  {
    var bare := spec.(width := 0);
    Bare(head, digits, bare);
    if spec.width <= |Layout(head, digits, bare)| {
      assert Rep('0', spec.width - |head| - |Rep('0', spec.precision - |digits|) + digits|) == "";
      assert head + "" == head;
    } else {
      LayoutZeros(head, digits, spec, bare.(precision := spec.width - |head|));
    }
  }

  // ---------------------------------------------------------------- precision

  /** Precision: zeros before the digits, behind sign and prefix. */
  lemma PrecisionPads(num: U64, spec: Spec)
    requires IsBase(spec.base) && spec.width <= 0 && !spec.sign && !spec.special
    ensures var d := Text(num, spec.(precision := 0)); Text(num, spec) == Rep('0', spec.precision - |d|) + d
  {
    var head, digits := SameParts(num, spec, spec.(precision := 0));
    PrecisionLayout(head, digits, spec);
  }

  lemma PrecisionLayout(head: string, digits: string, spec: Spec)
    requires |head| == 0 && spec.width <= 0
    ensures var d := Layout(head, digits, spec.(precision := 0));
      Layout(head, digits, spec) == Rep('0', spec.precision - |d|) + d
  {
    Bare(head, digits, spec);
    Bare(head, digits, spec.(precision := 0));
    assert head == "" && Rep('0', 0 - |digits|) == "" && "" + ("" + digits) == digits;
  }

  // ---------------------------------------------------------------- sign and prefix

  lemma FrontLayout(sign: string, prefix: string, digits: string, spec: Spec, spec': Spec)
    requires spec.width <= 0 && spec'.width <= 0 && spec'.precision == spec.precision
    ensures Layout(sign + prefix, digits, spec) == sign + Layout(prefix, digits, spec')
  {
    Bare(sign + prefix, digits, spec);
    Bare(prefix, digits, spec');
    var tail := Rep('0', spec.precision - |digits|) + digits;
    assert sign + prefix + tail == sign + (prefix + tail);
  }

  /** SIGN, PLUS and SPACE: one character in front of the magnitude's text. */
  lemma SignShown(num: U64, spec: Spec)
    requires IsBase(spec.base) && spec.width <= 0
    ensures var plain := spec.(sign := false, plus := false, space := false);
      Text(num, spec) ==
        if !spec.sign then Text(num, plain)
        else if num >= 0x8000_0000_0000_0000 then "-" + Text(0x1_0000_0000_0000_0000 - num, plain)
        else if spec.plus then "+" + Text(num, plain)
        else if spec.space then " " + Text(num, plain)
        else Text(num, plain)
  {
    var plain := spec.(sign := false, plus := false, space := false);
    var m: U64 := if spec.sign && num >= 0x8000_0000_0000_0000 then 0x1_0000_0000_0000_0000 - num else num;
    var sign, prefix, digits := TextIs(num, spec);
    var sign', prefix', digits' := TextIs(m, plain);
    assert sign' == "" && prefix' == prefix && digits' == digits;
    assert sign' + prefix' == prefix;
    FrontLayout(sign, prefix, digits, spec, plain);
    NoFront(Layout(prefix, digits, plain));
  }

  lemma NoFront(t: string)
    ensures "" + t == t
  {
  }

  /** SPECIAL: 0x or 0X before a hexadecimal number, 0 before an octal one other than 0. */
  lemma PrefixShown(num: U64, spec: Spec)
    requires IsBase(spec.base) && spec.width <= 0 && !spec.sign
    ensures var plain := spec.(special := false);
      Text(num, spec) ==
        if spec.special && spec.base == 16 then (if spec.small then "0x" else "0X") + Text(num, plain)
        else if spec.special && spec.base == 8 && num != 0 then "0" + Text(num, plain)
        else Text(num, plain)
  {
    var plain := spec.(special := false);
    var sign, prefix, digits := TextIs(num, spec);
    var sign', prefix', digits' := TextIs(num, plain);
    var none := "";
    assert sign == sign' == prefix' == none && digits' == digits;
    assert none + prefix == prefix + none && none + none == none;
    FrontLayout(prefix, none, digits, spec, plain);
    NoFront(Layout(none, digits, plain));
  }

  // ---------------------------------------------------------------- case

  function Lower(c: char): char {
    if 'A' <= c <= 'Z' then 'a' + (c - 'A') else c
  }

  ghost predicate Lowered(big: string, small: string) {
    |big| == |small| && forall i {:trigger small[i]} {:trigger big[i]} :: 0 <= i < |big| ==>
      small[i] == Lower(big[i]) && !('a' <= big[i] <= 'z')
  }

  lemma LoweredBoth(a: string, b: string, a': string, b': string)
    requires Lowered(a, a') && Lowered(b, b')
    ensures Lowered(a + b, a' + b')
  {
  }

  lemma LoweredRep(c: char, n: int)
    requires c == ' ' || c == '0'
    ensures Lowered(Rep(c, n), Rep(c, n))
  {
  }

  lemma LayoutLower(head: string, digits: string, head': string, digits': string, spec: Spec, spec': Spec)
    requires Lowered(head, head') && Lowered(digits, digits')
    requires spec' == spec.(small := spec'.small)
    ensures Lowered(Layout(head, digits, spec), Layout(head', digits', spec'))
  {
    var zeros := Rep('0', spec.precision - |digits|);
    LoweredRep('0', spec.precision - |digits|);
    LoweredBoth(zeros, digits, zeros, digits');
    var tail, tail' := zeros + digits, zeros + digits';
    var room := spec.width - |head| - |tail|;
    LoweredRep(' ', room);
    LoweredRep('0', room);
    LoweredBoth(head, tail, head', tail');
    if spec.left {
      LoweredBoth(head + tail, Rep(' ', room), head' + tail', Rep(' ', room));
    } else if spec.zeropad {
      LoweredBoth(head, Rep('0', room), head', Rep('0', room));
      LoweredBoth(head + Rep('0', room), tail, head' + Rep('0', room), tail');
    } else {
      LoweredBoth(Rep(' ', room), head, Rep(' ', room), head');
      LoweredBoth(Rep(' ', room) + head, tail, Rep(' ', room) + head', tail');
    }
  }

  lemma DigitsLower(n: nat, base: nat)
    requires 2 <= base <= 16
    ensures Lowered(DigitText(n, base, false), DigitText(n, base, true))
  {
    var ds := Digits(n, base);
    forall i | 0 <= i < |ds|
      ensures Shown(ds[i], true) == Lower(Shown(ds[i], false)) && !('a' <= Shown(ds[i], false) <= 'z')
    {
    }
  }

  lemma HeadLower(num: U64, spec: Spec, spec': Spec)
    requires !spec.small && spec' == spec.(small := true)
    ensures Lowered(SignText(num, spec) + PrefixText(num, spec), SignText(num, spec') + PrefixText(num, spec'))
  {
    var sign, prefix, prefix' := SignText(num, spec), PrefixText(num, spec), PrefixText(num, spec');
    assert SignText(num, spec') == sign && Lowered(sign, sign) && Lowered(prefix, prefix');
    LoweredBoth(sign, prefix, sign, prefix');
  }

  /** SMALL: the same text in small letters. */
  lemma SmallShown(num: U64, spec: Spec, spec': Spec)
    requires IsBase(spec.base) && !spec.small && spec' == spec.(small := true)
    ensures Lowered(Text(num, spec), Text(num, spec'))
  {
    var sign, prefix, digits := TextIs(num, spec);
    var sign', prefix', digits' := TextIs(num, spec');
    HeadLower(num, spec, spec');
    DigitsLower(Magnitude(num, spec), spec.base);
    LayoutLower(sign + prefix, digits, sign' + prefix', digits', spec, spec');
  }

  // ---------------------------------------------------------------- digits

  /** Without sign, prefix, width and precision: the digits alone. */
  lemma PlainText(num: U64, spec: Spec)
    requires IsBase(spec.base) && spec.width <= 0 && spec.precision <= 0 && !spec.sign && !spec.special
    ensures Text(num, spec) == DigitText(num, spec.base, spec.small)
  {
    var sign, prefix, digits := TextIs(num, spec);
    OnlyDigits(sign + prefix, digits, spec);
  }

  lemma OnlyDigits(head: string, digits: string, spec: Spec)
    requires |head| == 0 && spec.width <= 0 && spec.precision <= 0
    ensures Layout(head, digits, spec) == digits
  {
    Bare(head, digits, spec);
    assert head == "" && Rep('0', spec.precision - |digits|) == "";
    NoFront(digits);
  }

  /** Highest first, and in capitals. */
  lemma CapitalDigits(n: nat, base: nat)
    requires 2 <= base <= 16
    ensures var t, ds := DigitText(n, base, false), Digits(n, base);
      |t| == |ds| && forall i :: 0 <= i < |t| ==> t[|t| - 1 - i] == "0123456789ABCDEF"[ds[i]]
  {
    var t, ds := DigitText(n, base, false), Digits(n, base);
    forall i | 0 <= i < |t| ensures t[|t| - 1 - i] == "0123456789ABCDEF"[ds[i]] {
      assert t[|t| - 1 - i] == Chars(ds, false)[i];
    }
  }
}
