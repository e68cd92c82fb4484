/** Conversions of a printf format as they are written, and what they read and render as. */
module PrintfDirective {
  import opened Words
  import opened Digits
  import opened StrConv
  import opened Printf
  import opened PrintfRoundTrip

  datatype Columns = Unset | FromArgument | Number(n: nat)

  datatype Precision = Absent | PrecisionArgument | PrecisionDigits(digits: string)

  /** A conversion as written: flags in any order and number, width, precision, length modifiers. */
  datatype Spec = Spec(flags: string, width: Columns, precision: Precision, modifiers: string, conv: char)

  /** A character that cannot be taken for a part of what comes before it. */
  predicate IsConversion(c: char) {
    !IsFlag(c) && !IsDigit(c, 10) && c != '*' && c != '.' && !IsModifier(c)
  }

  ghost predicate Written(d: Spec) {
    && (forall k :: 0 <= k < |d.flags| ==> IsFlag(d.flags[k]))
    && (d.width.Number? ==> 0 < d.width.n < TWO64)
    && (d.precision.PrecisionDigits? ==> AllDigits(d.precision.digits, 10))
    && (forall k :: 0 <= k < |d.modifiers| ==> IsModifier(d.modifiers[k]))
    && IsConversion(d.conv)
  }

  function WidthText(w: Columns): string
    requires w.Number? ==> w.n > 0
  {
    match w
    case Unset => ""
    case FromArgument => "*"
    case Number(n) => Numeral(n, 10, false)
  }

  function PrecisionText(p: Precision): string {
    match p
    case Absent => ""
    case PrecisionArgument => ".*"
    case PrecisionDigits(digits) => "." + digits
  }

  /** What stands after the percent sign. */
  function Text(d: Spec): string
    requires d.width.Number? ==> d.width.n > 0
  {
    d.flags + WidthText(d.width) + PrecisionText(d.precision) + d.modifiers + [d.conv]
  }

  function FlagsOf(s: string): Flags {
    Flags('-' in s, '0' in s, '+' in s, ' ' in s)
  }

  function WidthOf(w: Columns): Width {
    match w
    case Unset => NoWidth
    case FromArgument => Star
    case Number(n) => Fixed(n)
  }

  function TokenOf(d: Spec): Token {
    Directive(FlagsOf(d.flags), WidthOf(d.width), d.precision.PrecisionArgument?, d.conv)
  }

  // ----- reading each part, from where it starts in the format

  function Union(f: Flags, g: Flags): Flags {
    Flags(f.left || g.left, f.zero || g.zero, f.plus || g.plus, f.space || g.space)
  }

  lemma AddIsUnion(f: Flags, c: char, s: string)
    requires IsFlag(c)
    ensures Union(AddFlag(f, c), FlagsOf(s)) == Union(f, FlagsOf([c] + s))
  {
    assert forall x :: x in [c] + s <==> x == c || x in s;
  }

  lemma {:induction false} FlagsAreRead(fmt: string, i: nat, j: nat, f: Flags)
    requires i <= j < |fmt| && !IsFlag(fmt[j]) && forall k :: i <= k < j ==> IsFlag(fmt[k])
    ensures ReadFlags(fmt, i, f) == (Union(f, FlagsOf(fmt[i..j])), j)
    decreases j - i
  {
    hide AddFlag;
    if i < j {
      FlagsAreRead(fmt, i + 1, j, AddFlag(f, fmt[i]));
      assert fmt[i..j] == [fmt[i]] + fmt[i + 1..j];
      AddIsUnion(f, fmt[i], fmt[i + 1..j]);
    } else {
      assert fmt[i..j] == "";
    }
  }

  lemma WidthIsRead(fmt: string, i: nat, w: Columns)
    requires w.Number? ==> 0 < w.n < TWO64
    requires i + |WidthText(w)| < |fmt| && fmt[i..i + |WidthText(w)|] == WidthText(w)
    requires !w.FromArgument? ==> !IsDigit(fmt[i + |WidthText(w)|], 10)
    requires w.Unset? ==> fmt[i + |WidthText(w)|] != '*'
    ensures ReadWidth(fmt, i) == (WidthOf(w), i + |WidthText(w)|)
  {
    hide Numeral, Value;
    var e := i + |WidthText(w)|;
    match w
    case Unset => DigitsEndIs(fmt, i, i, 10);
    case FromArgument => assert fmt[i] == fmt[i..e][0];
    case Number(n) =>
      var num := Numeral(n, 10, false);
      assert forall k :: i <= k < e ==> fmt[k] == num[k - i];
      DigitsEndIs(fmt, i, e, 10);
      NumeralValue(n, 10, false);
      assert IsDigit(num[0], 10);
  }

  lemma PrecisionIsRead(fmt: string, i: nat, p: Precision)
    requires p.PrecisionDigits? ==> AllDigits(p.digits, 10)
    requires i + |PrecisionText(p)| < |fmt| && fmt[i..i + |PrecisionText(p)|] == PrecisionText(p)
    requires p.PrecisionDigits? ==> var c := fmt[i + |PrecisionText(p)|]; !IsDigit(c, 10) && c != '*'
    requires p.Absent? ==> fmt[i + |PrecisionText(p)|] != '.'
    ensures ReadPrecision(fmt, i) == (p.PrecisionArgument?, i + |PrecisionText(p)|)
  {
    var e, text := i + |PrecisionText(p)|, PrecisionText(p);
    assert forall k :: i <= k < e ==> fmt[k] == text[k - i];
    if p.PrecisionDigits? {
      assert forall k :: i + 1 <= k < e ==> fmt[k] == p.digits[k - i - 1];
      DigitsEndIs(fmt, i + 1, e, 10);
    }
  }

  lemma {:induction false} ModifiersAreRead(fmt: string, i: nat, j: nat)
    requires i <= j < |fmt| && !IsModifier(fmt[j]) && forall k :: i <= k < j ==> IsModifier(fmt[k])
    ensures SkipModifiers(fmt, i) == j
    decreases j - i
  {
    if i < j {
      ModifiersAreRead(fmt, i + 1, j);
    }
  }

  // ----- reading a conversion

  /** The first character after the flags, after the width and after the precision. */
  lemma Boundaries(d: Spec)
    requires Written(d)
    ensures var fmt, i1 := Text(d), |d.flags|;
            var i2 := i1 + |WidthText(d.width)|;
            var i3 := i2 + |PrecisionText(d.precision)|;
            && i3 < |fmt| && !IsFlag(fmt[i1])
            && !IsDigit(fmt[i2], 10) && fmt[i2] != '*'
            && !IsDigit(fmt[i3], 10) && fmt[i3] != '*' && fmt[i3] != '.'
  {
    hide Numeral;
    var w, p := WidthText(d.width), PrecisionText(d.precision);
    var rest := d.modifiers + [d.conv];
    assert Text(d) == d.flags + (w + (p + rest));
    assert !IsFlag(rest[0]) && !IsDigit(rest[0], 10) && rest[0] != '*' && rest[0] != '.';
    assert (p + rest)[0] == if p == "" then rest[0] else '.';
    assert (w + (p + rest))[0] == if w == "" then (p + rest)[0] else w[0];
    if d.width.Number? {
      assert IsDigit(w[0], 10) && w[0] != '0';
    }
  }

  /** Where each part is. */
  lemma Slices(d: Spec)
    requires Written(d)
    ensures var fmt, i1 := Text(d), |d.flags|;
            var i2 := i1 + |WidthText(d.width)|;
            var i3 := i2 + |PrecisionText(d.precision)|;
            var i4 := i3 + |d.modifiers|;
            && |fmt| == i4 + 1 && fmt[0..i1] == d.flags && fmt[i1..i2] == WidthText(d.width)
            && fmt[i2..i3] == PrecisionText(d.precision) && fmt[i4] == d.conv && !IsModifier(fmt[i4])
            && (forall k :: 0 <= k < i1 ==> IsFlag(fmt[k])) && (forall k :: i3 <= k < i4 ==> IsModifier(fmt[k]))
  {
    hide WidthText, PrecisionText, IsFlag, IsModifier;
    assert !IsModifier(d.conv);
    var w, p := WidthText(d.width), PrecisionText(d.precision);
    var i3 := |d.flags| + |w| + |p|;
    assert Text(d) == d.flags + w + p + (d.modifiers + [d.conv]);
    assert forall k :: 0 <= k < |d.modifiers| ==> Text(d)[i3 + k] == d.modifiers[k];
  }

  /** A conversion reads as its parts, up to its conversion character. */
  lemma DirectiveIsRead(d: Spec)
    requires Written(d)
    ensures ReadDirective(Text(d), 0) == Some((TokenOf(d), |Text(d)|))
  {
    hide Text, WidthText, PrecisionText, FlagsOf, WidthOf, ReadFlags, ReadWidth, ReadPrecision, SkipModifiers,
      IsConversion, IsFlag, IsModifier, IsDigit;
    var fmt := Text(d);
    var i1 := |d.flags|;
    var i2 := i1 + |WidthText(d.width)|;
    var i3 := i2 + |PrecisionText(d.precision)|;
    Boundaries(d);
    Slices(d);
    FlagsAreRead(fmt, 0, i1, Flags(false, false, false, false));
    WidthIsRead(fmt, i1, d.width);
    PrecisionIsRead(fmt, i2, d.precision);
    ModifiersAreRead(fmt, i3, i3 + |d.modifiers|);
  }

  /** Nothing but a second percent sign, which with the first one stands for itself. */
  predicate IsPercentSign(d: Spec) {
    d == Spec("", Unset, Absent, "", '%')
  }

  /** Anywhere in a format, a conversion other than that is one token. */
  lemma TokenIsRead(d: Spec, pre: string, post: string)
    requires Written(d) && !IsPercentSign(d)
    ensures ReadToken(pre + ("%" + Text(d)) + post, |pre|) == Some((TokenOf(d), |pre| + 1 + |Text(d)|))
  {
    hide ReadDirective, Text;
    var text := "%" + Text(d);
    DirectiveIsRead(d);
    DirectiveShift("%", Text(d), 0);
    assert text[1] == Text(d)[0];
    assert ReadToken(text, 0) == Some((TokenOf(d), |text|)) by { NotPercent(d); }
    hide ReadToken;
    TokenShift(pre, text, 0);
    TokenExtends(pre + text, post, |pre|);
  }

  lemma FirstOf(a: string, b: string)
    requires b != ""
    ensures a + b != "" && (a + b)[0] == if a == "" then b[0] else a[0]
  {
  }

  lemma NotPercent(d: Spec)
    requires Written(d) && !IsPercentSign(d)
    ensures |Text(d)| > 0 && Text(d)[0] != '%'
  {
    hide WidthText, PrecisionText, IsConversion;
    var w, p := WidthText(d.width), PrecisionText(d.precision);
    FirstOf(d.modifiers, [d.conv]);
    FirstOf(p, d.modifiers + [d.conv]);
    FirstOf(w, p + (d.modifiers + [d.conv]));
    FirstOf(d.flags, w + (p + (d.modifiers + [d.conv])));
    assert Text(d) == d.flags + (w + (p + (d.modifiers + [d.conv])));
    WidthStart(d.width);
    PrecisionStart(d.precision);
  }

  lemma WidthStart(w: Columns)
    requires w.Number? ==> w.n > 0
    ensures if w.Unset? then WidthText(w) == "" else WidthText(w) != "" && WidthText(w)[0] != '%'
  {
    if w.Number? {
      assert IsDigit(WidthText(w)[0], 10);
    }
  }

  lemma PrecisionStart(p: Precision)
    ensures if p.Absent? then PrecisionText(p) == "" else PrecisionText(p) != "" && PrecisionText(p)[0] != '%'
  {
  }

  // ----- rendering a conversion

  /** The columns that a conversion fills, and its argument, when its arguments start with the n-th. */
  function ColumnsIn(d: Spec, env: Env, n: nat): nat {
    match d.width
    case Unset => 0
    case FromArgument => env.arg(n)
    case Number(k) => k
  }

  function ArgumentIn(d: Spec, env: Env, n: nat): U64 {
    env.arg(n + (if d.width.FromArgument? then 1 else 0) + (if d.precision.PrecisionArgument? then 1 else 0))
  }

  /**
   A conversion between a complete format and any other renders with the flags written in it, the width
   and the argument after those that come before, and the rest goes on after it.
   */
  lemma DirectiveRenders(pre: string, d: Spec, post: string, env: Env, n: nat)
    requires Complete(pre, 0) && Written(d) && !IsPercentSign(d)
    ensures var m := n + Uses(pre);
            Formatted(pre + ("%" + Text(d)) + post, env, n) ==
            Formatted(pre, env, n)
            + Convert(d.conv, FlagsOf(d.flags), ColumnsIn(d, env, m), ArgumentIn(d, env, m), env.text)
            + Formatted(post, env, m + Takes(TokenOf(d)))
  {
    hide Convert, Text, Complete, Uses, Formatted, FlagsOf;
    var one := "%" + Text(d);
    OneToken(d, env, n + Uses(pre));
    RenderingComposes(pre, one, env, n);
    JoinsComplete(pre, one);
    RenderingComposes(pre + one, post, env, n);
  }

  lemma OneToken(d: Spec, env: Env, n: nat)
    requires Written(d) && !IsPercentSign(d)
    ensures var one := "%" + Text(d);
            && Complete(one, 0) && Uses(one) == Takes(TokenOf(d))
            && Formatted(one, env, n) ==
               Convert(d.conv, FlagsOf(d.flags), ColumnsIn(d, env, n), ArgumentIn(d, env, n), env.text)
  {
    hide Convert, Text, ReadToken, FlagsOf;
    var one := "%" + Text(d);
    TokenIsRead(d, "", "");
    assert "" + one + "" == one;
    assert Tokens(one, 0) == [TokenOf(d)];
    OneRenders(TokenOf(d), env, n);
  }

  lemma OneRenders(t: Token, env: Env, n: nat)
    ensures RenderAll([t], env, n) == Render(t, env, n) && TakesAll([t]) == Takes(t)
  {
    hide Render;
    var one := [t];
    assert one[1..] == [];
  }

  lemma JoinsComplete(a: string, b: string)
    requires Complete(a, 0) && Complete(b, 0)
    ensures Complete(a + b, 0)
  {
    hide Complete;
    TokensShift(a, b, 0);
    CompleteFrom(a, b, 0);
  }

  lemma {:induction false} CompleteFrom(a: string, b: string, i: nat)
    requires i <= |a| && Complete(a, i) && Complete(a + b, |a|)
    ensures Complete(a + b, i)
    decreases |a| - i
  {
    hide ReadToken;
    if i < |a| {
      TokenExtends(a, b, i);
      CompleteFrom(a, b, ReadToken(a, i).value.1);
    }
  }

  // ----- what the conversions of text render

  /** The text with blanks on one side, up to the width in bytes. */
  ghost predicate Padded(s: string, width: nat, left: bool, r: string) {
    && ByteLen(r) == (if width <= ByteLen(s) then ByteLen(s) else width)
    && exists k: nat :: r == if left then s + Repeat(' ', k) else Repeat(' ', k) + s
  }

  lemma PadIsPadded(s: string, width: nat, left: bool)
    ensures Padded(s, width, left, Pad(s, width, left, false))
  {
    hide ByteLen;
    PadShape(s, width, left, false);
    var k: nat := if width <= ByteLen(s) then 0 else width - ByteLen(s);
    assert s + Repeat(' ', 0) == s && Repeat(' ', 0) + s == s;
    assert Pad(s, width, left, false) == if left then s + Repeat(' ', k) else Repeat(' ', k) + s;
  }

  /**
   `%s` renders the string at its argument, or `(null)`; `%c` one ASCII character, or a question mark;
   any character that is no conversion renders as itself after a percent sign, whatever the width.
   */
  lemma TextConversions(conv: char, f: Flags, width: nat, val: U64, text: U64 -> string)
    ensures conv == 's' ==>
              Padded(if val == 0 then "(null)" else text(val), width, f.left, Convert(conv, f, width, val, text))
    ensures conv == 'c' && 0 < val < 128 ==> Padded([val as char], width, f.left, Convert(conv, f, width, val, text))
    ensures conv == 'c' && !(0 < val < 128) ==> Padded("?", width, f.left, Convert(conv, f, width, val, text))
    ensures conv !in "diuxXoscp" ==> Convert(conv, f, width, val, text) == ['%', conv]
  {
    hide Pad, Numeral, Padded;
    if conv == 's' {
      PadIsPadded(if val == 0 then "(null)" else text(val), width, f.left);
    } else if conv == 'c' {
      PadIsPadded(if 0 < val < 128 then [val as char] else "?", width, f.left);
    }
  }

  /** A numeric conversion as written reads back its argument, unless the `0` flag fills before a sign or blank. */
  lemma WrittenRoundTrip(d: Spec, env: Env, n: nat)
    requires Written(d) && Numeric(d.conv)
    ensures var out, val := Formatted("%" + Text(d), env, n), ArgumentIn(d, env, n);
            var s := BodyOf(d.conv, FlagsOf(d.flags), val).Text();
            Parse(out, BaseOf(d.conv)) == (val, if '-' in d.flags then |s| else |out|) <==>
            !('0' in d.flags && '-' !in d.flags && d.conv in "dixXo"
              && ColumnsIn(d, env, n) > |s| && SignOrBlank(s[0]))
  {
    hide Parse, Convert, BodyOf, Body.Text, Text, Formatted;
    OneToken(d, env, n);
    var f, val := FlagsOf(d.flags), ArgumentIn(d, env, n);
    RoundTrip(d.conv, f, ColumnsIn(d, env, n), val, env.text);
    BodyHead(d.conv, f, val);
  }
}
