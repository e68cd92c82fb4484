/**
 The C printf renderer of `api/printf.rs`. The variadic arguments and the guest strings they point to
 are parameters: `arg(n)` is the n-th argument and `text(p)` the string at p.
 */
module Printf {
  import opened Words
  import opened Digits
  import opened StrConv

  datatype Env = Env(arg: nat -> U64, text: U64 -> string)

  datatype Flags = Flags(left: bool, zero: bool, plus: bool, space: bool)

  datatype Width = NoWidth | Star | Fixed(columns: nat)

  /** A literal character or a conversion; a precision only matters for the argument it takes. */
  datatype Token =
    | Literal(c: char)
    | Directive(flags: Flags, width: Width, starPrecision: bool, conv: char)

  // ----- padding and conversions

  function CharBytes(c: char): nat {
    if c as int < 0x80 then 1 else if c as int < 0x800 then 2 else if c as int < 0x10000 then 3 else 4
  }

  function Power2(n: nat): nat {
    if n == 0 then 1 else 2 * Power2(n - 1)
  }

  /** One UTF-8 byte carries 7 bits of a character, and n bytes carry 5n + 1; a character takes as few as hold it. */
  lemma CharBytesAreFew(c: char, n: nat)
    requires 1 <= n <= 4
    ensures CharBytes(c) <= n <==> c as int < Power2(if n == 1 then 7 else 5 * n + 1)
  {
    assert Power2(5) == 32 && Power2(7) == 128;
    assert Power2(9) == 512 && Power2(11) == 2048;
    assert Power2(13) == 8192 && Power2(16) == 65536;
    assert Power2(18) == 262144 && Power2(21) == 2097152;
  }

  /** Length in UTF-8 bytes, which is what the width is compared with. */
  function ByteLen(s: string): (n: nat)
    ensures |s| <= n
  {
    if s == "" then 0 else CharBytes(s[0]) + ByteLen(s[1..])
  }

  function Repeat(c: char, n: nat): (s: string)
    ensures |s| == n && forall k :: 0 <= k < n ==> s[k] == c
  {
    seq(n, _ => c)
  }

  function Pad(s: string, width: nat, left: bool, zero: bool): string {
    if width <= ByteLen(s) then s
    else if left then s + Repeat(' ', width - ByteLen(s))
    else Repeat(if zero then '0' else ' ', width - ByteLen(s)) + s
  }

  lemma {:induction false} ByteLenAppend(a: string, b: string)
    ensures ByteLen(a + b) == ByteLen(a) + ByteLen(b)
    decreases |a|
  {
    if a == "" {
      assert a + b == b;
    } else {
      assert (a + b)[1..] == a[1..] + b;
      ByteLenAppend(a[1..], b);
    }
  }

  lemma {:induction false} RepeatLength(c: char, n: nat)
    requires c as int < 0x80
    ensures ByteLen(Repeat(c, n)) == n
    decreases n
  {
    if n > 0 {
      assert Repeat(c, n)[1..] == Repeat(c, n - 1);
      RepeatLength(c, n - 1);
    }
  }

  /** Padding fills up to the width, in bytes, on the side away from the text, and never cuts it. */
  lemma PadShape(s: string, width: nat, left: bool, zero: bool)
    ensures var t := Pad(s, width, left, zero);
            && ByteLen(t) == (if width <= ByteLen(s) then ByteLen(s) else width)
            && |s| <= |t|
            && (if left then t[..|s|] == s else t[|t| - |s|..] == s)
            && (var fill := if left then t[|s|..] else t[..|t| - |s|];
                forall k :: 0 <= k < |fill| ==> fill[k] == if zero && !left then '0' else ' ')
  {
    hide ByteLen;
    if width > ByteLen(s) {
      var fill := Repeat(if zero && !left then '0' else ' ', width - ByteLen(s));
      RepeatLength(if zero && !left then '0' else ' ', width - ByteLen(s));
      if left {
        ByteLenAppend(s, fill);
      } else {
        ByteLenAppend(fill, s);
      }
    }
  }

  function Signed(v: U64, f: Flags): string {
    if v >= TWO64 / 2 then "-" + Numeral(TWO64 - v, 10, false)
    else (if f.plus then "+" else if f.space then " " else "") + Numeral(v, 10, false)
  }

  function Convert(conv: char, f: Flags, width: nat, val: U64, text: U64 -> string): string {
    match conv
    case 'd' => Pad(Signed(val, f), width, f.left, f.zero)
    case 'i' => Pad(Signed(val, f), width, f.left, f.zero)
    case 'u' => Pad(Numeral(val, 10, false), width, f.left, false)
    case 'x' => Pad(Numeral(val, 16, false), width, f.left, f.zero)
    case 'X' => Pad(Numeral(val, 16, true), width, f.left, f.zero)
    case 'o' => Pad(Numeral(val, 8, false), width, f.left, f.zero)
    case 's' => Pad(if val != 0 then text(val) else "(null)", width, f.left, false)
    case 'c' => Pad([if 0 < val < 128 then val as char else '?'], width, f.left, false)
    case 'p' => Pad("0x" + Numeral(val, 16, false), width, f.left, false)
    case _ => "%" + [conv]
  }

  // ----- reading a directive

  predicate IsFlag(c: char) {
    c == '-' || c == '0' || c == '+' || c == ' ' || c == '#'
  }

  function AddFlag(f: Flags, c: char): Flags {
    match c
    case '-' => f.(left := true)
    case '0' => f.(zero := true)
    case '+' => f.(plus := true)
    case ' ' => f.(space := true)
    case _ => f
  }

  function ReadFlags(fmt: string, i: nat, f: Flags): (r: (Flags, nat))
    requires i <= |fmt|
    ensures i <= r.1 <= |fmt|
    decreases |fmt| - i
  {
    if i < |fmt| && IsFlag(fmt[i]) then ReadFlags(fmt, i + 1, AddFlag(f, fmt[i])) else (f, i)
  }

  /** Digits that do not fit in 64 bits count as no width. */
  function ReadWidth(fmt: string, i: nat): (r: (Width, nat))
    requires i <= |fmt|
    ensures i <= r.1 <= |fmt|
  {
    if i < |fmt| && fmt[i] == '*' then (Star, i + 1)
    else
      var e := DigitsEnd(fmt, i, 10);
      assert forall k :: 0 <= k < e - i ==> fmt[i..e][k] == fmt[i + k];
      if e > i && Value(fmt[i..e], 10) < TWO64 then (Fixed(Value(fmt[i..e], 10)), e) else (NoWidth, e)
  }

  function ReadPrecision(fmt: string, i: nat): (r: (bool, nat))
    requires i <= |fmt|
    ensures i <= r.1 <= |fmt|
  {
    if i < |fmt| && fmt[i] == '.' then
      if i + 1 < |fmt| && fmt[i + 1] == '*' then (true, i + 2) else (false, DigitsEnd(fmt, i + 1, 10))
    else (false, i)
  }

  predicate IsModifier(c: char) {
    c in "lhjztq"
  }

  function SkipModifiers(fmt: string, i: nat): (j: nat)
    requires i <= |fmt|
    ensures i <= j <= |fmt|
    decreases |fmt| - i
  {
    if i < |fmt| && IsModifier(fmt[i]) then SkipModifiers(fmt, i + 1) else i
  }

  /** The directive whose text starts at i, after its `%`; none if the format ends first. */
  function ReadDirective(fmt: string, i: nat): (r: Option<(Token, nat)>)
    requires i <= |fmt|
    ensures r.Some? ==> i < r.value.1 <= |fmt|
  {
    var (f, i1) := ReadFlags(fmt, i, Flags(false, false, false, false));
    var (w, i2) := ReadWidth(fmt, i1);
    var (star, i3) := ReadPrecision(fmt, i2);
    var i4 := SkipModifiers(fmt, i3);
    if i4 < |fmt| then Some((Directive(f, w, star, fmt[i4]), i4 + 1)) else None
  }

  /** The token at i and the position after it; none if the format breaks off inside it. */
  function ReadToken(fmt: string, i: nat): (r: Option<(Token, nat)>)
    requires i < |fmt|
    ensures r.Some? ==> i < r.value.1 <= |fmt|
  {
    if fmt[i] != '%' then Some((Literal(fmt[i]), i + 1))
    else if i + 1 == |fmt| then None
    else if fmt[i + 1] == '%' then Some((Literal('%'), i + 2))
    else ReadDirective(fmt, i + 1)
  }

  /** The tokens from i on, up to the end or to a directive that breaks off. */
  function Tokens(fmt: string, i: nat): seq<Token>
    requires i <= |fmt|
    decreases |fmt| - i
  {
    if i == |fmt| then []
    else
      match ReadToken(fmt, i)
      case None => []
      case Some((t, next)) => [t] + Tokens(fmt, next)
  }

  /** The format from i on does not break off inside a directive. */
  predicate Complete(fmt: string, i: nat)
    requires i <= |fmt|
    decreases |fmt| - i
  {
    i == |fmt| || (ReadToken(fmt, i).Some? && Complete(fmt, ReadToken(fmt, i).value.1))
  }

  // ----- rendering

  /** Arguments that a token takes. */
  function Takes(t: Token): nat {
    if t.Literal? then 0 else (if t.width.Star? then 1 else 0) + (if t.starPrecision then 1 else 0) + 1
  }

  /** A token rendered with its arguments from the n-th on. */
  function Render(t: Token, env: Env, n: nat): string {
    match t
    case Literal(c) => [c]
    case Directive(flags, width, _, conv) =>
      var columns := match width case NoWidth => 0 case Star => env.arg(n) case Fixed(w) => w;
      Convert(conv, flags, columns, env.arg(n + Takes(t) - 1), env.text)
  }

  function TakesAll(ts: seq<Token>): nat {
    if ts == [] then 0 else Takes(ts[0]) + TakesAll(ts[1..])
  }

  function RenderAll(ts: seq<Token>, env: Env, n: nat): string
    decreases |ts|
  {
    if ts == [] then "" else Render(ts[0], env, n) + RenderAll(ts[1..], env, n + Takes(ts[0]))
  }

  /** The output of a format with the arguments from the n-th on. */
  function Formatted(fmt: string, env: Env, n: nat): string {
    RenderAll(Tokens(fmt, 0), env, n)
  }

  /** Arguments that a format takes. */
  function Uses(fmt: string): nat {
    TakesAll(Tokens(fmt, 0))
  }

  // ----- composition

  lemma {:induction false} RenderAppends(x: seq<Token>, y: seq<Token>, env: Env, n: nat)
    ensures RenderAll(x + y, env, n) == RenderAll(x, env, n) + RenderAll(y, env, n + TakesAll(x))
    ensures TakesAll(x + y) == TakesAll(x) + TakesAll(y)
    decreases |x|
  {
    hide Render;
    if x == [] {
      assert x + y == y;
    } else {
      var all, m := x + y, n + Takes(x[0]);
      assert all[0] == x[0] && all[1..] == x[1..] + y;
      RenderAppends(x[1..], y, env, m);
      var first, rest, after := Render(x[0], env, n), RenderAll(x[1..], env, m), RenderAll(y, env, n + TakesAll(x));
      assert RenderAll(all, env, n) == first + RenderAll(all[1..], env, m);
      assert first + (rest + after) == (first + rest) + after;
    }
  }

  lemma {:induction false} FlagsExtend(a: string, b: string, i: nat, f: Flags)
    requires i <= |a| && ReadFlags(a, i, f).1 < |a|
    ensures ReadFlags(a + b, i, f) == ReadFlags(a, i, f)
    decreases |a| - i
  {
    assert i < |a| ==> (a + b)[i] == a[i];
    if i < |a| && IsFlag(a[i]) {
      FlagsExtend(a, b, i + 1, AddFlag(f, a[i]));
    }
  }

  lemma DigitsExtend(a: string, b: string, i: nat)
    requires i <= |a| && DigitsEnd(a, i, 10) < |a|
    ensures DigitsEnd(a + b, i, 10) == DigitsEnd(a, i, 10)
  {
    var e := DigitsEnd(a, i, 10);
    assert forall k :: 0 <= k < |a| ==> (a + b)[k] == a[k];
    DigitsEndIs(a + b, i, e, 10);
  }

  lemma {:induction false} ModifiersExtend(a: string, b: string, i: nat)
    requires i <= |a| && SkipModifiers(a, i) < |a|
    ensures SkipModifiers(a + b, i) == SkipModifiers(a, i)
    decreases |a| - i
  {
    assert i < |a| ==> (a + b)[i] == a[i];
    if i < |a| && IsModifier(a[i]) {
      ModifiersExtend(a, b, i + 1);
    }
  }

  lemma WidthExtends(a: string, b: string, i: nat)
    requires i <= |a| && ReadWidth(a, i).1 < |a|
    ensures ReadWidth(a + b, i) == ReadWidth(a, i)
  {
    assert i < |a| ==> (a + b)[i] == a[i];
    if !(i < |a| && a[i] == '*') {
      DigitsExtend(a, b, i);
      var e := DigitsEnd(a, i, 10);
      assert (a + b)[i..e] == a[i..e];
    }
  }

  lemma PrecisionExtends(a: string, b: string, i: nat)
    requires i <= |a| && ReadPrecision(a, i).1 < |a|
    ensures ReadPrecision(a + b, i) == ReadPrecision(a, i)
  {
    assert forall k :: 0 <= k < |a| ==> (a + b)[k] == a[k];
    if i < |a| && a[i] == '.' && !(i + 1 < |a| && a[i + 1] == '*') {
      DigitsExtend(a, b, i + 1);
    }
  }

  /** A directive complete in `a` reads the same when text follows. */
  lemma DirectiveExtends(a: string, b: string, i: nat)
    requires i <= |a| && ReadDirective(a, i).Some?
    ensures ReadDirective(a + b, i) == ReadDirective(a, i)
  {
    hide ReadFlags, ReadWidth, ReadPrecision, SkipModifiers;
    var none := Flags(false, false, false, false);
    var (f, i1) := ReadFlags(a, i, none);
    FlagsExtend(a, b, i, none);
    WidthExtends(a, b, i1);
    PrecisionExtends(a, b, ReadWidth(a, i1).1);
    var i3 := ReadPrecision(a, ReadWidth(a, i1).1).1;
    ModifiersExtend(a, b, i3);
    assert (a + b)[SkipModifiers(a, i3)] == a[SkipModifiers(a, i3)];
  }

  lemma {:induction false} TokensExtend(a: string, b: string, i: nat)
    requires i <= |a| && Complete(a, i)
    ensures Tokens(a + b, i) == Tokens(a, i) + Tokens(a + b, |a|)
    decreases |a| - i
  {
    hide ReadToken;
    if i < |a| {
      TokenExtends(a, b, i);
      TokensExtend(a, b, ReadToken(a, i).value.1);
    }
  }

  lemma TokenExtends(a: string, b: string, i: nat)
    requires i < |a| && ReadToken(a, i).Some?
    ensures ReadToken(a + b, i) == ReadToken(a, i)
  {
    hide ReadDirective;
    assert (a + b)[i] == a[i] && (i + 1 < |a| ==> (a + b)[i + 1] == a[i + 1]);
    if a[i] == '%' && a[i + 1] != '%' {
      DirectiveExtends(a, b, i + 1);
    }
  }

  lemma {:induction false} FlagsShift(a: string, b: string, i: nat, f: Flags)
    requires i <= |b|
    ensures var r := ReadFlags(b, i, f); ReadFlags(a + b, |a| + i, f) == (r.0, |a| + r.1)
    decreases |b| - i
  {
    if i < |b| && IsFlag(b[i]) {
      FlagsShift(a, b, i + 1, AddFlag(f, b[i]));
    }
  }

  lemma DigitsShift(a: string, b: string, i: nat)
    requires i <= |b|
    ensures DigitsEnd(a + b, |a| + i, 10) == |a| + DigitsEnd(b, i, 10)
  {
    var e := DigitsEnd(b, i, 10);
    assert forall k :: |a| + i <= k < |a| + |b| ==> (a + b)[k] == b[k - |a|];
    DigitsEndIs(a + b, |a| + i, |a| + e, 10);
  }

  lemma {:induction false} ModifiersShift(a: string, b: string, i: nat)
    requires i <= |b|
    ensures SkipModifiers(a + b, |a| + i) == |a| + SkipModifiers(b, i)
    decreases |b| - i
  {
    if i < |b| && IsModifier(b[i]) {
      ModifiersShift(a, b, i + 1);
    }
  }

  lemma WidthShift(a: string, b: string, i: nat)
    requires i <= |b|
    ensures var r := ReadWidth(b, i); ReadWidth(a + b, |a| + i) == (r.0, |a| + r.1)
  {
    DigitsShift(a, b, i);
    var e := DigitsEnd(b, i, 10);
    assert (a + b)[|a| + i..|a| + e] == b[i..e];
  }

  lemma PrecisionShift(a: string, b: string, i: nat)
    requires i <= |b|
    ensures var r := ReadPrecision(b, i); ReadPrecision(a + b, |a| + i) == (r.0, |a| + r.1)
  {
    if i < |b| {
      DigitsShift(a, b, i + 1);
    }
  }

  lemma DirectiveShift(a: string, b: string, i: nat)
    requires i <= |b|
    ensures var r := ReadDirective(b, i);
            ReadDirective(a + b, |a| + i) == if r.Some? then Some((r.value.0, |a| + r.value.1)) else None
  {
    hide ReadFlags, ReadWidth, ReadPrecision, SkipModifiers;
    var none := Flags(false, false, false, false);
    var (f, i1) := ReadFlags(b, i, none);
    FlagsShift(a, b, i, none);
    WidthShift(a, b, i1);
    var i2 := ReadWidth(b, i1).1;
    PrecisionShift(a, b, i2);
    ModifiersShift(a, b, ReadPrecision(b, i2).1);
  }

  lemma TokenShift(a: string, b: string, i: nat)
    requires i < |b|
    ensures var r := ReadToken(b, i);
            ReadToken(a + b, |a| + i) == if r.Some? then Some((r.value.0, |a| + r.value.1)) else None
  {
    hide ReadDirective;
    if i + 1 < |b| {
      DirectiveShift(a, b, i + 1);
    }
  }

  lemma {:induction false} TokensShift(a: string, b: string, i: nat)
    requires i <= |b|
    ensures Tokens(a + b, |a| + i) == Tokens(b, i)
    ensures Complete(a + b, |a| + i) <==> Complete(b, i)
    decreases |b| - i
  {
    hide ReadToken;
    if i < |b| {
      TokenShift(a, b, i);
      var r := ReadToken(b, i);
      if r.Some? {
        TokensShift(a, b, r.value.1);
      }
    }
  }

  /** If `a` breaks off inside no directive, then a + b renders as a, then b with the arguments left over. */
  lemma RenderingComposes(a: string, b: string, env: Env, n: nat)
    requires Complete(a, 0)
    ensures Formatted(a + b, env, n) == Formatted(a, env, n) + Formatted(b, env, n + Uses(a))
    ensures Uses(a + b) == Uses(a) + Uses(b)
  {
    hide Tokens, Complete, RenderAll, TakesAll;
    TokensExtend(a, b, 0);
    TokensShift(a, b, 0);
    RenderAppends(Tokens(a, 0), Tokens(b, 0), env, n);
  }

  /** Token k takes its arguments right after those of the tokens before it. */
  lemma TokenArguments(ts: seq<Token>, k: nat, env: Env, n: nat)
    requires k < |ts|
    ensures var m := n + TakesAll(ts[..k]);
            && RenderAll(ts, env, n) ==
               RenderAll(ts[..k], env, n) + (Render(ts[k], env, m) + RenderAll(ts[k + 1..], env, m + Takes(ts[k])))
            && TakesAll(ts) == TakesAll(ts[..k]) + (Takes(ts[k]) + TakesAll(ts[k + 1..]))
  {
    hide Render;
    assert ts == ts[..k] + ts[k..];
    RenderAppends(ts[..k], ts[k..], env, n);
    assert ts[k..][0] == ts[k] && ts[k..][1..] == ts[k + 1..];
  }

  function ArgAt(env: Env, n: nat, k: nat): U64 {
    env.arg(n + k)
  }

  lemma TokenSame(t: Token, env: Env, n: nat, env': Env, n': nat)
    requires env.text == env'.text
    requires forall k: nat :: k < Takes(t) ==> ArgAt(env, n, k) == ArgAt(env', n', k)
    ensures Render(t, env, n) == Render(t, env', n')
  {
    hide Convert;
    if t.Directive? {
      assert ArgAt(env, n, 0) == ArgAt(env', n', 0);
      assert ArgAt(env, n, Takes(t) - 1) == ArgAt(env', n', Takes(t) - 1);
    }
  }

  /** Only the arguments from n up to n + TakesAll matter, and tokens take them from the front. */
  lemma {:induction false} ArgumentsInOrder(ts: seq<Token>, env: Env, n: nat, env': Env, n': nat)
    requires env.text == env'.text
    requires forall k: nat :: k < TakesAll(ts) ==> ArgAt(env, n, k) == ArgAt(env', n', k)
    ensures RenderAll(ts, env, n) == RenderAll(ts, env', n')
    decreases |ts|
  {
    hide Render, Takes;
    if ts != [] {
      var t := ts[0];
      assert TakesAll(ts) == Takes(t) + TakesAll(ts[1..]);
      TokenSame(t, env, n, env', n');
      var m, m' := n + Takes(t), n' + Takes(t);
      forall k: nat | k < TakesAll(ts[1..]) ensures ArgAt(env, m, k) == ArgAt(env', m', k) {
        assert ArgAt(env, n, Takes(t) + k) == ArgAt(env', n', Takes(t) + k);
      }
      ArgumentsInOrder(ts[1..], env, m, env', m');
    }
  }

  /** A text with every `%` doubled. */
  function Escaped(t: string): string {
    if t == "" then "" else (if t[0] == '%' then "%%" else [t[0]]) + Escaped(t[1..])
  }

  /** An escaped text renders as the text and takes no argument. */
  lemma {:induction false} EscapedRendersItself(t: string, env: Env, n: nat)
    ensures Complete(Escaped(t), 0) && Uses(Escaped(t)) == 0
    ensures Formatted(Escaped(t), env, n) == t
    decreases |t|
  {
    hide ReadToken, Tokens, Complete, RenderAll;
    if t == "" {
      EmptyFormat(env, n);
    } else {
      var head := if t[0] == '%' then "%%" else [t[0]];
      EscapedRendersItself(t[1..], env, n);
      LiteralFirst(t[0], head, Escaped(t[1..]), env, n);
      assert t == [t[0]] + t[1..];
    }
  }

  lemma EmptyFormat(env: Env, n: nat)
    ensures Complete("", 0) && Uses("") == 0 && Formatted("", env, n) == ""
  {
  }

  /** A literal character, doubled if it is a percent sign, renders as itself before the rest. */
  lemma LiteralFirst(c: char, head: string, rest: string, env: Env, n: nat)
    requires head == if c == '%' then "%%" else [c]
    ensures Complete(head + rest, 0) <==> Complete(rest, 0)
    ensures Uses(head + rest) == Uses(rest)
    ensures Formatted(head + rest, env, n) == [c] + Formatted(rest, env, n)
  {
    hide RenderAll, ReadDirective;
    assert ReadToken(head + rest, 0) == Some((Literal(c), |head|));
    hide ReadToken;
    TokensShift(head, rest, 0);
    assert Tokens(head + rest, 0) == [Literal(c)] + Tokens(rest, 0);
    LiteralRenders(c, env, n);
    RenderAppends([Literal(c)], Tokens(rest, 0), env, n);
  }

  lemma LiteralRenders(c: char, env: Env, n: nat)
    ensures RenderAll([Literal(c)], env, n) == [c] && TakesAll([Literal(c)]) == 0
  {
    var one := [Literal(c)];
    assert one[1..] == [];
  }

  // ----- the loops of the source

  method ScanFlags(fmt: string, i: nat) returns (f: Flags, j: nat)
    requires i <= |fmt|
    ensures (f, j) == ReadFlags(fmt, i, Flags(false, false, false, false))
  {
    f, j := Flags(false, false, false, false), i;
    while j < |fmt| && IsFlag(fmt[j])
      invariant i <= j <= |fmt|
      invariant ReadFlags(fmt, j, f) == ReadFlags(fmt, i, Flags(false, false, false, false))
    {
      f, j := AddFlag(f, fmt[j]), j + 1;
    }
  }

  method ScanDigits(fmt: string, i: nat) returns (j: nat)
    requires i <= |fmt|
    ensures j == DigitsEnd(fmt, i, 10)
  {
    j := i;
    while j < |fmt| && '0' <= fmt[j] <= '9'
      invariant i <= j <= |fmt| && DigitsEnd(fmt, j, 10) == DigitsEnd(fmt, i, 10)
    {
      j := j + 1;
    }
  }

  method ScanModifiers(fmt: string, i: nat) returns (j: nat)
    requires i <= |fmt|
    ensures j == SkipModifiers(fmt, i)
  {
    j := i;
    while j < |fmt| && IsModifier(fmt[j])
      invariant i <= j <= |fmt| && SkipModifiers(fmt, j) == SkipModifiers(fmt, i)
    {
      j := j + 1;
    }
  }

  method ScanWidth(fmt: string, i: nat) returns (width: Width, j: nat)
    requires i <= |fmt|
    ensures (width, j) == ReadWidth(fmt, i)
  {
    if i < |fmt| && fmt[i] == '*' {
      return Star, i + 1;
    }
    j := ScanDigits(fmt, i);
    assert forall k :: 0 <= k < j - i ==> fmt[i..j][k] == fmt[i + k];
    width := if j > i && Value(fmt[i..j], 10) < TWO64 then Fixed(Value(fmt[i..j], 10)) else NoWidth;
  }

  method ScanPrecision(fmt: string, i: nat) returns (star: bool, j: nat)
    requires i <= |fmt|
    ensures (star, j) == ReadPrecision(fmt, i)
  {
    star, j := false, i;
    if i < |fmt| && fmt[i] == '.' {
      if i + 1 < |fmt| && fmt[i + 1] == '*' {
        star, j := true, i + 2;
      } else {
        j := ScanDigits(fmt, i + 1);
      }
    }
  }

  method ScanDirective(fmt: string, i: nat) returns (r: Option<(Token, nat)>)
    requires i <= |fmt|
    ensures r == ReadDirective(fmt, i)
  {
    hide ReadFlags, ReadWidth, ReadPrecision, SkipModifiers;
    var flags, i1 := ScanFlags(fmt, i);
    var width, i2 := ScanWidth(fmt, i1);
    var star, i3 := ScanPrecision(fmt, i2);
    var i4 := ScanModifiers(fmt, i3);
    r := if i4 < |fmt| then Some((Directive(flags, width, star, fmt[i4]), i4 + 1)) else None;
  }

  lemma Emit(fmt: string, i: nat, env: Env, n: nat, out: string)
    requires i < |fmt| && ReadToken(fmt, i).Some?
    ensures var (t, next) := ReadToken(fmt, i).value;
            out + RenderAll(Tokens(fmt, i), env, n)
            == (out + Render(t, env, n)) + RenderAll(Tokens(fmt, next), env, n + Takes(t))
  {
    hide ReadToken, Render;
    var (t, next) := ReadToken(fmt, i).value;
    assert Tokens(fmt, i) == [t] + Tokens(fmt, next);
  }

  /** One turn of the loop: what it appends and where it goes on, or that the format breaks off. */
  method Turn(fmt: string, i: nat, env: Env, n: nat) returns (stop: bool, piece: string, i': nat, n': nat)
    requires i < |fmt|
    ensures stop == ReadToken(fmt, i).None?
    ensures !stop ==>
              var (t, next) := ReadToken(fmt, i).value; (piece, i', n') == (Render(t, env, n), next, n + Takes(t))
  {
    hide ReadDirective, Convert;
    stop, piece, i', n' := false, "", i, n;
    if fmt[i] != '%' {
      piece, i' := [fmt[i]], i + 1;
    } else if i + 1 >= |fmt| {
      stop := true;
    } else if fmt[i + 1] == '%' {
      piece, i' := "%", i + 2;
    } else {
      var r := ScanDirective(fmt, i + 1);
      if r.None? {
        stop := true;
      } else {
        var t := r.value.0;
        DirectiveIsDirective(fmt, i + 1);
        var columns := match t.width case NoWidth => 0 case Star => env.arg(n) case Fixed(w) => w;
        piece := Convert(t.conv, t.flags, columns, env.arg(n + Takes(t) - 1), env.text);
        i', n' := r.value.1, n + Takes(t);
      }
    }
  }

  lemma DirectiveIsDirective(fmt: string, i: nat)
    requires i <= |fmt| && ReadDirective(fmt, i).Some?
    ensures ReadDirective(fmt, i).value.0.Directive?
  {
  }

  /** Renders a format, reading the arguments from the first on. */
  method FormatText(fmt: string, env: Env) returns (out: string)
    ensures out == Formatted(fmt, env, 0)
  {
    hide ReadToken, Render, Tokens, RenderAll;
    out := "";
    var n: nat, i: nat := 0, 0;
    ghost var goal := Formatted(fmt, env, 0);
    assert "" + goal == goal;
    while i < |fmt|
      invariant 0 <= i <= |fmt|
      invariant out + RenderAll(Tokens(fmt, i), env, n) == goal
    {
      var stop, piece, i', n' := Turn(fmt, i, env, n);
      if stop {
        EmitNothing(fmt, i, env, n);
        return;
      }
      Emit(fmt, i, env, n, out);
      out, i, n := out + piece, i', n';
    }
    EmitNothing(fmt, i, env, n);
  }

  lemma EmitNothing(fmt: string, i: nat, env: Env, n: nat)
    requires i == |fmt| || (i < |fmt| && ReadToken(fmt, i).None?)
    ensures RenderAll(Tokens(fmt, i), env, n) == ""
  {
  }
}
