/** What printf renders, strtol reads back. */
module PrintfRoundTrip {
  import opened Words
  import opened Digits
  import opened StrConv
  import opened Printf

  predicate Numeric(conv: char) {
    conv in "diuxXop"
  }

  /** The base that matches a conversion. */
  function BaseOf(conv: char): nat {
    if conv in "diu" then 10 else if conv == 'o' then 8 else 16
  }

  predicate SignOrBlank(c: char) {
    c == '-' || c == '+' || c == ' '
  }

  /** A rendered number before padding: a space flag's blank, a sign, a prefix and digits. */
  datatype Body = Body(blank: string, sign: string, prefix: string, num: string) {
    function Text(): string {
      blank + sign + prefix + num
    }
  }

  function BodyOf(conv: char, f: Flags, val: U64): Body {
    if conv == 'd' || conv == 'i' then
      if val >= TWO64 / 2 then Body("", "-", "", Numeral(TWO64 - val, 10, false))
      else if f.plus then Body("", "+", "", Numeral(val, 10, false))
      else if f.space then Body(" ", "", "", Numeral(val, 10, false))
      else Body("", "", "", Numeral(val, 10, false))
    else Body("", "", if conv == 'p' then "0x" else "", Numeral(val, BaseOf(conv), conv == 'X'))
  }

  /** The `0` flag acts on this conversion. */
  predicate ZeroFills(conv: char, f: Flags) {
    f.zero && !f.left && conv in "dixXo"
  }

  lemma {:induction false} AsciiLength(s: string)
    requires forall k :: 0 <= k < |s| ==> s[k] as int < 0x80
    ensures ByteLen(s) == |s|
  {
    if s != "" {
      AsciiLength(s[1..]);
    }
  }

  lemma DigitsAreAscii(s: string, base: nat)
    requires base <= 36 && AllDigits(s, base)
    ensures forall k :: 0 <= k < |s| ==> s[k] as int < 0x80
  {
  }

  lemma BodyLength(conv: char, f: Flags, val: U64)
    requires Numeric(conv)
    ensures ByteLen(BodyOf(conv, f, val).Text()) == |BodyOf(conv, f, val).Text()|
  {
    var body := BodyOf(conv, f, val);
    DigitsAreAscii(body.num, BaseOf(conv));
    AsciiLength(body.Text());
  }

  /** Filling up to the width on one side. */
  function Fill(s: string, width: nat, left: bool, zero: bool): string {
    if width <= |s| then s
    else if left then s + Repeat(' ', width - |s|)
    else Repeat(if zero then '0' else ' ', width - |s|) + s
  }

  lemma BodyText(conv: char, f: Flags, val: U64)
    requires Numeric(conv)
    ensures BodyOf(conv, f, val).Text() ==
            if conv == 'd' || conv == 'i' then Signed(val, f)
            else if conv == 'p' then "0x" + Numeral(val, 16, false)
            else Numeral(val, BaseOf(conv), conv == 'X')
  {
    hide Numeral;
    var body := BodyOf(conv, f, val);
    assert body.Text() == body.blank + (body.sign + (body.prefix + body.num));
    assert "" + body.num == body.num && "" + ("" + body.num) == body.num;
  }

  lemma ConvertIsPad(conv: char, f: Flags, width: nat, val: U64, text: U64 -> string)
    requires Numeric(conv)
    ensures Convert(conv, f, width, val, text) ==
            Pad(BodyOf(conv, f, val).Text(), width, f.left, f.zero && conv in "dixXo")
  {
    hide Numeral, Pad, BodyOf, Signed;
    BodyText(conv, f, val);
  }

  /** The rendering is the body, filled on one side. */
  lemma ConvertIs(conv: char, f: Flags, width: nat, val: U64, text: U64 -> string)
    requires Numeric(conv)
    ensures Convert(conv, f, width, val, text) == Fill(BodyOf(conv, f, val).Text(), width, f.left, ZeroFills(conv, f))
  {
    hide Convert, BodyOf, ByteLen;
    BodyLength(conv, f, val);
    ConvertIsPad(conv, f, width, val, text);
  }

  lemma BodyHead(conv: char, f: Flags, val: U64)
    requires Numeric(conv)
    ensures var body := BodyOf(conv, f, val);
            && body.Text() != ""
            && (SignOrBlank(body.Text()[0]) <==> !(body.blank == body.sign == ""))
  {
  }

  /** The digits of a body, with its sign, are the value. */
  lemma BodyValue(conv: char, f: Flags, val: U64)
    requires Numeric(conv)
    ensures var body := BodyOf(conv, f, val);
            && AllDigits(body.num, BaseOf(conv)) && body.num != ""
            && Reads(BaseOf(conv), body.prefix, body.num, BaseOf(conv))
            && (var v := Value(body.num, BaseOf(conv)) % TWO64; val == if body.sign == "-" then Negate(v) else v)
  {
    hide Value, Numeral;
    if (conv == 'd' || conv == 'i') && val >= TWO64 / 2 {
      NumeralValue(TWO64 - val, 10, false);
    } else {
      NumeralValue(val, BaseOf(conv), conv == 'X');
    }
  }

  /** Spaces on either side do not matter. */
  lemma ReadsBetweenSpaces(conv: char, f: Flags, val: U64, pre: string, post: string)
    requires Numeric(conv) && AllSpaces(pre) && (post == "" || IsSpace(post[0]))
    ensures var s := BodyOf(conv, f, val).Text();
            Parse(pre + s + post, BaseOf(conv)) == (val, |pre| + |s|)
  {
    hide Parse, Value, Reads, BodyOf, AllDigits, IsSpace;
    var body := BodyOf(conv, f, val);
    BodyValue(conv, f, val);
    BodyStart(conv, f, val, pre);
    ParseNumeral(pre + body.blank, body.sign, body.prefix, body.num, post, BaseOf(conv), BaseOf(conv));
    Regroup(pre, body, post);
  }

  lemma BodyStart(conv: char, f: Flags, val: U64, pre: string)
    requires Numeric(conv) && AllSpaces(pre)
    ensures AllSpaces(pre + BodyOf(conv, f, val).blank) && IsSign(BodyOf(conv, f, val).sign)
  {
    hide Numeral;
  }

  lemma Regroup(pre: string, body: Body, post: string)
    ensures pre + body.Text() + post == (pre + body.blank) + body.sign + body.prefix + body.num + post
    ensures |body.Text()| == |body.blank| + |body.sign| + |body.prefix| + |body.num|
  {
    var t := body.blank + body.sign + body.prefix;
    assert pre + (t + body.num) == (pre + t) + body.num;
    assert pre + t == (pre + body.blank) + body.sign + body.prefix;
  }

  lemma {:induction false} LeadingZeros(n: nat, num: string, base: nat)
    requires 2 <= base && AllDigits(num, base)
    ensures AllDigits(Repeat('0', n) + num, base) && Value(Repeat('0', n) + num, base) == Value(num, base)
    decreases |num| + n
  {
    hide Value, Repeat;
    var s := Repeat('0', n) + num;
    if num != "" {
      var front, last := num[..|num| - 1], num[|num| - 1];
      LeadingZeros(n, front, base);
      assert s == (Repeat('0', n) + front) + [last] && num == front + [last];
      ValueSnoc(Repeat('0', n) + front, last, base);
      ValueSnoc(front, last, base);
    } else if n > 0 {
      EmptyValue(base);
      LeadingZeros(n - 1, num, base);
      assert s == (Repeat('0', n - 1) + num) + ['0'];
      ValueSnoc(Repeat('0', n - 1) + num, '0', base);
    } else {
      assert s == num;
    }
  }

  /** Zeros before bare digits do not matter. */
  lemma ReadsAfterZeros(conv: char, f: Flags, val: U64, n: nat)
    requires Numeric(conv) && conv != 'p'
    requires BodyOf(conv, f, val).blank == BodyOf(conv, f, val).sign == ""
    ensures var s := BodyOf(conv, f, val).Text();
            Parse(Repeat('0', n) + s, BaseOf(conv)) == (val, n + |s|)
  {
    hide Parse, Value;
    var body := BodyOf(conv, f, val);
    BodyValue(conv, f, val);
    LeadingZeros(n, body.num, BaseOf(conv));
    ParseNumeral("", "", "", Repeat('0', n) + body.num, "", BaseOf(conv), BaseOf(conv));
    assert Repeat('0', n) + body.Text() == "" + "" + "" + (Repeat('0', n) + body.num) + "";
  }

  /** Zeros before a sign are all that is read. */
  lemma StopsAtSign(zeros: nat, s: string)
    requires zeros > 0 && s != "" && SignOrBlank(s[0])
    ensures Parse(Repeat('0', zeros) + s, 10).1 == zeros
  {
    hide Value;
    var num := Repeat('0', zeros);
    var t := num + s;
    assert t[0] == '0' && t[zeros] == s[0];
    SkipSpacesIs(t, 0, 0);
    DigitsEndIs(t, 0, zeros, 10);
  }

  /**
   Parsing in the matching base gives back all 64 bits and stops after the last digit, for every
   value, width and flags; only a `0` flag that fills before a sign or blank breaks it.
   */
  lemma RoundTrip(conv: char, f: Flags, width: nat, val: U64, text: U64 -> string)
    requires Numeric(conv)
    ensures var s := BodyOf(conv, f, val).Text();
            var out := Convert(conv, f, width, val, text);
            Parse(out, BaseOf(conv)) == (val, if f.left then |s| else |out|)
            <==> !(ZeroFills(conv, f) && width > |s| && SignOrBlank(s[0]))
  {
    hide Parse, Convert, BodyOf, Body.Text;
    var body := BodyOf(conv, f, val);
    var s := body.Text();
    ConvertIs(conv, f, width, val, text);
    BodyHead(conv, f, val);
    var fill := if width <= |s| then 0 else width - |s|;
    if fill == 0 {
      ReadsBetweenSpaces(conv, f, val, "", "");
      assert "" + s + "" == s;
    } else if f.left {
      ReadsBetweenSpaces(conv, f, val, "", Repeat(' ', fill));
      assert "" + s + Repeat(' ', fill) == s + Repeat(' ', fill);
    } else if !ZeroFills(conv, f) {
      ReadsBetweenSpaces(conv, f, val, Repeat(' ', fill), "");
      assert Repeat(' ', fill) + s + "" == Repeat(' ', fill) + s;
    } else if body.blank == body.sign == "" {
      ReadsAfterZeros(conv, f, val, fill);
    } else {
      SignIsDecimal(conv, f, val);
      StopsAtSign(fill, s);
    }
  }

  /** For example, -1 printed with `%05d` is `000-1`, which reads as 0 and stops at the sign. */
  lemma ZerosBeforeSign(text: U64 -> string)
    ensures var f := Flags(false, true, false, false);
            var out := Convert('d', f, 5, TWO64 - 1, text);
            out == "000-1" && Parse(out, 10) == (0, 3)
  {
    hide Parse;
    var f := Flags(false, true, false, false);
    assert Numeral(1, 10, false) == "1";
    assert BodyOf('d', f, TWO64 - 1).Text() == "-1";
    ConvertIs('d', f, 5, TWO64 - 1, text);
    assert Repeat('0', 3) == "000";
    ZerosRead();
  }

  lemma ZerosRead()
    ensures Parse("000-1", 10) == (0, 3)
  {
    hide Value;
    var t := "000-1";
    SkipSpacesIs(t, 0, 0);
    DigitsEndIs(t, 0, 3, 10);
    assert t[0..3] == Repeat('0', 3) + "";
    EmptyValue(10);
    LeadingZeros(3, "", 10);
  }

  lemma SignIsDecimal(conv: char, f: Flags, val: U64)
    requires !(BodyOf(conv, f, val).blank == BodyOf(conv, f, val).sign == "")
    ensures BaseOf(conv) == 10
  {
  }
}
