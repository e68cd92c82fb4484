/** The hex helpers of the MCP server (`mwemu-mcp/src/util.rs`). */
module HexCodec {
  import opened Words
  import opened Digits
  import opened Text
  import opened Hex

  predicate IsSeparator(c: char) {
    c == ',' || IsWhite(c)
  }

  /** The leading run of characters that separate nothing. */
  function Run(s: string): (w: string)
    ensures w <= s && (forall k :: 0 <= k < |w| ==> !IsSeparator(w[k]))
    ensures |w| < |s| ==> IsSeparator(s[|w|])
  {
    if s == "" || IsSeparator(s[0]) then "" else [s[0]] + Run(s[1..])
  }

  /** The tokens between commas and white space. */
  function Tokens(s: string): seq<string>
    decreases |s|
  {
    if s == "" then []
    else if IsSeparator(s[0]) then Tokens(s[1..])
    else [Run(s)] + Tokens(s[|Run(s)|..])
  }

  function StripHexPrefix(tok: string): string {
    if |tok| >= 2 && tok[0] == '0' && (tok[1] == 'x' || tok[1] == 'X') then tok[2..] else tok
  }

  function Concat(toks: seq<string>): string {
    if toks == [] then "" else StripHexPrefix(toks[0]) + Concat(toks[1..])
  }

  /** What is left of the text without separators and prefixes. */
  function Joined(s: string): string {
    Concat(Tokens(s))
  }

  function HexToBytes(s: string): Option<seq<U8>> {
    HexPairs(Joined(s))
  }

  /** Two digits per byte with a space between bytes. */
  function SpacedHex(bytes: seq<U8>): string {
    if bytes == [] then ""
    else if |bytes| == 1 then HexByte(bytes[0])
    else HexByte(bytes[0]) + " " + SpacedHex(bytes[1..])
  }

  // ----- the loops of the source

  method DecodeHex(s: string) returns (r: Option<seq<U8>>)
    ensures r == HexToBytes(s)
  {
    var toks := Tokens(s);
    var joined := "";
    assert toks[0..] == toks && "" + Concat(toks) == Concat(toks);
    for k := 0 to |toks|
      invariant joined + Concat(toks[k..]) == Concat(toks)
    {
      hide Tokens, StripHexPrefix;
      assert toks[k..][0] == toks[k] && toks[k..][1..] == toks[k + 1..];
      var part := StripHexPrefix(toks[k]);
      assert joined + (part + Concat(toks[k + 1..])) == (joined + part) + Concat(toks[k + 1..]);
      joined := joined + part;
    }
    assert toks[|toks|..] == [] && joined + "" == joined;
    r := DecodePairs(joined);
  }

  method EncodeHex(bytes: seq<U8>) returns (s: string)
    ensures s == HexText(bytes)
  {
    s := "";
    assert bytes[0..] == bytes && "" + HexText(bytes) == HexText(bytes);
    for k := 0 to |bytes|
      invariant s + HexText(bytes[k..]) == HexText(bytes)
    {
      hide HexByte;
      assert bytes[k..][0] == bytes[k] && bytes[k..][1..] == bytes[k + 1..];
      assert s + (HexByte(bytes[k]) + HexText(bytes[k + 1..])) == (s + HexByte(bytes[k])) + HexText(bytes[k + 1..]);
      s := s + HexByte(bytes[k]);
    }
    assert bytes[|bytes|..] == [] && s + "" == s;
  }

  // ----- what decoding depends on

  lemma {:induction false} RunStops(a: string, c: char, b: string)
    requires IsSeparator(c)
    ensures Run(a + [c] + b) == Run(a)
    decreases |a|
  {
    var s := a + [c] + b;
    if a != "" && !IsSeparator(a[0]) {
      assert s[0] == a[0] && s[1..] == a[1..] + [c] + b;
      RunStops(a[1..], c, b);
    } else if a != "" {
      assert s[0] == a[0];
    }
  }

  /** A separator anywhere splits the tokens there. */
  lemma {:induction false} TokensSplit(a: string, c: char, b: string)
    requires IsSeparator(c)
    ensures Tokens(a + [c] + b) == Tokens(a) + Tokens(b)
    decreases |a|
  {
    hide IsSeparator;
    var s := a + [c] + b;
    if a == "" {
      assert s[0] == c && s[1..] == b;
    } else if IsSeparator(a[0]) {
      assert s[0] == a[0] && s[1..] == a[1..] + [c] + b;
      TokensSplit(a[1..], c, b);
    } else {
      RunStops(a, c, b);
      var w := Run(a);
      assert s[0] == a[0] && s[|w|..] == a[|w|..] + [c] + b;
      assert |w| > 0;
      TokensSplit(a[|w|..], c, b);
    }
  }

  lemma {:induction false} ConcatAppend(x: seq<string>, y: seq<string>)
    ensures Concat(x + y) == Concat(x) + Concat(y)
    decreases |x|
  {
    hide StripHexPrefix;
    if x == [] {
      assert x + y == y;
    } else {
      assert (x + y)[1..] == x[1..] + y;
      ConcatAppend(x[1..], y);
    }
  }

  /** Separators add nothing: only the digits on either side count. */
  lemma SeparatorsDoNotCount(a: string, c: char, b: string)
    requires IsSeparator(c)
    ensures Joined(a + [c] + b) == Joined(a) + Joined(b)
  {
    TokensSplit(a, c, b);
    ConcatAppend(Tokens(a), Tokens(b));
  }

  predicate SeparatorFree(t: string) {
    forall k :: 0 <= k < |t| ==> !IsSeparator(t[k])
  }

  lemma TokenJoins(t: string)
    requires SeparatorFree(t)
    ensures Joined(t) == StripHexPrefix(t)
  {
    if t != "" {
      OneToken(t);
      assert Concat([t]) == StripHexPrefix(t) + Concat([]) by { assert [t][1..] == []; }
    }
  }

  /** The text around a token: it ends, or begins, in a separator. */
  predicate Surrounds(pre: string, post: string) {
    (pre == "" || IsSeparator(pre[|pre| - 1])) && (post == "" || IsSeparator(post[0]))
  }

  lemma TokenBefore(t: string, post: string)
    requires SeparatorFree(t) && Surrounds("", post)
    ensures Joined(t + post) == StripHexPrefix(t) + Joined(post)
  {
    hide Joined, IsSeparator;
    TokenJoins(t);
    assert Joined("") == "" by { TokenJoins(""); }
    if post == "" {
      assert t + post == t;
    } else {
      var d, b := post[0], post[1..];
      assert t + post == t + [d] + b && post == "" + [d] + b;
      SeparatorsDoNotCount(t, d, b);
      SeparatorsDoNotCount("", d, b);
    }
  }

  lemma TokenInPlace(pre: string, t: string, post: string)
    requires SeparatorFree(t) && Surrounds(pre, post)
    ensures Joined(pre + t + post) == Joined(pre) + (StripHexPrefix(t) + Joined(post))
  {
    hide Joined, IsSeparator;
    TokenBefore(t, post);
    assert Joined("") == "" by { TokenJoins(""); }
    if pre == "" {
      assert pre + t + post == t + post;
    } else {
      var a, c := pre[..|pre| - 1], pre[|pre| - 1];
      assert pre + t + post == a + [c] + (t + post) && pre == a + [c] + "";
      SeparatorsDoNotCount(a, c, t + post);
      SeparatorsDoNotCount(a, c, "");
    }
  }

  /** A prefix on any token of any text contributes nothing. */
  lemma PrefixesDoNotCount(pre: string, t: string, post: string, upper: bool)
    requires SeparatorFree(t) && StripHexPrefix(t) == t && Surrounds(pre, post)
    ensures var p := if upper then "0X" else "0x";
            Joined(pre + (p + t) + post) == Joined(pre + t + post)
  {
    hide Joined;
    var p := if upper then "0X" else "0x";
    assert (p + t)[2..] == t;
    TokenInPlace(pre, t, post);
    TokenInPlace(pre, p + t, post);
  }

  lemma {:induction false} WholeRun(s: string)
    requires forall k :: 0 <= k < |s| ==> !IsSeparator(s[k])
    ensures Run(s) == s
  {
  }

  lemma OneToken(s: string)
    requires s != "" && forall k :: 0 <= k < |s| ==> !IsSeparator(s[k])
    ensures Tokens(s) == [s]
  {
    WholeRun(s);
    assert s[|s|..] == "";
  }

  lemma DigitToken(t: string)
    requires AllDigits(t, 16)
    ensures Joined(t) == t
  {
    forall k | 0 <= k < |t| ensures !IsSeparator(t[k]) && t[k] != 'x' && t[k] != 'X' {
      assert IsDigit(t[k], 16);
    }
    TokenJoins(t);
  }

  /** Decoding fails exactly on an odd number of digits or a character that is no hex digit. */
  lemma DecodingFails(s: string)
    ensures HexToBytes(s).None? <==> |Joined(s)| % 2 == 1 || !AllDigits(Joined(s), 16)
  {
    HexPairsDefined(Joined(s));
  }

  /** Contiguous hex decodes to the bytes it was made from. */
  lemma ContiguousBack(bytes: seq<U8>)
    ensures HexToBytes(HexText(bytes)) == Some(bytes)
  {
    HexPairsBack(bytes);
    DigitToken(HexText(bytes));
  }

  lemma {:induction false} SpacedJoins(bytes: seq<U8>)
    ensures Joined(SpacedHex(bytes)) == HexText(bytes)
    decreases |bytes|
  {
    hide Joined, HexByte;
    if bytes == [] {
      DigitToken("");
    } else {
      var two := HexByte(bytes[0]);
      assert AllDigits(two, 16) by { HexByteBack(bytes[0]); HexByteIsTwo(bytes[0]); }
      DigitToken(two);
      if |bytes| == 1 {
        assert bytes[1..] == [] && two + "" == two;
      } else {
        SpacedJoins(bytes[1..]);
        SeparatorsDoNotCount(two, ' ', SpacedHex(bytes[1..]));
        assert SpacedHex(bytes) == two + [' '] + SpacedHex(bytes[1..]);
      }
    }
  }

  /** So does spaced hex. */
  lemma SpacedBack(bytes: seq<U8>)
    ensures HexToBytes(SpacedHex(bytes)) == Some(bytes)
  {
    SpacedJoins(bytes);
    HexPairsBack(bytes);
  }
}
