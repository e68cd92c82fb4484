/** Two hex digits per byte, as the corpus parser and the MCP tools read and write them. */
module Hex {
  import opened Words
  import opened Digits

  function HexByte(b: U8): string {
    [DigitChar(b / 16, false), DigitChar(b % 16, false)]
  }

  /** Contiguous lower-case hex. */
  function HexText(bytes: seq<U8>): string {
    if bytes == [] then "" else HexByte(bytes[0]) + HexText(bytes[1..])
  }

  function Nibbles(hi: char, lo: char): U8
    requires IsDigit(hi, 16) && IsDigit(lo, 16)
  {
    DigitOf(hi) * 16 + DigitOf(lo)
  }

  /** The bytes of an even run of hex digits of either case. */
  function HexPairs(s: string): Option<seq<U8>>
    decreases |s|
  {
    if s == "" then Some([])
    else if |s| == 1 || !IsDigit(s[0], 16) || !IsDigit(s[1], 16) then None
    else
      match HexPairs(s[2..])
      case None => None
      case Some(rest) => Some([Nibbles(s[0], s[1])] + rest)
  }

  lemma HexByteBack(b: U8)
    ensures var s := HexByte(b); IsDigit(s[0], 16) && IsDigit(s[1], 16) && Nibbles(s[0], s[1]) == b
  {
  }

  /** Reading back what was written. */
  lemma {:induction false} HexPairsBack(bytes: seq<U8>)
    ensures AllDigits(HexText(bytes), 16) && HexPairs(HexText(bytes)) == Some(bytes)
    ensures |HexText(bytes)| == 2 * |bytes|
    decreases |bytes|
  {
    hide HexByte, DigitOf, Nibbles;
    if bytes != [] {
      HexPairsBack(bytes[1..]);
      var s, two := HexText(bytes), HexByte(bytes[0]);
      HexByteBack(bytes[0]);
      assert |two| == 2 by { HexByteIsTwo(bytes[0]); }
      assert s[2..] == HexText(bytes[1..]) && s[0] == two[0] && s[1] == two[1];
      assert bytes == [bytes[0]] + bytes[1..];
    }
  }

  lemma HexByteIsTwo(b: U8)
    ensures |HexByte(b)| == 2
  {
  }

  /** Decoding fails exactly on an odd length or a character that is no hex digit. */
  lemma {:induction false} HexPairsDefined(s: string)
    ensures HexPairs(s).Some? <==> |s| % 2 == 0 && AllDigits(s, 16)
    ensures HexPairs(s).Some? ==> |HexPairs(s).value| == |s| / 2
    decreases |s|
  {
    if |s| >= 2 {
      HexPairsDefined(s[2..]);
      assert AllDigits(s, 16) <==> IsDigit(s[0], 16) && IsDigit(s[1], 16) && AllDigits(s[2..], 16) by {
        assert forall k :: 2 <= k < |s| ==> s[k] == s[2..][k - 2];
      }
    }
  }

  lemma HexPairsFrom(t: string, i: nat)
    requires i + 1 < |t|
    ensures HexPairs(t[i..]) == if !IsDigit(t[i], 16) || !IsDigit(t[i + 1], 16) then None
                                else Prepend([Nibbles(t[i], t[i + 1])], HexPairs(t[i + 2..]))
  {
  }

  lemma NoHexPairs()
    ensures HexPairs("") == Some([])
  {
  }

  /** The loop over pairs of digits. */
  method DecodePairs(t: string) returns (r: Option<seq<U8>>)
    ensures r == HexPairs(t)
  {
    hide Nibbles, DigitOf, HexPairs;
    HexPairsDefined(t);
    if |t| % 2 != 0 {
      return None;
    }
    var out := [];
    var i := 0;
    assert t[0..] == t;
    PrependNothing(HexPairs(t));
    while i < |t|
      invariant 0 <= i <= |t| && i % 2 == 0
      invariant HexPairs(t) == Prepend(out, HexPairs(t[i..]))
    {
      HexPairsFrom(t, i);
      if !IsDigit(t[i], 16) || !IsDigit(t[i + 1], 16) {
        return None;
      }
      var b := Nibbles(t[i], t[i + 1]);
      PrependOne(out, b, HexPairs(t[i + 2..]));
      out := out + [b];
      i := i + 2;
    }
    assert t[i..] == "";
    NoHexPairs();
    PrependEnd(out);
    return Some(out);
  }
}
