/**
 `parse_c_integer` of `api/strconv.rs`: strtol-style parsing that wraps on overflow.

 A 64-bit result is modelled by its bit pattern, so the wrapping multiply and add of the source are
 arithmetic modulo 2^64 and negation is taken modulo 2^64 as well.
 */
module StrConv {
  import opened Words
  import opened Digits

  predicate IsSpace(c: char) {
    c == ' ' || c == '\t' || c == '\n' || c == '\r' || c == 12 as char
  }

  predicate AllSpaces(s: string) {
    forall k :: 0 <= k < |s| ==> IsSpace(s[k])
  }

  function Negate(v: U64): U64 {
    (TWO64 - v) % TWO64
  }

  // ----- reference

  function SkipSpaces(s: string, i: nat): (j: nat)
    requires i <= |s|
    ensures i <= j <= |s| && (j < |s| ==> !IsSpace(s[j]))
    ensures forall k :: i <= k < j ==> IsSpace(s[k])
    decreases |s| - i
  {
    if i < |s| && IsSpace(s[i]) then SkipSpaces(s, i + 1) else i
  }

  function DigitsEnd(s: string, i: nat, base: nat): (j: nat)
    requires i <= |s|
    ensures i <= j <= |s| && (j < |s| ==> !IsDigit(s[j], base))
    ensures forall k :: i <= k < j ==> IsDigit(s[k], base)
    decreases |s| - i
  {
    if i < |s| && IsDigit(s[i], base) then DigitsEnd(s, i + 1, base) else i
  }

  predicate HexPrefix(s: string, i: nat) {
    i + 1 < |s| && s[i] == '0' && (s[i + 1] == 'x' || s[i + 1] == 'X')
  }

  function ActualBase(s: string, i: nat, base: nat): nat {
    if base != 0 then base
    else if HexPrefix(s, i) then 16
    else if i < |s| && s[i] == '0' then 8
    else 10
  }

  predicate ValidBase(base: nat) {
    base == 0 || 2 <= base <= 36
  }

  /** What comes before the digits: the sign, the base they are in and where they start. */
  datatype Head = Head(neg: bool, base: nat, start: nat)

  function ReadHead(s: string, base: nat): (h: Head)
    requires ValidBase(base)
    ensures h.start <= |s| && 2 <= h.base <= 36
  {
    var i0 := SkipSpaces(s, 0);
    var signed := i0 < |s| && (s[i0] == '-' || s[i0] == '+');
    var i1 := if signed then i0 + 1 else i0;
    var b := ActualBase(s, i1, base);
    Head(signed && s[i0] == '-', b, if b == 16 && HexPrefix(s, i1) then i1 + 2 else i1)
  }

  /** The value of the digits from `start` on, modulo 2^64. */
  function ReadDigits(s: string, start: nat, base: nat): U64
    requires start <= |s|
  {
    var end := DigitsEnd(s, start, base);
    assert forall k :: 0 <= k < end - start ==> s[start..end][k] == s[start + k];
    Value(s[start..end], base) % TWO64
  }

  /** The signed run of digits after optional space, and where it ends; (0, 0) without digits. */
  function Parse(s: string, base: nat): (U64, nat)
    requires ValidBase(base)
  {
    var h := ReadHead(s, base);
    var end := DigitsEnd(s, h.start, h.base);
    if end == h.start then (0, 0)
    else
      var v := ReadDigits(s, h.start, h.base);
      (if h.neg then Negate(v) else v, end)
  }

  // ----- the loop of the source

  lemma WrapStep(x: nat, base: nat, d: nat)
    ensures ((x % TWO64) * base + d) % TWO64 == (x * base + d) % TWO64
  {
    var q, r := x / TWO64, x % TWO64;
    assert x == TWO64 * q + r;
    assert x * base == (TWO64 * q) * base + r * base;
    assert (TWO64 * q) * base == TWO64 * (q * base);
    SameResidue(r * base + d, q * base);
  }

  /** `wrapping_mul` then `wrapping_add`, on bit patterns. */
  function MulAdd(v: U64, base: nat, d: nat): U64 {
    (v * base + d) % TWO64
  }

  lemma MulAddDigit(done: string, c: char, base: nat)
    requires AllDigits(done, base) && IsDigit(c, base)
    ensures AllDigits(done + [c], base)
    ensures MulAdd(Value(done, base) % TWO64, base, DigitOf(c)) == Value(done + [c], base) % TWO64
  {
    hide Value;
    WrapStep(Value(done, base), base, DigitOf(c));
    ValueSnoc(done, c, base);
  }

  lemma SameResidue(a: int, k: int)
    ensures (a + TWO64 * k) % TWO64 == a % TWO64
  {
  }

  method AccumulateDigits(s: string, start: nat, base: nat) returns (bits: U64, end: nat)
    requires start <= |s|
    ensures end == DigitsEnd(s, start, base) && bits == ReadDigits(s, start, base)
  {
    var i := start;
    bits := 0;
    ghost var done := "";
    while i < |s| && IsDigit(s[i], base)
      invariant start <= i <= |s| && DigitsEnd(s, i, base) == DigitsEnd(s, start, base)
      invariant done == s[start..i] && AllDigits(done, base) && bits == Value(done, base) % TWO64
    {
      hide Value, MulAdd;
      MulAddDigit(done, s[i], base);
      bits := MulAdd(bits, base, DigitOf(s[i]));
      done := done + [s[i]];
      i := i + 1;
    }
    end := i;
  }

  method ParseCInteger(s: string, base: nat) returns (bits: U64, consumed: nat)
    requires ValidBase(base)
    ensures (bits, consumed) == Parse(s, base)
  {
    hide ReadDigits;
    var i := 0;
    while i < |s| && IsSpace(s[i])
      invariant 0 <= i <= |s| && SkipSpaces(s, i) == SkipSpaces(s, 0)
    {
      i := i + 1;
    }
    var neg := false;
    if i < |s| && (s[i] == '-' || s[i] == '+') {
      neg := s[i] == '-';
      i := i + 1;
    }
    var hasHexPrefix := HexPrefix(s, i);
    var b := ActualBase(s, i, base);
    if b == 16 && hasHexPrefix {
      i := i + 2;
    }
    bits, consumed := AccumulateDigits(s, i, b);
    if consumed == i {
      return 0, 0;
    }
    if neg {
      bits := Negate(bits);
    }
  }

  // ----- parsing a well-formed numeral

  lemma {:induction false} SkipSpacesIs(s: string, i: nat, j: nat)
    requires i <= j <= |s| && (j < |s| ==> !IsSpace(s[j])) && forall k :: i <= k < j ==> IsSpace(s[k])
    ensures SkipSpaces(s, i) == j
  {
  }

  lemma {:induction false} DigitsEndIs(s: string, i: nat, j: nat, base: nat)
    requires i <= j <= |s| && (j < |s| ==> !IsDigit(s[j], base)) && forall k :: i <= k < j ==> IsDigit(s[k], base)
    ensures DigitsEnd(s, i, base) == j
  {
  }

  predicate IsSign(sign: string) {
    sign == "" || sign == "-" || sign == "+"
  }

  /** The given base reads a numeral with this prefix as one in base b. */
  predicate Reads(base: nat, prefix: string, num: string, b: nat) {
    && 2 <= b <= 36
    && if prefix == "0x" || prefix == "0X" then b == 16 && (base == 0 || base == 16)
       else
         && prefix == ""
         && (base == b || (base == 0 && |num| > 0 && b == if num[0] == '0' then 8 else 10))
  }

  /** Space, sign, prefix, digits, then anything that a space starts: the value of the digits, signed. */
  lemma ParseNumeral(pre: string, sign: string, prefix: string, num: string, post: string, base: nat, b: nat)
    requires ValidBase(base) && AllSpaces(pre) && IsSign(sign) && Reads(base, prefix, num, b)
    requires num != "" && AllDigits(num, b) && (post == "" || IsSpace(post[0]))
    ensures var v := Value(num, b) % TWO64;
            Parse(pre + sign + prefix + num + post, base)
            == (if sign == "-" then Negate(v) else v, |pre| + |sign| + |prefix| + |num|)
  {
    hide Value, ReadHead, ReadDigits, DigitsEnd;
    var s := pre + sign + prefix + num + post;
    var start := |pre| + |sign| + |prefix|;
    assert s == pre + sign + (prefix + (num + post));
    HeadIs(pre, sign, prefix, num, post, base, b);
    DigitsAre(pre + sign + prefix, num, post, b);
  }

  lemma DigitsAre(pre: string, num: string, post: string, b: nat)
    requires AllDigits(num, b) && (post == "" || !IsDigit(post[0], b))
    ensures var s := pre + num + post;
            DigitsEnd(s, |pre|, b) == |pre| + |num| && ReadDigits(s, |pre|, b) == Value(num, b) % TWO64
  {
    hide Value;
    var s := pre + num + post;
    var end := |pre| + |num|;
    assert forall k :: 0 <= k < |num| ==> s[|pre| + k] == num[k];
    assert end < |s| ==> s[end] == post[0];
    DigitsEndIs(s, |pre|, end, b);
    assert s[|pre|..end] == num;
  }

  /** The head of a text by positions: spaces up to i0, a sign up to i1, a prefix up to `start`. */
  lemma HeadAt(s: string, i0: nat, i1: nat, start: nat, base: nat, b: nat)
    requires ValidBase(base) && i0 <= i1 <= start < |s| && 2 <= b <= 36 && IsDigit(s[start], b)
    requires forall k :: 0 <= k < i0 ==> IsSpace(s[k])
    requires i1 == i0 || (i1 == i0 + 1 && (s[i0] == '-' || s[i0] == '+'))
    requires if start == i1 then
               && (base == b || (base == 0 && b == if s[i1] == '0' then 8 else 10))
               && (base == 0 || base == 16 ==> !HexPrefix(s, i1))
             else start == i1 + 2 && HexPrefix(s, i1) && b == 16 && (base == 0 || base == 16)
    ensures ReadHead(s, base) == Head(i0 < i1 && s[i0] == '-', b, start)
  {
  }

  lemma HeadIs(pre: string, sign: string, prefix: string, num: string, post: string, base: nat, b: nat)
    requires ValidBase(base) && AllSpaces(pre) && IsSign(sign) && Reads(base, prefix, num, b)
    requires num != "" && AllDigits(num, b) && (post == "" || IsSpace(post[0]))
    ensures ReadHead(pre + sign + prefix + num + post, base) == Head(sign == "-", b, |pre| + |sign| + |prefix|)
  {
    hide ReadHead, AllDigits, SkipSpaces;
    var s := pre + sign + prefix + num + post;
    var i0, i1, start := |pre|, |pre| + |sign|, |pre| + |sign| + |prefix|;
    assert s[start] == num[0] && IsDigit(num[0], b) by { assert AllDigits(num, b); FirstDigit(num, b); }
    assert if |num| > 1 then s[start + 1] == num[1] else post != "" ==> s[start + 1] == post[0];
    assert |num| > 1 ==> IsDigit(num[1], b) by { if |num| > 1 { SecondDigit(num, b); } }
    assert prefix != "" ==> s[i1] == prefix[0] && s[i1 + 1] == prefix[1];
    assert sign != "" ==> s[i0] == sign[0];
    HeadAt(s, i0, i1, start, base, b);
  }

  lemma FirstDigit(num: string, b: nat)
    requires AllDigits(num, b) && num != ""
    ensures IsDigit(num[0], b)
  {
  }

  lemma SecondDigit(num: string, b: nat)
    requires AllDigits(num, b) && |num| > 1
    ensures IsDigit(num[1], b)
  {
  }

  // ----- wrapping and clamping

  /** The number that the text stands for. */
  function Exact(s: string, base: nat): int
    requires ValidBase(base)
  {
    var h := ReadHead(s, base);
    var end := DigitsEnd(s, h.start, h.base);
    assert forall k :: 0 <= k < end - h.start ==> s[h.start..end][k] == s[h.start + k];
    if h.neg then 0 - Value(s[h.start..end], h.base) else Value(s[h.start..end], h.base)
  }

  /** 64 bits as a signed number. */
  function AsSigned(bits: U64): int {
    if bits < TWO64 / 2 then bits else bits - TWO64
  }

  /** The C library's answer: the number, or the bound of the 64-bit range that it is beyond. */
  function Clamp(x: int): int {
    if x < -TWO64 / 2 then -TWO64 / 2 else if x >= TWO64 / 2 then TWO64 / 2 - 1 else x
  }

  lemma ParseWraps(s: string, base: nat)
    requires ValidBase(base)
    ensures Parse(s, base).0 == Exact(s, base) % TWO64
  {
    hide Value, ReadHead;
    var h := ReadHead(s, base);
    var end := DigitsEnd(s, h.start, h.base);
    assert forall k :: 0 <= k < end - h.start ==> s[h.start..end][k] == s[h.start + k];
    var v := Value(s[h.start..end], h.base);
    if end == h.start {
      assert s[h.start..end] == "";
      EmptyValue(h.base);
    } else if h.neg {
      NegateWraps(v);
    }
  }

  lemma NegateWraps(v: nat)
    ensures Negate(v % TWO64) == (0 - v) % TWO64
  {
    SameResidue(-(v % TWO64), -(v / TWO64));
    SameResidue(-(v % TWO64), 1);
  }

  /**
   The parse gives the C library's answer when the number fits in 64 bits, and beyond them only where
   it wraps onto the bound.
   */
  lemma WrapsOrClamps(s: string, base: nat)
    requires ValidBase(base)
    ensures var x := Exact(s, base);
            AsSigned(Parse(s, base).0) == Clamp(x) <==>
            || -TWO64 / 2 <= x < TWO64 / 2
            || (x > 0 && x % TWO64 == TWO64 / 2 - 1)
            || (x < 0 && x % TWO64 == TWO64 / 2)
  {
    hide Exact, Parse;
    var x := Exact(s, base);
    ParseWraps(s, base);
    if -TWO64 / 2 <= x < TWO64 / 2 {
      SameResidue(x, 1);
    }
  }

  /** For example, 2^63 reads as -2^63, where the C library gives 2^63 - 1. */
  lemma WrapExample()
    ensures var s := Numeral(TWO64 / 2, 10, false);
            Exact(s, 10) == TWO64 / 2 && AsSigned(Parse(s, 10).0) == -TWO64 / 2 && Clamp(Exact(s, 10)) == TWO64 / 2 - 1
  {
    hide Value, Numeral, ReadHead, DigitsEnd, Parse;
    var num := Numeral(TWO64 / 2, 10, false);
    assert num == "" + "" + "" + num + "";
    HeadIs("", "", "", num, "", 10, 10);
    DigitsAre("", num, "", 10);
    NumeralValue(TWO64 / 2, 10, false);
    assert num[0..|num|] == num;
    ParseWraps(num, 10);
  }
}
