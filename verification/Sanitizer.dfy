/**
 The comment-and-string blanking pass of `scripts/sloppy.py`.

 `Scan` is the reference: a left-to-right scanner that looks ahead and never revisits its output.
 `Sanitize` is the loop of the script, which keeps four mode flags and a list of output pieces and
 patches the last piece when it meets a Rust byte literal.
 */
module Sanitizer {

  datatype Lang = CLike | Python | Rust | Backtick

  /** `alnum` stands for Python's `str.isalnum` on one character. */
  datatype Config = Config(lang: Lang, alnum: char -> bool)

  function LangOf(ext: string): Lang {
    if ext == ".py" then Python
    else if ext == ".rs" then Rust
    else if ext in [".js", ".mjs", ".ts"] then Backtick
    else CLike
  }

  type Quote = c: char | c == '"' || c == '\'' || c == '`' witness '"'

  datatype Mode = Top | Line | Block | Triple(quote: Quote) | Str(quote: Quote)

  /** One turn of the scanner: what it emits (as many characters as it reads) and its next mode. */
  datatype Move = Move(piece: string, mode: Mode)

  // ----- reference scanner

  /** `src` reads a b from i on. */
  predicate At(src: string, i: nat, a: char, b: char) {
    i + 1 < |src| && src[i] == a && src[i + 1] == b
  }

  /** `src` reads q q q from i on. */
  predicate AtThrice(src: string, i: nat, q: char) {
    i + 2 < |src| && src[i] == q && src[i + 1] == q && src[i + 2] == q
  }

  function Blank(c: char): char {
    if c == '\n' || c == '\t' then c else ' '
  }

  function Spaces(n: nat): (s: string)
    ensures |s| == n && forall k :: 0 <= k < n ==> s[k] == ' '
  {
    seq(n, _ => ' ')
  }

  /** Index of the first `'` in [j, end), or `end`. */
  function FirstTick(src: string, j: nat, end: nat): (r: nat)
    requires j <= end <= |src|
    ensures j <= r <= end
    ensures r < end ==> src[r] == '\''
    ensures forall k :: j <= k < r ==> src[k] != '\''
    decreases end - j
  {
    if j == end || src[j] == '\'' then j else FirstTick(src, j + 1, end)
  }

  function Min(a: nat, b: nat): nat {
    if a <= b then a else b
  }

  /** Length of the Rust character literal that starts with the `'` at i, or 0 for a lifetime. */
  function CharLitLen(src: string, i: nat): (len: nat)
    requires i < |src|
    ensures len == 0 || 3 <= len <= |src| - i
    ensures len > 0 ==> src[i + len - 1] == '\''
  {
    if i + 1 >= |src| then 0
    else if src[i + 1] == '\\' then
      if i + 2 < |src| then
        var j := FirstTick(src, i + 2, Min(|src|, i + 12));
        if j < |src| && src[j] == '\'' then j - i + 1 else 0
      else 0
    else if i + 2 < |src| && src[i + 2] == '\'' then 3
    else 0
  }

  /** The `b` at i is the prefix of a byte literal, not the tail of an identifier. */
  predicate BytePrefix(cfg: Config, src: string, i: nat)
    requires i < |src|
  {
    && At(src, i, 'b', '\'')
    && CharLitLen(src, i + 1) > 0
    && (i == 0 || !(cfg.alnum(src[i - 1]) || src[i - 1] == '_'))
  }

  function TopMove(cfg: Config, src: string, i: nat): (r: Move)
    requires i < |src|
    ensures 1 <= |r.piece| <= |src| - i
  {
    var c := src[i];
    if cfg.lang != Python && At(src, i, '/', '/') then Move("  ", Line)
    else if cfg.lang != Python && At(src, i, '/', '*') then Move("  ", Block)
    else if cfg.lang == Python && c == '#' then Move(" ", Line)
    else if cfg.lang == Python && (AtThrice(src, i, '\"') || AtThrice(src, i, '\'')) then Move("   ", Triple(c))
    else if cfg.lang == Rust && c == '\'' then
      var len := CharLitLen(src, i);
      if len > 0 then Move(Spaces(len), Top) else Move([c], Top)
    else if cfg.lang == Rust && (At(src, i, 'b', '"') || BytePrefix(cfg, src, i)) then Move(" ", Top)
    else if cfg.lang == Backtick && c == '`' then Move([c], Str(c))
    else if c == '"' || c == '\'' then Move([c], Str(c))
    else Move([c], Top)
  }

  function NextMove(cfg: Config, src: string, i: nat, m: Mode): (r: Move)
    requires i < |src|
    ensures 1 <= |r.piece| <= |src| - i
  {
    var c := src[i];
    match m
    case Top => TopMove(cfg, src, i)
    case Line => Move([Blank(c)], if c == '\n' then Top else Line)
    case Block => if At(src, i, '*', '/') then Move("  ", Top) else Move([Blank(c)], Block)
    case Triple(q) => if AtThrice(src, i, q) then Move("   ", Top) else Move([Blank(c)], m)
    case Str(q) =>
      if c == '\\' && i + 1 < |src| then Move("  ", m)
      else if c == q || c == '\n' then Move([c], Top)
      else Move([Blank(c)], m)
  }

  /** Output for the text from i on, when the scanner stands at i in mode m. */
  function Scan(cfg: Config, src: string, i: nat, m: Mode): (out: string)
    requires i <= |src|
    ensures |out| == |src| - i
    decreases |src| - i
  {
    if i == |src| then ""
    else
      var r := NextMove(cfg, src, i, m);
      r.piece + Scan(cfg, src, i + |r.piece|, r.mode)
  }

  function Sanitized(cfg: Config, src: string): string {
    Scan(cfg, src, 0, Top)
  }

  // ----- shape of the output

  /** `out` is `src` with some characters from `from` on replaced by spaces. */
  ghost predicate Fades(src: string, out: string, from: nat) {
    && |out| == |src|
    && forall k :: from <= k < |src| ==> out[k] == src[k] || out[k] == ' '
  }

  lemma MoveFades(cfg: Config, src: string, i: nat, m: Mode, k: nat)
    requires i < |src| && k < |NextMove(cfg, src, i, m).piece|
    ensures var c := NextMove(cfg, src, i, m).piece[k]; c == src[i + k] || c == ' '
  {
  }

  lemma ScanUnfold(cfg: Config, src: string, i: nat, m: Mode, k: nat)
    requires i + k < |src|
    ensures var r := NextMove(cfg, src, i, m);
            Scan(cfg, src, i, m)[k] ==
            if k < |r.piece| then r.piece[k] else Scan(cfg, src, i + |r.piece|, r.mode)[k - |r.piece|]
  {
  }

  lemma {:induction false} ScanFades(cfg: Config, src: string, i: nat, m: Mode, k: nat)
    requires i + k < |src|
    ensures var c := Scan(cfg, src, i, m)[k]; c == src[i + k] || c == ' '
    decreases |src| - i
  {
    hide NextMove;
    ScanUnfold(cfg, src, i, m, k);
    var r := NextMove(cfg, src, i, m);
    if k < |r.piece| {
      MoveFades(cfg, src, i, m, k);
    } else {
      ScanFades(cfg, src, i + |r.piece|, r.mode, k - |r.piece|);
    }
  }

  /** Where the scanner stood, and in which mode, when it read the character at `at`. */
  function Reader(cfg: Config, src: string, i: nat, m: Mode, at: nat): (r: (nat, Mode))
    requires i <= at < |src|
    ensures i <= r.0 <= at < r.0 + |NextMove(cfg, src, r.0, r.1).piece|
    decreases |src| - i
  {
    var r := NextMove(cfg, src, i, m);
    if at < i + |r.piece| then (i, m) else Reader(cfg, src, i + |r.piece|, r.mode, at)
  }

  /** The move from (i, m) is an in-string backslash escape. */
  predicate IsEscape(src: string, i: nat, m: Mode)
    requires i < |src|
  {
    m.Str? && src[i] == '\\' && i + 1 < |src|
  }

  /** The move from (i, m) swallows a Rust character literal. */
  predicate IsCharLit(cfg: Config, src: string, i: nat, m: Mode)
    requires i < |src|
  {
    m.Top? && cfg.lang == Rust && src[i] == '\'' && CharLitLen(src, i) > 0
  }

  lemma {:induction false} ReaderEmits(cfg: Config, src: string, i: nat, m: Mode, at: nat)
    requires i <= at < |src|
    ensures var r := Reader(cfg, src, i, m, at);
            Scan(cfg, src, i, m)[at - i] == NextMove(cfg, src, r.0, r.1).piece[at - r.0]
    decreases |src| - i
  {
    hide NextMove;
    ScanUnfold(cfg, src, i, m, at - i);
    var r := NextMove(cfg, src, i, m);
    if at >= i + |r.piece| {
      ReaderEmits(cfg, src, i + |r.piece|, r.mode, at);
    }
  }

  lemma NewlineMove(cfg: Config, src: string, j: nat, m: Mode, at: nat)
    requires j <= at < |src| && src[at] == '\n' && at < j + |NextMove(cfg, src, j, m).piece|
    ensures NextMove(cfg, src, j, m).piece[at - j] ==
            if IsEscape(src, j, m) || IsCharLit(cfg, src, j, m) then ' ' else '\n'
  {
  }

  /** A newline is lost exactly when an in-string escape or a Rust character literal swallows it. */
  lemma NewlineFate(cfg: Config, src: string, at: nat)
    requires at < |src| && src[at] == '\n'
    ensures var r := Reader(cfg, src, 0, Top, at);
            Sanitized(cfg, src)[at] ==
            if IsEscape(src, r.0, r.1) || IsCharLit(cfg, src, r.0, r.1) then ' ' else '\n'
  {
    hide NextMove, Scan, Reader, IsCharLit;
    ReaderEmits(cfg, src, 0, Top, at);
    var r := Reader(cfg, src, 0, Top, at);
    NewlineMove(cfg, src, r.0, r.1, at);
  }

  /** For example, a line continuation in a string literal. */
  lemma ContinuationIsLost(alnum: char -> bool)
    ensures Sanitized(Config(CLike, alnum), "\"\\\n") == "\"  "
  {
    var cfg, src := Config(CLike, alnum), "\"\\\n";
    assert Scan(cfg, src, 1, Str('"')) == "  " + Scan(cfg, src, 3, Str('"'));
  }

  /** Same length, and every changed character became a space; in particular no newline appears. */
  lemma OnlyBlanks(cfg: Config, src: string)
    ensures Fades(src, Sanitized(cfg, src), 0)
    ensures forall k :: 0 <= k < |src| && Sanitized(cfg, src)[k] == '\n' ==> src[k] == '\n'
  {
    forall k | 0 <= k < |src| ensures Sanitized(cfg, src)[k] == src[k] || Sanitized(cfg, src)[k] == ' ' {
      ScanFades(cfg, src, 0, Top, k);
    }
  }

  /**
   Text read in a comment, a triple string or a literal is blank in the output, and so is what opens
   a comment or triple string, a Rust character literal and the prefix of a byte literal; code is kept.
   */
  lemma TextFate(cfg: Config, src: string, at: nat)
    requires at < |src|
    ensures var r := Reader(cfg, src, 0, Top, at);
            var c := Sanitized(cfg, src)[at];
            && (r.1.Line? || r.1.Block? || r.1.Triple? ==> Inert(c))
            && (r.1.Str? ==> if src[at] == r.1.quote && at == r.0 then c == src[at] else Inert(c))
            && (r.1.Top? && Opens(cfg, src, r.0) ==> c == ' ')
            && (r.1.Top? && !Opens(cfg, src, r.0) ==> at == r.0 && c == src[at])
  {
    hide Scan, Reader;
    ReaderEmits(cfg, src, 0, Top, at);
  }

  /** A comment, a triple string, a character literal or the prefix of a byte literal starts at i. */
  predicate Opens(cfg: Config, src: string, i: nat)
    requires i < |src|
  {
    match cfg.lang
    case Python => src[i] == '#' || AtThrice(src, i, '"') || AtThrice(src, i, '\'')
    case Rust =>
      || At(src, i, '/', '/') || At(src, i, '/', '*') || At(src, i, 'b', '"')
      || BytePrefix(cfg, src, i) || (src[i] == '\'' && CharLitLen(src, i) > 0)
    case _ => At(src, i, '/', '/') || At(src, i, '/', '*')
  }

  // ----- idempotence: a second pass runs in lock step with the first

  /** Mode of the second pass when the first is in mode m: comments and triple strings are plain text. */
  function Shadow(m: Mode): Mode {
    if m.Str? then m else Top
  }

  predicate Inert(c: char) {
    c == ' ' || c == '\n' || c == '\t'
  }

  /** The scanner standing at i in mode m meets no comment and no triple string. */
  ghost predicate CommentFree(cfg: Config, src: string, i: nat, m: Mode)
    requires i <= |src|
    decreases |src| - i
  {
    && (m.Top? || m.Str?)
    && (i < |src| ==>
          var r := NextMove(cfg, src, i, m);
          CommentFree(cfg, src, i + |r.piece|, r.mode))
  }

  /** At top level, a character that the first pass lets through is let through again. */
  lemma PassThroughAgain(cfg: Config, src: string, out: string, i: nat)
    requires i < |src| && Fades(src, out, i) && out[i] == src[i]
    requires TopMove(cfg, src, i).piece == [src[i]]
    requires cfg.lang == Rust && At(src, i, 'b', '\'') ==> CharLitLen(src, i + 1) == 0 || out[i + 1] == ' '
    ensures TopMove(cfg, out, i) == TopMove(cfg, src, i)
  {
  }

  lemma BlankMove(cfg: Config, out: string, i: nat)
    requires i < |out| && Inert(out[i])
    ensures NextMove(cfg, out, i, Top) == Move([out[i]], Top)
  {
  }

  /** At top level, blanks are copied one by one. */
  lemma {:induction false} BlanksAgain(cfg: Config, out: string, i: nat, k: nat)
    requires i + k <= |out|
    requires forall j :: i <= j < i + k ==> Inert(out[j])
    ensures Scan(cfg, out, i, Top) == out[i..i + k] + Scan(cfg, out, i + k, Top)
    ensures CommentFree(cfg, out, i + k, Top) ==> CommentFree(cfg, out, i, Top)
    decreases k
  {
    hide NextMove;
    if k > 0 {
      BlankMove(cfg, out, i);
      var rest := Scan(cfg, out, i + 1, Top);
      assert Scan(cfg, out, i, Top) == [out[i]] + rest;
      BlanksAgain(cfg, out, i + 1, k - 1);
      assert out[i..i + k] == [out[i]] + out[i + 1..i + k];
    }
  }

  /** The text that the first pass emitted from i on, while moving from mode m, is plain blanks. */
  lemma CommentMoveIsInert(cfg: Config, src: string, i: nat, m: Mode)
    requires i < |src|
    requires var r := NextMove(cfg, src, i, m);
             m.Line? || m.Block? || m.Triple? || (m.Top? && r.piece != [src[i]])
    ensures var r := NextMove(cfg, src, i, m);
            !r.mode.Str? && forall k :: 0 <= k < |r.piece| ==> Inert(r.piece[k])
  {
  }

  /** In a string literal the second pass emits what the first did, and leaves the literal with it. */
  lemma StringMoveAgain(cfg: Config, src: string, out: string, i: nat, m: Mode)
    requires i < |src| && m.Str? && |out| == |src|
    requires var r := NextMove(cfg, src, i, m); out[i..i + |r.piece|] == r.piece
    ensures var r := NextMove(cfg, src, i, m);
            var r' := NextMove(cfg, out, i, m);
            && !r.mode.Line? && !r.mode.Block? && !r.mode.Triple?
            && if IsEscape(src, i, m) then
                 && r == Move("  ", m) && r' == Move(" ", m) && NextMove(cfg, out, i + 1, m) == Move(" ", m)
               else r == r'
  {
    var r := NextMove(cfg, src, i, m);
    assert out[i] == r.piece[0];
    if IsEscape(src, i, m) {
      assert out[i + 1] == r.piece[1];
    }
  }

  lemma ScanStep(cfg: Config, src: string, i: nat, m: Mode)
    requires i < |src|
    ensures var r := NextMove(cfg, src, i, m);
            Scan(cfg, src, i, m) == r.piece + Scan(cfg, src, i + |r.piece|, r.mode)
  {
  }

  /** Being comment-free from the next position on carries over to this one. */
  lemma CommentFreeStep(cfg: Config, src: string, i: nat, m: Mode)
    requires i < |src| && (m.Top? || m.Str?)
    requires var r := NextMove(cfg, src, i, m); CommentFree(cfg, src, i + |r.piece|, r.mode)
    ensures CommentFree(cfg, src, i, m)
  {
  }

  lemma AtEnd(cfg: Config, src: string, m: Mode)
    requires m.Top? || m.Str?
    ensures Scan(cfg, src, |src|, m) == "" && CommentFree(cfg, src, |src|, m)
  {
  }

  lemma SuffixFades(cfg: Config, src: string, out: string, i: nat, m: Mode)
    requires i <= |src| == |out| && out[i..] == Scan(cfg, src, i, m)
    ensures Fades(src, out, i)
  {
    forall k | i <= k < |src| ensures out[k] == src[k] || out[k] == ' ' {
      ScanFades(cfg, src, i, m, k - i);
      assert out[i..][k - i] == out[k];
    }
  }

  /** A let-through top-level character whose follower may start a literal. */
  lemma LetThrough(cfg: Config, src: string, out: string, i: nat)
    requires i < |src| == |out| && out[i..] == Scan(cfg, src, i, Top)
    requires TopMove(cfg, src, i).piece == [src[i]]
    ensures NextMove(cfg, out, i, Top) == NextMove(cfg, src, i, Top)
  {
    SuffixFades(cfg, src, out, i, Top);
    ScanUnfold(cfg, src, i, Top, 0);
    assert out[i..][0] == out[i];
    if cfg.lang == Rust && At(src, i, 'b', '\'') && CharLitLen(src, i + 1) > 0 {
      ScanUnfold(cfg, src, i, Top, 1);
      ScanUnfold(cfg, src, i + 1, Top, 0);
      assert out[i..][1] == out[i + 1];
    }
    PassThroughAgain(cfg, src, out, i);
  }

  /** Lock step: from any point of the first pass, the second pass reproduces the rest of its output. */
  lemma {:induction false} SecondPass(cfg: Config, src: string, out: string, i: nat, m: Mode)
    requires i <= |src| == |out| && out[i..] == Scan(cfg, src, i, m)
    ensures Scan(cfg, out, i, Shadow(m)) == out[i..]
    ensures CommentFree(cfg, out, i, Shadow(m))
    decreases |src| - i
  {
    hide NextMove, TopMove, Scan, CommentFree;
    if i == |src| {
      AtEnd(cfg, out, Shadow(m));
    } else {
      var r := NextMove(cfg, src, i, m);
      var j := i + |r.piece|;
      ScanStep(cfg, src, i, m);
      assert out[j..] == out[i..][|r.piece|..];
      assert out[i..j] == out[i..][..|r.piece|];
      SecondPass(cfg, src, out, j, r.mode);
      assert out[i..] == out[i..j] + out[j..];
      ScanStep(cfg, out, i, Shadow(m));
      if m.Str? {
        StringMoveAgain(cfg, src, out, i, m);
        if IsEscape(src, i, m) {
          ScanStep(cfg, out, i + 1, m);
          CommentFreeStep(cfg, out, i + 1, m);
        }
        CommentFreeStep(cfg, out, i, m);
      } else if m.Top? && r.piece == [src[i]] {
        LetThroughIsTop(cfg, src, i);
        LetThrough(cfg, src, out, i);
        CommentFreeStep(cfg, out, i, Top);
      } else {
        CommentMoveIsInert(cfg, src, i, m);
        BlanksAgain(cfg, out, i, |r.piece|);
      }
    }
  }

  lemma LetThroughIsTop(cfg: Config, src: string, i: nat)
    requires i < |src| && NextMove(cfg, src, i, Top).piece == [src[i]]
    ensures TopMove(cfg, src, i).piece == [src[i]]
    ensures Shadow(NextMove(cfg, src, i, Top).mode) == NextMove(cfg, src, i, Top).mode
  {
  }

  /** Sanitizing sanitized text changes nothing, and meets no comment and no triple string. */
  lemma SanitizeIsIdempotent(cfg: Config, src: string)
    ensures Sanitized(cfg, Sanitized(cfg, src)) == Sanitized(cfg, src)
    ensures CommentFree(cfg, Sanitized(cfg, src), 0, Top)
  {
    var out := Sanitized(cfg, src);
    assert out[0..] == out;
    SecondPass(cfg, src, out, 0, Top);
  }

  // ----- the loop of the script

  function Flat(pieces: seq<string>): string {
    if pieces == [] then "" else Flat(pieces[..|pieces| - 1]) + pieces[|pieces| - 1]
  }

  /** The loop's mode flags; at most one is set, and `quote` matters only while a literal is open. */
  datatype Flags = Flags(inLine: bool, inBlock: bool, inTriple: bool, inStr: bool, quote: Quote) {
    function Mode(): Mode {
      if inLine then Line
      else if inBlock then Block
      else if inTriple then Triple(quote)
      else if inStr then Str(quote)
      else Top
    }

    predicate Exclusive() {
      && (inLine ==> !inBlock && !inTriple && !inStr)
      && (inBlock ==> !inTriple && !inStr)
      && (inTriple ==> !inStr)
    }
  }

  method RustCharLitLen(src: string, i: nat) returns (len: nat)
    requires i < |src|
    ensures len == CharLitLen(src, i)
  {
    var n := |src|;
    if i + 1 >= n {
      return 0;
    }
    if src[i + 1] == '\\' {
      var j := i + 2;
      var end := Min(n, i + 12);
      while j < end && src[j] != '\''
        invariant i + 2 <= j <= n
        invariant i + 2 < n ==> j <= end && FirstTick(src, j, end) == FirstTick(src, i + 2, end)
      {
        j := j + 1;
      }
      return if j < n && src[j] == '\'' then j - i + 1 else 0;
    }
    if i + 2 < n && src[i + 2] == '\'' {
      return 3;
    }
    return 0;
  }

  /** The loop has emitted a `b` that the byte literal at i will make it blank. */
  ghost predicate Owed(cfg: Config, src: string, i: nat, m: Mode)
    requires i <= |src|
  {
    m == Top && cfg.lang == Rust && 0 < i < |src| && BytePrefix(cfg, src, i - 1)
  }

  ghost predicate Emitted(cfg: Config, src: string, pieces: seq<string>, i: nat, m: Mode)
    requires i <= |src|
  {
    && Scan(cfg, src, i, m) == Sanitized(cfg, src)[i..]
    && if Owed(cfg, src, i, m) then
         pieces != [] && pieces[|pieces| - 1] == "b"
         && Flat(pieces[..|pieces| - 1]) == Sanitized(cfg, src)[..i - 1]
         && Sanitized(cfg, src)[i - 1] == ' '
       else Flat(pieces) == Sanitized(cfg, src)[..i]
  }

  /** What the loop emits at (i, m): the reference piece, except that it lets a byte prefix through. */
  function LoopPiece(cfg: Config, src: string, i: nat, m: Mode): string
    requires i < |src|
  {
    if m.Top? && cfg.lang == Rust && BytePrefix(cfg, src, i) then "b" else NextMove(cfg, src, i, m).piece
  }

  lemma NeverOwedElsewhere(cfg: Config, src: string, i: nat, m: Mode)
    requires i < |src|
    ensures var r := NextMove(cfg, src, i, m);
            Owed(cfg, src, i + |r.piece|, r.mode) <==> m.Top? && cfg.lang == Rust && BytePrefix(cfg, src, i)
  {
  }

  lemma FlatSnoc(pieces: seq<string>, p: string)
    ensures Flat(pieces + [p]) == Flat(pieces) + p
  {
  }

  lemma Advance(cfg: Config, src: string, pieces: seq<string>, i: nat, m: Mode)
    requires i < |src| && Scan(cfg, src, i, m) == Sanitized(cfg, src)[i..]
    requires Flat(pieces) == Sanitized(cfg, src)[..i]
    ensures var r := NextMove(cfg, src, i, m);
            Emitted(cfg, src, pieces + [LoopPiece(cfg, src, i, m)], i + |r.piece|, r.mode)
  {
    hide NextMove, TopMove, Scan, BytePrefix, CharLitLen;
    var r := NextMove(cfg, src, i, m);
    var goal := Sanitized(cfg, src);
    var j := i + |r.piece|;
    ScanStep(cfg, src, i, m);
    NeverOwedElsewhere(cfg, src, i, m);
    assert goal[j..] == goal[i..][|r.piece|..];
    assert goal[i..j] == goal[i..][..|r.piece|];
    assert goal[..j] == goal[..i] + goal[i..j];
    FlatSnoc(pieces, LoopPiece(cfg, src, i, m));
    if Owed(cfg, src, j, r.mode) {
      assert (pieces + ["b"])[..|pieces|] == pieces;
      PrefixMove(cfg, src, i);
      assert goal[i] == goal[i..j][0];
    }
  }

  lemma PrefixMove(cfg: Config, src: string, i: nat)
    requires i < |src| && cfg.lang == Rust && BytePrefix(cfg, src, i)
    ensures NextMove(cfg, src, i, Top) == Move(" ", Top)
  {
  }

  /** The branches of the loop that continue a comment or a literal. */
  method ReadInside(src: string, i: nat, f: Flags, ghost cfg: Config) returns (piece: string, f': Flags)
    requires i < |src| && f.Exclusive() && f.Mode() != Top
    ensures f'.Exclusive()
    ensures Move(piece, f'.Mode()) == NextMove(cfg, src, i, f.Mode())
  {
    var c := src[i];
    f' := f;
    if f.inLine {
      piece := [Blank(c)];
      if c == '\n' {
        f' := f.(inLine := false);
      }
    } else if f.inBlock {
      if At(src, i, '*', '/') {
        piece := "  ";
        f' := f.(inBlock := false);
      } else {
        piece := [Blank(c)];
      }
    } else if f.inTriple {
      if AtThrice(src, i, f.quote) {
        piece := "   ";
        f' := f.(inTriple := false);
      } else {
        piece := [Blank(c)];
      }
    } else {
      if c == '\\' && i + 1 < |src| {
        piece := "  ";
      } else if c == f.quote || c == '\n' {
        piece := [c];
        f' := f.(inStr := false);
      } else {
        piece := [Blank(c)];
      }
    }
  }

  /** The top-level branches of the loop, up to the patch of an earlier piece. */
  method ReadTop(src: string, i: nat, f: Flags, ext: string, ghost cfg: Config)
    returns (piece: string, f': Flags, literal: nat)
    requires i < |src| && f.Exclusive() && f.Mode() == Top && cfg.lang == LangOf(ext)
    ensures f'.Exclusive()
    ensures piece == LoopPiece(cfg, src, i, Top)
    ensures f'.Mode() == NextMove(cfg, src, i, Top).mode
    ensures literal == if cfg.lang == Rust && src[i] == '\'' then CharLitLen(src, i) else 0
  {
    var c := src[i];
    var isPy, isRs, hasBt := ext == ".py", ext == ".rs", ext in [".js", ".mjs", ".ts"];
    f', literal := f, 0;
    if !isPy && At(src, i, '/', '/') {
      f' := f.(inLine := true);
      piece := "  ";
    } else if !isPy && At(src, i, '/', '*') {
      f' := f.(inBlock := true);
      piece := "  ";
    } else if isPy && c == '#' {
      f' := f.(inLine := true);
      piece := " ";
    } else if isPy && (AtThrice(src, i, '"') || AtThrice(src, i, '\'')) {
      f' := f.(inTriple := true, quote := c);
      piece := "   ";
    } else if isRs && c == '\'' {
      literal := RustCharLitLen(src, i);
      if literal > 0 {
        piece := Spaces(literal);
      } else {
        piece := [c];
      }
    } else if isRs && At(src, i, 'b', '"') {
      piece := " ";
    } else if (hasBt && c == '`') || c == '"' || c == '\'' {
      f' := f.(inStr := true, quote := c);
      piece := [c];
    } else {
      piece := [c];
    }
  }

  /** Blanking the last piece settles what a byte literal owes. */
  lemma Settle(cfg: Config, src: string, pieces: seq<string>, i: nat)
    requires i < |src| && Owed(cfg, src, i, Top) && Emitted(cfg, src, pieces, i, Top)
    ensures Flat(pieces[|pieces| - 1 := " "]) == Sanitized(cfg, src)[..i]
  {
  }

  method Sanitize(src: string, ext: string, alnum: char -> bool) returns (r: string)
    ensures r == Sanitized(Config(LangOf(ext), alnum), src)
  {
    hide Scan, NextMove, TopMove, CharLitLen, LangOf, Blank, AtThrice;
    ghost var cfg := Config(LangOf(ext), alnum);
    var pieces: seq<string> := [];
    var i := 0;
    var f := Flags(false, false, false, false, '"');

    while i < |src|
      invariant 0 <= i <= |src| && f.Exclusive()
      invariant Emitted(cfg, src, pieces, i, f.Mode())
    {
      var piece, f';
      if f.inLine || f.inBlock || f.inTriple || f.inStr {
        piece, f' := ReadInside(src, i, f, cfg);
      } else {
        var literal;
        piece, f', literal := ReadTop(src, i, f, ext, cfg);
        if literal > 0 && i > 0 && src[i - 1] == 'b'
           && (i < 2 || !(alnum(src[i - 2]) || src[i - 2] == '_')) {
          if |pieces| > 0 && pieces[|pieces| - 1] == "b" {
            Settle(cfg, src, pieces, i);
            pieces := pieces[|pieces| - 1 := " "];
          }
        }
      }
      Advance(cfg, src, pieces, i, f.Mode());
      pieces, f := pieces + [piece], f';
      i := i + |piece|;
    }
    r := Flat(pieces);
  }
}
