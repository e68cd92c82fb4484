/**
 What the sanitizer does to a text, without its modes: the text is a sequence of parts (comments, strings,
 literals and single characters of code), each of which ends where the text alone says that it does.
 */
module SanitizerParts {
  import opened Sanitizer

  datatype Kind =
    | Plain
    | LineComment
    | BlockComment
    | TripleString(quote: Quote)
    | Literal(quote: Quote)
    | CharLiteral
    | ByteMark

  /** What follows the opening of a part: its body up to `stop`, and what closes it up to `end`. */
  datatype Part = Part(kind: Kind, body: nat, stop: nat, end: nat)

  // ----- where parts begin and end

  /** This text stands at i. */
  ghost predicate Stands(src: string, i: nat, text: string) {
    i + |text| <= |src| && src[i..i + |text|] == text
  }

  function Thrice(q: char): string {
    [q, q, q]
  }

  lemma TwoStand(src: string, i: nat, a: char, b: char)
    ensures Stands(src, i, [a, b]) <==> At(src, i, a, b)
  {
    if i + 2 <= |src| {
      var s := src[i..i + 2];
      assert s[0] == src[i] && s[1] == src[i + 1];
    }
  }

  lemma ThreeStand(src: string, i: nat, q: char)
    ensures Stands(src, i, Thrice(q)) <==> AtThrice(src, i, q)
  {
    if i + 3 <= |src| {
      var s := src[i..i + 3];
      assert s[0] == src[i] && s[1] == src[i + 1] && s[2] == src[i + 2];
    }
  }

  /** The openings and closings, seen character by character. */
  lemma Openings(src: string, i: nat)
    ensures Stands(src, i, "//") <==> At(src, i, '/', '/')
    ensures Stands(src, i, "/*") <==> At(src, i, '/', '*')
    ensures Stands(src, i, "*/") <==> At(src, i, '*', '/')
    ensures Stands(src, i, "b\"") <==> At(src, i, 'b', '"')
    ensures Stands(src, i, Thrice('"')) <==> AtThrice(src, i, '"')
    ensures Stands(src, i, Thrice('\'')) <==> AtThrice(src, i, '\'')
    ensures Stands(src, i, Thrice('`')) <==> AtThrice(src, i, '`')
  {
    hide Stands, At, AtThrice;
    TwoStand(src, i, '/', '/');
    TwoStand(src, i, '/', '*');
    TwoStand(src, i, '*', '/');
    TwoStand(src, i, 'b', '"');
    ThreeStand(src, i, '"');
    ThreeStand(src, i, '\'');
    ThreeStand(src, i, '`');
  }

  /** Backslashes directly before k, not counting any before b. */
  function Slashes(src: string, b: nat, k: nat): nat
    requires b <= k <= |src|
    decreases k
  {
    if b < k && src[k - 1] == '\\' then 1 + Slashes(src, b, k - 1) else 0
  }

  /** An odd number of backslashes stands before the character at k. */
  predicate Escaped(src: string, b: nat, k: nat)
    requires b <= k <= |src|
  {
    Slashes(src, b, k) % 2 == 1
  }

  /** A string with this quote, whose text starts at b, ends with the character at k. */
  predicate Terminates(src: string, q: char, b: nat, k: nat)
    requires b <= k < |src|
  {
    (src[k] == q || src[k] == '\n') && !Escaped(src, b, k)
  }

  /** What closes a part of this kind, whose body starts at b, stands at k. */
  ghost predicate Closes(src: string, kind: Kind, b: nat, k: nat)
    requires b <= k < |src|
  {
    match kind
    case LineComment => src[k] == '\n'
    case BlockComment => Stands(src, k, "*/")
    case TripleString(q) => Stands(src, k, Thrice(q))
    case Literal(q) => Terminates(src, q, b, k)
    case _ => true
  }

  function ClosingLength(kind: Kind): nat {
    match kind
    case LineComment => 1
    case BlockComment => 2
    case TripleString(_) => 3
    case Literal(_) => 1
    case _ => 0
  }

  /** The body goes up to the first thing that closes it, or to the end of the text. */
  ghost predicate EndsRight(src: string, p: Part) {
    && p.body <= p.stop <= p.end <= |src|
    && (forall k :: p.body <= k < p.stop ==> !Closes(src, p.kind, p.body, k))
    && (if p.stop == |src| then p.end == |src|
        else Closes(src, p.kind, p.body, p.stop) && p.end == p.stop + ClosingLength(p.kind))
  }

  /** A Rust character literal from i up to e: one character, or an escape of at most ten, between quotes. */
  ghost predicate IsCharLiteral(src: string, i: nat, e: nat) {
    && i + 3 <= e <= |src| && src[i] == '\'' && src[e - 1] == '\''
    && if src[i + 1] == '\\' then e <= i + 13 && forall k :: i + 2 <= k < e - 1 ==> src[k] != '\''
       else e == i + 3
  }

  ghost predicate HasCharLiteral(src: string, i: nat) {
    exists e :: IsCharLiteral(src, i, e)
  }

  /** A part of this kind, other than code, opens at i. */
  ghost predicate OpensPart(cfg: Config, src: string, i: nat, kind: Kind)
    requires i < |src|
  {
    match kind
    case Plain => false
    case LineComment => if cfg.lang == Python then src[i] == '#' else Stands(src, i, "//")
    case BlockComment => cfg.lang != Python && Stands(src, i, "/*")
    case TripleString(q) => cfg.lang == Python && q != '`' && Stands(src, i, Thrice(q))
    case Literal(q) =>
      && src[i] == q && !(cfg.lang == Python && Stands(src, i, Thrice(q)))
      && (q == '\'' ==> cfg.lang != Rust) && (q == '`' ==> cfg.lang == Backtick)
    case CharLiteral => cfg.lang == Rust && HasCharLiteral(src, i)
    case ByteMark =>
      && cfg.lang == Rust && src[i] == 'b'
      && (Stands(src, i, "b\"")
          || (HasCharLiteral(src, i + 1)
              && (i == 0 || !(cfg.alnum(src[i - 1]) || src[i - 1] == '_'))))
  }

  function OpeningLength(cfg: Config, kind: Kind): nat {
    match kind
    case LineComment => if cfg.lang == Python then 1 else 2
    case BlockComment => 2
    case TripleString(_) => 3
    case _ => 1
  }

  /** The part that starts at i. Code is a character at which no other part opens. */
  ghost predicate IsPart(cfg: Config, src: string, i: nat, p: Part) {
    && i < |src|
    && match p.kind
       case Plain => p == Part(Plain, i + 1, i + 1, i + 1) && forall kind :: !OpensPart(cfg, src, i, kind)
       case ByteMark => p == Part(ByteMark, i + 1, i + 1, i + 1) && OpensPart(cfg, src, i, ByteMark)
       case CharLiteral =>
         p == Part(CharLiteral, p.end, p.end, p.end) && cfg.lang == Rust && IsCharLiteral(src, i, p.end)
       case _ => OpensPart(cfg, src, i, p.kind) && p.body == i + OpeningLength(cfg, p.kind) && EndsRight(src, p)
  }

  // ----- what is left of a part

  function Blanked(s: string): (r: string)
    ensures |r| == |s|
  {
    seq(|s|, k requires 0 <= k < |s| => Blank(s[k]))
  }

  /** The text of a string from j up to `stop`: blank, and so is a newline or tab that is escaped. */
  function Faded(src: string, b: nat, j: nat, stop: nat): (r: string)
    requires b <= j <= stop <= |src|
    ensures |r| == stop - j
  {
    seq(stop - j, k requires 0 <= k < stop - j => if Escaped(src, b, j + k) then ' ' else Blank(src[j + k]))
  }

  /** Comments and triple strings go, but for line ends and tabs; strings keep what encloses them. */
  function Shown(src: string, i: nat, p: Part): (r: string)
    requires i <= p.body <= p.stop <= p.end <= |src|
  {
    match p.kind
    case Plain => src[i..p.end]
    case LineComment => Spaces(p.body - i) + Blanked(src[p.body..p.stop]) + src[p.stop..p.end]
    case Literal(_) => src[i..p.body] + Faded(src, p.body, p.body, p.stop) + src[p.stop..p.end]
    case _ => Spaces(p.body - i) + Blanked(src[p.body..p.stop]) + Spaces(p.end - p.stop)
  }

  // ----- the scanner follows the parts

  /** The scanner's mode in the body of a part. */
  function ModeOf(kind: Kind): Mode {
    match kind
    case LineComment => Line
    case BlockComment => Block
    case TripleString(q) => Triple(q)
    case Literal(q) => Str(q)
    case _ => Top
  }

  predicate IsComment(kind: Kind) {
    kind.LineComment? || kind.BlockComment? || kind.TripleString?
  }

  /** What is left of what closes a part. */
  function Closing(src: string, p: Part): string
    requires p.stop <= p.end <= |src|
  {
    if p.kind.LineComment? || p.kind.Literal? then src[p.stop..p.end] else Spaces(p.end - p.stop)
  }

  lemma BodyMove(cfg: Config, src: string, p: Part, j: nat)
    requires IsComment(p.kind) && EndsRight(src, p) && p.body <= j < p.stop
    ensures NextMove(cfg, src, j, ModeOf(p.kind)) == Move([Blank(src[j])], ModeOf(p.kind))
  {
    hide Stands;
    Openings(src, j);
    assert !Closes(src, p.kind, p.body, j);
  }

  lemma ClosingMove(cfg: Config, src: string, p: Part)
    requires (IsComment(p.kind) || p.kind.Literal?) && EndsRight(src, p) && p.stop < |src|
    ensures NextMove(cfg, src, p.stop, ModeOf(p.kind)) == Move(Closing(src, p), Top)
    ensures |Closing(src, p)| == p.end - p.stop
  {
    hide Stands;
    Openings(src, p.stop);
    assert Closes(src, p.kind, p.body, p.stop);
    var piece := src[p.stop..p.end];
    assert p.kind.Literal? || p.kind.LineComment? ==> |piece| == 1 && piece[0] == src[p.stop];
    assert Spaces(2) == "  " && Spaces(3) == "   ";
  }

  lemma ScanClosing(cfg: Config, src: string, p: Part)
    requires (IsComment(p.kind) || p.kind.Literal?) && EndsRight(src, p)
    ensures Scan(cfg, src, p.stop, ModeOf(p.kind)) == Closing(src, p) + Scan(cfg, src, p.end, Top)
  {
    hide NextMove, Closes;
    if p.stop < |src| {
      ClosingMove(cfg, src, p);
    }
  }

  /** From a position in its body to where it ends, a comment or triple string is blanked. */
  lemma {:induction false} ScanBody(cfg: Config, src: string, p: Part, j: nat)
    requires IsComment(p.kind) && EndsRight(src, p) && p.body <= j <= p.stop
    ensures Scan(cfg, src, j, ModeOf(p.kind)) ==
            Blanked(src[j..p.stop]) + (Closing(src, p) + Scan(cfg, src, p.end, Top))
    decreases p.stop - j
  {
    hide NextMove, Closes, ModeOf, Blank, Closing;
    if j == p.stop {
      ScanClosing(cfg, src, p);
    } else {
      BodyMove(cfg, src, p, j);
      ScanBody(cfg, src, p, j + 1);
      assert Blanked(src[j..p.stop]) == [Blank(src[j])] + Blanked(src[j + 1..p.stop]);
    }
  }

  lemma FadedFrom(src: string, b: nat, j: nat, stop: nat)
    requires b <= j < stop <= |src|
    ensures Faded(src, b, j, stop) == [if Escaped(src, b, j) then ' ' else Blank(src[j])] + Faded(src, b, j + 1, stop)
  {
    hide Escaped, Blank;
  }

  /** From an unescaped position of a string to where it ends. */
  lemma {:induction false} ScanString(cfg: Config, src: string, p: Part, j: nat)
    requires p.kind.Literal? && EndsRight(src, p) && p.body <= j <= p.stop && !Escaped(src, p.body, j)
    ensures Scan(cfg, src, j, ModeOf(p.kind)) ==
            Faded(src, p.body, j, p.stop) + (Closing(src, p) + Scan(cfg, src, p.end, Top))
    decreases p.stop - j
  {
    hide NextMove, Closes, ModeOf, Blank, Closing, Faded, Escaped;
    var b := p.body;
    if j == p.stop {
      ScanClosing(cfg, src, p);
    } else {
      FadedFrom(src, b, j, p.stop);
      StringMove(cfg, src, p, j);
      if src[j] == '\\' && j + 1 < |src| {
        FadedFrom(src, b, j + 1, p.stop);
        ScanString(cfg, src, p, j + 2);
      } else if j + 1 < |src| {
        ScanString(cfg, src, p, j + 1);
      } else {
        ScanClosing(cfg, src, p);
      }
    }
  }

  lemma StringMove(cfg: Config, src: string, p: Part, j: nat)
    requires p.kind.Literal? && EndsRight(src, p) && p.body <= j < p.stop && !Escaped(src, p.body, j)
    ensures var m := ModeOf(p.kind);
            if src[j] == '\\' && j + 1 < |src| then
              && NextMove(cfg, src, j, m) == Move("  ", m) && j + 2 <= p.stop && Blank(src[j]) == ' '
              && Escaped(src, p.body, j + 1) && !Escaped(src, p.body, j + 2)
            else
              && NextMove(cfg, src, j, m) == Move([Blank(src[j])], m)
              && (j + 1 < |src| ==> !Escaped(src, p.body, j + 1))
  {
    assert !Closes(src, p.kind, p.body, j);
    assert Slashes(src, p.body, j + 1) == if src[j] == '\\' then 1 + Slashes(src, p.body, j) else 0;
    EndsUnescaped(src, p);
  }

  lemma EndsUnescaped(src: string, p: Part)
    requires p.kind.Literal? && EndsRight(src, p)
    ensures p.stop < |src| ==> !Escaped(src, p.body, p.stop)
  {
    hide Escaped;
    assert p.stop < |src| ==> Closes(src, p.kind, p.body, p.stop);
  }

  lemma OpeningMove(cfg: Config, src: string, i: nat, p: Part)
    requires IsPart(cfg, src, i, p) && (IsComment(p.kind) || p.kind.Literal?)
    ensures i < p.body <= p.stop <= p.end <= |src| && EndsRight(src, p)
    ensures TopMove(cfg, src, i) ==
            Move(if p.kind.Literal? then src[i..p.body] else Spaces(p.body - i), ModeOf(p.kind))
  {
    hide CharLitLen, IsCharLiteral, Closes, Stands;
    Openings(src, i);
    assert Spaces(1) == " " && Spaces(2) == "  " && Spaces(3) == "   ";
    match p.kind
    case Literal(q) => assert src[i..p.body] == [src[i]];
    case _ =>
  }

  /** The scanner, outside of comments and strings, shows the part that starts there and is outside again after it. */
  lemma PartIsShown(cfg: Config, src: string, i: nat, p: Part)
    requires IsPart(cfg, src, i, p)
    ensures i < p.end <= |src| && i <= p.body <= p.stop <= p.end
    ensures Scan(cfg, src, i, Top) == Shown(src, i, p) + Scan(cfg, src, p.end, Top)
  {
    hide IsPart, Blanked, Faded, EndsRight, TopMove, ModeOf, Scan;
    if IsComment(p.kind) {
      OpeningMove(cfg, src, i, p);
      ScanStep(cfg, src, i);
      ScanBody(cfg, src, p, p.body);
    } else if p.kind.Literal? {
      OpeningMove(cfg, src, i, p);
      ScanStep(cfg, src, i);
      ScanString(cfg, src, p, p.body);
    } else {
      OneMove(cfg, src, i, p);
    }
  }

  /** A character literal by its length. */
  lemma CharLiteralIs(src: string, i: nat, e: nat)
    requires i < |src| && src[i] == '\''
    ensures IsCharLiteral(src, i, e) <==> CharLitLen(src, i) > 0 && e == i + CharLitLen(src, i)
  {
  }

  lemma CharLiterals(cfg: Config, src: string, i: nat)
    requires i < |src|
    ensures HasCharLiteral(src, i) <==> src[i] == '\'' && CharLitLen(src, i) > 0
  {
    hide CharLitLen, IsCharLiteral;
    if src[i] == '\'' {
      CharLiteralIs(src, i, i + CharLitLen(src, i));
      forall e: nat | IsCharLiteral(src, i, e) ensures CharLitLen(src, i) > 0 {
        CharLiteralIs(src, i, e);
      }
    } else {
      forall e: nat ensures !IsCharLiteral(src, i, e) {
        NoQuoteNoLiteral(src, i, e);
      }
    }
  }

  lemma NoQuoteNoLiteral(src: string, i: nat, e: nat)
    requires i < |src| && src[i] != '\''
    ensures !IsCharLiteral(src, i, e)
  {
  }

  lemma ByteMarkIs(cfg: Config, src: string, i: nat)
    requires i < |src| && cfg.lang == Rust
    ensures OpensPart(cfg, src, i, ByteMark) <==> At(src, i, 'b', '"') || BytePrefix(cfg, src, i)
  {
    hide CharLitLen, IsCharLiteral, Stands;
    Openings(src, i);
    if i + 1 < |src| {
      CharLiterals(cfg, src, i + 1);
    } else {
      TooShort(src, i + 1);
    }
  }

  lemma TooShort(src: string, i: nat)
    requires i >= |src|
    ensures !HasCharLiteral(src, i)
  {
  }

  /** Code, character literals and byte prefixes are read in one move. */
  lemma OneMove(cfg: Config, src: string, i: nat, p: Part)
    requires IsPart(cfg, src, i, p) && (p.kind.Plain? || p.kind.CharLiteral? || p.kind.ByteMark?)
    ensures i < p.end <= |src| && i <= p.body <= p.stop <= p.end
    ensures Scan(cfg, src, i, Top) == Shown(src, i, p) + Scan(cfg, src, p.end, Top)
  {
    hide CharLitLen, IsCharLiteral, Scan, Stands;
    Openings(src, i);
    ScanStep(cfg, src, i);
    CharLiterals(cfg, src, i);
    if cfg.lang == Rust {
      ByteMarkIs(cfg, src, i);
    }
    if p.kind.CharLiteral? {
      LiteralEnds(src, i, p.end);
      CharLiteralIs(src, i, p.end);
      assert Spaces(p.end - i) + Blanked(src[p.end..p.end]) + Spaces(0) == Spaces(p.end - i);
    } else if p.kind.ByteMark? {
      assert Spaces(1) + Blanked(src[i + 1..i + 1]) + Spaces(0) == " ";
    } else {
      PlainMove(cfg, src, i);
      assert src[i..i + 1] == [src[i]];
    }
  }

  lemma ScanStep(cfg: Config, src: string, i: nat)
    requires i < |src|
    ensures var r := TopMove(cfg, src, i);
            Scan(cfg, src, i, Top) == r.piece + Scan(cfg, src, i + |r.piece|, r.mode)
  {
    hide TopMove;
  }

  lemma LiteralEnds(src: string, i: nat, e: nat)
    requires IsCharLiteral(src, i, e)
    ensures i < e <= |src| && src[i] == '\''
  {
  }

  lemma PlainMove(cfg: Config, src: string, i: nat)
    requires i < |src| && forall kind :: !OpensPart(cfg, src, i, kind)
    ensures TopMove(cfg, src, i) == Move([src[i]], Top)
  {
    hide CharLitLen, IsCharLiteral, Stands;
    Openings(src, i);
    CharLiterals(cfg, src, i);
    if cfg.lang == Rust {
      ByteMarkIs(cfg, src, i);
    }
    assert !OpensPart(cfg, src, i, LineComment) && !OpensPart(cfg, src, i, BlockComment);
    assert !OpensPart(cfg, src, i, CharLiteral) && !OpensPart(cfg, src, i, ByteMark);
    assert !OpensPart(cfg, src, i, TripleString('"')) && !OpensPart(cfg, src, i, TripleString('\''));
    assert !OpensPart(cfg, src, i, Literal('"')) && !OpensPart(cfg, src, i, Literal('\''));
    assert !OpensPart(cfg, src, i, Literal('`'));
  }

  // ----- the whole text

  /** The text from i on is these parts. */
  ghost predicate Divides(cfg: Config, src: string, i: nat, ps: seq<Part>)
    decreases |ps|
  {
    if ps == [] then i == |src| else IsPart(cfg, src, i, ps[0]) && Divides(cfg, src, ps[0].end, ps[1..])
  }

  ghost function ShownAll(cfg: Config, src: string, i: nat, ps: seq<Part>): string
    requires Divides(cfg, src, i, ps)
    decreases |ps|
  {
    if ps == [] then ""
    else
      PartIsShown(cfg, src, i, ps[0]);
      Shown(src, i, ps[0]) + ShownAll(cfg, src, ps[0].end, ps[1..])
  }

  lemma {:induction false} ScanShowsAll(cfg: Config, src: string, i: nat, ps: seq<Part>)
    requires Divides(cfg, src, i, ps)
    ensures i <= |src| && Scan(cfg, src, i, Top) == ShownAll(cfg, src, i, ps)
    decreases |ps|
  {
    hide IsPart, Shown;
    if ps != [] {
      PartIsShown(cfg, src, i, ps[0]);
      ScanShowsAll(cfg, src, ps[0].end, ps[1..]);
    }
  }

  /** The output for a text is what is left of its parts, however it is divided into them. */
  lemma SanitizedByParts(cfg: Config, src: string, ps: seq<Part>)
    requires Divides(cfg, src, 0, ps)
    ensures Sanitized(cfg, src) == ShownAll(cfg, src, 0, ps)
  {
    hide Divides, ShownAll, Scan;
    ScanShowsAll(cfg, src, 0, ps);
  }

  lemma SameKind(cfg: Config, src: string, i: nat, p: Part, q: Part)
    requires IsPart(cfg, src, i, p) && IsPart(cfg, src, i, q)
    ensures p.kind == q.kind
  {
    hide IsCharLiteral, EndsRight, Stands;
    Openings(src, i);
    KindOpens(cfg, src, i, p);
    KindOpens(cfg, src, i, q);
    if i < |src| && cfg.lang == Rust {
      CharLiterals(cfg, src, i);
    }
  }

  lemma KindOpens(cfg: Config, src: string, i: nat, p: Part)
    requires IsPart(cfg, src, i, p)
    ensures !p.kind.Plain? ==> OpensPart(cfg, src, i, p.kind)
  {
  }

  lemma SameEnd(src: string, p: Part, q: Part)
    requires EndsRight(src, p) && EndsRight(src, q) && p.kind == q.kind && p.body == q.body
    ensures p == q
  {
    hide Closes;
  }

  /** At most one part starts at a position. */
  lemma PartIsUnique(cfg: Config, src: string, i: nat, p: Part, q: Part)
    requires IsPart(cfg, src, i, p) && IsPart(cfg, src, i, q)
    ensures p == q
  {
    hide EndsRight, OpensPart, IsCharLiteral;
    SameKind(cfg, src, i, p, q);
    if p.kind.CharLiteral? {
      LiteralEnds(src, i, p.end);
      CharLiteralIs(src, i, p.end);
      CharLiteralIs(src, i, q.end);
    } else if IsComment(p.kind) || p.kind.Literal? {
      SameEnd(src, p, q);
    }
  }

  /** The first position from k on where a part of this kind closes, or the end of the text. */
  ghost function FirstClosing(src: string, kind: Kind, b: nat, k: nat): (r: nat)
    requires b <= k <= |src|
    ensures k <= r <= |src| && (r < |src| ==> Closes(src, kind, b, r))
    ensures forall j :: k <= j < r ==> !Closes(src, kind, b, j)
    decreases |src| - k
  {
    if k == |src| || Closes(src, kind, b, k) then k else FirstClosing(src, kind, b, k + 1)
  }

  /** Some part starts at every position. */
  lemma PartExists(cfg: Config, src: string, i: nat) returns (p: Part)
    requires i < |src|
    ensures IsPart(cfg, src, i, p)
  {
    hide CharLitLen, IsCharLiteral, Closes;
    if kind :| OpensPart(cfg, src, i, kind) {
      if kind.ByteMark? {
        p := Part(ByteMark, i + 1, i + 1, i + 1);
      } else if kind.CharLiteral? {
        var e :| IsCharLiteral(src, i, e);
        p := Part(CharLiteral, e, e, e);
      } else {
        p := FromOpening(cfg, src, i, kind);
      }
    } else {
      p := Part(Plain, i + 1, i + 1, i + 1);
    }
  }

  lemma FromOpening(cfg: Config, src: string, i: nat, kind: Kind) returns (p: Part)
    requires i < |src| && OpensPart(cfg, src, i, kind) && (IsComment(kind) || kind.Literal?)
    ensures p.kind == kind && p.body == i + OpeningLength(cfg, kind) && EndsRight(src, p)
  {
    var b := i + OpeningLength(cfg, kind);
    var stop := FirstClosing(src, kind, b, b);
    p := Part(kind, b, stop, if stop == |src| then stop else stop + ClosingLength(kind));
  }

  /** Every text divides into parts. */
  lemma {:induction false} DivisionExists(cfg: Config, src: string, i: nat) returns (ps: seq<Part>)
    requires i <= |src|
    ensures Divides(cfg, src, i, ps)
    decreases |src| - i
  {
    hide IsPart;
    if i == |src| {
      ps := [];
    } else {
      var p := PartExists(cfg, src, i);
      PartIsShown(cfg, src, i, p);
      var rest := DivisionExists(cfg, src, p.end);
      ps := [p] + rest;
    }
  }

  /** For example, a line comment up to its newline, after which the scanner is outside again. */
  lemma CommentLine(cfg: Config, src: string, i: nat, e: nat)
    requires cfg.lang != Python && At(src, i, '/', '/') && i + 2 <= e < |src|
    requires src[e] == '\n' && forall k :: i + 2 <= k < e ==> src[k] != '\n'
    ensures Scan(cfg, src, i, Top) == Spaces(2) + Blanked(src[i + 2..e]) + src[e..e + 1] + Scan(cfg, src, e + 1, Top)
  {
    hide Scan, Blanked, Spaces, Stands;
    Openings(src, i);
    PartIsShown(cfg, src, i, Part(LineComment, i + 2, e, e + 1));
  }

  /** For example, the Rust literal of a quote is taken to end at the quote that it escapes. */
  lemma QuoteLiteral(alnum: char -> bool)
    ensures Sanitized(Config(Rust, alnum), "'\\'';") == "   ';"
  {
  }
}
