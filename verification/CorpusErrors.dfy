/** Which line the corpus parser blames, for texts whose lines before it are in order. */
module CorpusErrors {
  import opened Words
  import opened Text
  import opened Digits
  import opened Hex
  import opened Corpus
  import opened CorpusRoundTrip

  // ----- blank lines and numbers

  lemma {:induction false} DropAppend(a: seq<string>, b: seq<string>)
    ensures DropBlank(a + b) == DropBlank(a) + DropBlank(b)
    decreases |a|
  {
    hide Blank;
    if a == [] {
      assert a + b == b;
    } else {
      assert (a + b)[1..] == a[1..] + b;
      DropAppend(a[1..], b);
    }
  }

  lemma {:induction false} NonBlankAppend(a: seq<Numbered>, b: seq<Numbered>)
    ensures NonBlank(a + b) == NonBlank(a) + NonBlank(b)
    decreases |a|
  {
    hide Blank;
    if a == [] {
      assert a + b == b;
    } else {
      assert (a + b)[1..] == a[1..] + b;
      NonBlankAppend(a[1..], b);
    }
  }

  /** The lines that count, around the one at b. */
  lemma SplitAt(body: seq<string>, from: nat, b: nat)
    requires b < |body| && !Blank(body[b])
    ensures NonBlank(Number(body, from)) ==
            NonBlank(Number(body[..b], from))
            + ([Numbered(from + b, body[b])] + NonBlank(Number(body[b + 1..], from + b + 1)))
  {
    hide Blank, NonBlank;
    var here := [Numbered(from + b, body[b])];
    assert Number(body, from) == Number(body[..b], from) + (here + Number(body[b + 1..], from + b + 1));
    NonBlankAppend(Number(body[..b], from), here + Number(body[b + 1..], from + b + 1));
    NonBlankAppend(here, Number(body[b + 1..], from + b + 1));
    OneNonBlank(here[0]);
  }

  lemma OneNonBlank(line: Numbered)
    requires !Blank(line.line)
    ensures NonBlank([line]) == [line]
  {
    hide Blank;
    var one := [line];
    assert one[1..] == [];
  }

  // ----- cases in order, and what comes after them

  function After(cases: seq<Case>, r: Result<seq<Case>>): Result<seq<Case>> {
    match r
    case Err(line) => Err(line)
    case Ok(rest) => Ok(cases + rest)
  }

  lemma AfterAfter(a: seq<Case>, b: seq<Case>, r: Result<seq<Case>>)
    ensures After(a, After(b, r)) == After(a + b, r)
  {
    if r.Ok? {
      assert a + (b + r.value) == a + b + r.value;
    }
  }

  lemma AfterNothing(r: Result<seq<Case>>)
    ensures After([], r) == r
  {
    if r.Ok? {
      assert [] + r.value == r.value;
    }
  }

  lemma CaseThen(lines: seq<Numbered>, pool: Pool, h: Header, rows: seq<Row>)
    requires lines != [] && ParseInstr(lines[0].line) == Some(h)
    requires ParseRows(h, lines[1..], h.rowCount, pool, lines[0].no + 1) == Ok(rows)
    ensures ParseCases(lines, pool) == After([CaseOf(h, rows)], ParseCases(lines[1 + h.rowCount..], pool))
  {
    hide ParseInstr, ParseRows, CaseOf;
  }

  /** Printed cases parse, and the parse goes on after them. */
  lemma {:induction false} CasesThen(cases: seq<CaseDoc>, lines: seq<Numbered>, tail: seq<Numbered>, pool: Pool)
    requires Fits(pool, cases) && Reads(lines, PrintCases(cases))
    ensures ParseCases(lines + tail, pool) == After(Meaning(cases, pool), ParseCases(tail, pool))
    decreases |cases|
  {
    hide ParseInstr, PrintCase, ParseRows, CaseMeaning, CaseFits, ParseCases;
    if cases == [] {
      assert lines + tail == tail;
      AfterNothing(ParseCases(tail, pool));
    } else {
      var c := cases[0];
      var n := |PrintCase(c)|;
      var all := lines + tail;
      PrintCaseLength(c);
      assert PrintCases(cases) == PrintCase(c) + PrintCases(cases[1..]);
      assert all[..n] == lines[..n] && all[n..] == lines[n..] + tail;
      assert Reads(lines[..n], PrintCase(c)) && Reads(lines[n..], PrintCases(cases[1..]));
      assert CaseFits(c, pool);
      CaseBack(c, all, pool);
      CasesThen(cases[1..], lines[n..], tail, pool);
      CaseThen(all, pool, HeaderMeaning(c), CaseMeaning(c, pool).rows);
      CaseOfIs(c, pool);
      AfterAfter([CaseMeaning(c, pool)], Meaning(cases[1..], pool), ParseCases(tail, pool));
      assert Meaning(cases, pool) == [CaseMeaning(c, pool)] + Meaning(cases[1..], pool);
    }
  }

  // ----- the texts

  /** The text of a pool and the lines after it. */
  function Document(pool: Pool, body: seq<string>): string {
    Unlines(["data:" + Numeral(|pool|, 10, false)] + PrintPool(pool) + body)
  }

  /** The number of line b of the body, counted from 1 in the whole text. */
  function LineOf(pool: Pool, b: nat): nat {
    1 + |pool| + b + 1
  }

  lemma DocumentParses(pool: Pool, body: seq<string>)
    requires |pool| < TWO64 && PlainLines(body) && (body == [] || StripPrefix(Trim(body[0]), "#").None?)
    ensures ParseText(Document(pool, body)) == ParseCases(NonBlank(Number(body, 1 + |pool|)), pool)
  {
    hide Numeral, PrintPool, ParseCases, ParseDocument, Trim, StripPrefix, Lines, Unlines, Number, NonBlank;
    var lines := ["data:" + Numeral(|pool|, 10, false)] + PrintPool(pool) + body;
    HeadIsPlain(pool);
    PlainAppend(["data:" + Numeral(|pool|, 10, false)] + PrintPool(pool), body);
    LinesUnlines(lines);
    DocumentStarts(pool, body);
  }

  predicate StartsWith(line: string, prefix: string) {
    prefix <= Trim(line)
  }

  lemma StartsIs(line: string, prefix: string)
    ensures StartsWith(line, prefix) <==> StripPrefix(Trim(line), prefix).Some?
  {
    hide Trim;
  }

  lemma BlankStartsNothing(line: string)
    requires Blank(line)
    ensures !StartsWith(line, "#")
  {
  }

  /** A body whose first line is blank or of a printed case goes on after the pool. */
  lemma NoPoolLine(pool: Pool, cases: seq<CaseDoc>, more: seq<string>, body: seq<string>)
    requires Fits(pool, cases) && body != [] && DropBlank(body) == PrintCases(cases) + more
    requires cases == [] && more != [] ==> !StartsWith(more[0], "#")
    ensures StripPrefix(Trim(body[0]), "#").None?
  {
    hide PrintHeader, Trim, StripPrefix, StartsWith;
    StartsIs(body[0], "#");
    if Blank(body[0]) {
      BlankStartsNothing(body[0]);
    } else {
      assert body[0] == DropBlank(body)[0];
      if cases != [] {
        assert PrintCases(cases)[0] == PrintHeader(cases[0]);
        HeaderIsNoPool(cases[0], pool);
      }
    }
  }

  lemma HeaderIsNoPool(c: CaseDoc, pool: Pool)
    requires CaseFits(c, pool)
    ensures StripPrefix(Trim(PrintHeader(c)), "#").None?
  {
    hide PrintHeader;
    HeaderIsClean(c);
    TrimTrimmed(PrintHeader(c));
    HeaderStartsWithI(c);
  }

  /** After cases in order, a line that is no `instr:` line is the one to blame. */
  lemma StrayLineIsBlamed(pool: Pool, cases: seq<CaseDoc>, body: seq<string>, b: nat)
    requires Fits(pool, cases) && PlainLines(body) && b < |body| && DropBlank(body[..b]) == PrintCases(cases)
    requires !Blank(body[b]) && !StartsWith(body[b], "instr:")
    requires cases == [] ==> !StartsWith(body[b], "#")
    ensures ParseText(Document(pool, body)) == Err(LineOf(pool, b))
  {
    hide PrintCases, ParseCases, ParseText, Document, Meaning, Blank, StartsWith, DropBlank, NonBlank, Number, Reads,
      Trim, StripPrefix;
    var from := 1 + |pool|;
    var lines, here := NonBlank(Number(body[..b], from)), Numbered(from + b, body[b]);
    var tail := [here] + NonBlank(Number(body[b + 1..], from + b + 1));
    BodyStarts(pool, cases, body, b);
    DocumentParses(pool, body);
    SplitAt(body, from, b);
    NonBlankReads(body[..b], from);
    CasesThen(cases, lines, tail, pool);
    StrayFails(tail, pool);
  }

  lemma BodyStarts(pool: Pool, cases: seq<CaseDoc>, body: seq<string>, b: nat)
    requires Fits(pool, cases) && b < |body| && DropBlank(body[..b]) == PrintCases(cases) && !Blank(body[b])
    requires cases == [] ==> !StartsWith(body[b], "#")
    ensures StripPrefix(Trim(body[0]), "#").None?
  {
    hide PrintCases, Blank, StartsWith, DropBlank, Trim, StripPrefix;
    assert body == body[..b] + ([body[b]] + body[b + 1..]);
    DropAppend(body[..b], [body[b]] + body[b + 1..]);
    DropFirst(body[b], body[b + 1..]);
    NoPoolLine(pool, cases, [body[b]] + DropBlank(body[b + 1..]), body);
  }

  lemma DropFirst(line: string, rest: seq<string>)
    requires !Blank(line)
    ensures DropBlank([line] + rest) == [line] + DropBlank(rest)
  {
    hide Blank;
    assert ([line] + rest)[1..] == rest;
  }

  lemma StrayFails(tail: seq<Numbered>, pool: Pool)
    requires tail != [] && !StartsWith(tail[0].line, "instr:")
    ensures ParseCases(tail, pool) == Err(tail[0].no + 1)
  {
    hide Trim, StripPrefix, StartsWith;
    StartsIs(tail[0].line, "instr:");
  }

  // ----- errors among the rows of a case

  /** The lines of a case up to its row k. */
  function FirstLines(c: CaseDoc, k: nat): seq<string>
    requires k <= |c.rows|
  {
    PrintCase(c)[..1 + k]
  }

  /** Rows in order up to row k, and then: a line that is no row, or nothing. */
  lemma {:induction false} RowsFail(c: CaseDoc, i: nat, k: nat, lines: seq<Numbered>, tail: seq<Numbered>, pool: Pool,
                                    at: nat)
    requires |pool| < TWO64 && CaseFits(c, pool) && i <= k < |c.rows| && |lines| == k - i
    requires forall j :: 0 <= j < k - i ==> lines[j].line == PrintRow(c.rows[i + j])
    requires tail != [] ==> ParseRow(HeaderMeaning(c), tail[0].line, pool).None?
    ensures ParseRows(HeaderMeaning(c), lines + tail, |c.rows| - i, pool, at) ==
            Err(if tail == [] then at else tail[0].no + 1)
    decreases k - i
  {
    hide ParseRow, PrintRow, RowMeaning, RowFits;
    if i == k {
      assert lines + tail == tail;
    } else {
      assert lines[0].line == PrintRow(c.rows[i + 0]);
      RowBack(c.rows[i], c, pool);
      assert (lines + tail)[0] == lines[0] && (lines + tail)[1..] == lines[1..] + tail;
      RowsFail(c, i + 1, k, lines[1..], tail, pool, at);
    }
  }

  lemma RowsErr(lines: seq<Numbered>, pool: Pool, h: Header, line: nat)
    requires lines != [] && ParseInstr(lines[0].line) == Some(h)
    requires ParseRows(h, lines[1..], h.rowCount, pool, lines[0].no + 1) == Err(line)
    ensures ParseCases(lines, pool) == Err(line)
  {
    hide ParseInstr, ParseRows;
  }

  lemma CaseFails(c: CaseDoc, k: nat, lines: seq<Numbered>, tail: seq<Numbered>, pool: Pool)
    requires |pool| < TWO64 && CaseFits(c, pool) && k < |c.rows| && Reads(lines, FirstLines(c, k))
    requires tail != [] ==> ParseRow(HeaderMeaning(c), tail[0].line, pool).None?
    ensures ParseCases(lines + tail, pool) == Err(if tail == [] then lines[0].no + 1 else tail[0].no + 1)
  {
    hide ParseRow, PrintRow, PrintHeader, ParseInstr, ParseRows, ParseCases, RowFits, RowMeaning;
    var all := lines + tail;
    PrintCaseLength(c);
    assert lines[0].line == PrintCase(c)[0] == PrintHeader(c);
    forall j | 0 <= j < k ensures lines[1..][j].line == PrintRow(c.rows[0 + j]) {
      assert lines[1 + j].line == PrintCase(c)[1 + j];
    }
    InstrBack(c);
    RowsFail(c, 0, k, lines[1..], tail, pool, lines[0].no + 1);
    assert all[0] == lines[0] && all[1..] == lines[1..] + tail;
    RowsErr(all, pool, HeaderMeaning(c), if tail == [] then lines[0].no + 1 else tail[0].no + 1);
  }

  /** After cases in order and the first rows of another, a line without a bar is the one to blame. */
  lemma BadRowIsBlamed(pool: Pool, cases: seq<CaseDoc>, c: CaseDoc, k: nat, body: seq<string>, b: nat)
    requires Fits(pool, cases + [c]) && PlainLines(body) && b < |body| && k < |c.rows|
    requires DropBlank(body[..b]) == PrintCases(cases) + FirstLines(c, k) && !Blank(body[b]) && '|' !in body[b]
    ensures ParseText(Document(pool, body)) == Err(LineOf(pool, b))
  {
    hide PrintCases, ParseCases, ParseText, Document, Meaning, Blank, DropBlank, NonBlank, Number, Reads, Trim,
      StripPrefix, FirstLines, ParseRow, CaseFits;
    var from := 1 + |pool|;
    var here := Numbered(from + b, body[b]);
    var tail := [here] + NonBlank(Number(body[b + 1..], from + b + 1));
    FitsSplit(pool, cases, c);
    RowBodyStarts(pool, cases, c, k, body, b);
    DocumentParses(pool, body);
    SplitAt(body, from, b);
    NonBlankReads(body[..b], from);
    var good, first := ReadsSplit(NonBlank(Number(body[..b], from)), PrintCases(cases), FirstLines(c, k));
    NoBarNoRow(HeaderMeaning(c), body[b], pool);
    CaseFails(c, k, first, tail, pool);
    CasesThen(cases, good, first + tail, pool);
    assert good + first + tail == good + (first + tail);
  }

  lemma NoBarNoRow(h: Header, line: string, pool: Pool)
    requires '|' !in line
    ensures ParseRow(h, line, pool).None?
  {
    hide ParseIndices, Bind, ParseOutcome;
    TrimIsPart(line);
    assert '|' !in Trim(line);
    hide Trim;
  }

  lemma {:induction false} TrimStartIsPart(s: string)
    ensures forall c :: c in TrimStart(s) ==> c in s
  {
    hide IsWhite;
    if s != "" && IsWhite(s[0]) {
      TrimStartIsPart(s[1..]);
    }
  }

  lemma TrimIsPart(s: string)
    ensures forall c :: c in Trim(s) ==> c in s
  {
    hide TrimStart;
    TrimStartIsPart(s);
  }

  lemma FitsSplit(pool: Pool, cases: seq<CaseDoc>, c: CaseDoc)
    requires Fits(pool, cases + [c])
    ensures Fits(pool, cases) && CaseFits(c, pool) && |pool| < TWO64
  {
    hide CaseFits;
    assert (cases + [c])[|cases|] == c;
    assert forall k :: 0 <= k < |cases| ==> (cases + [c])[k] == cases[k];
  }

  lemma ReadsSplit(lines: seq<Numbered>, a: seq<string>, b: seq<string>) returns (x: seq<Numbered>, y: seq<Numbered>)
    requires Reads(lines, a + b)
    ensures lines == x + y && Reads(x, a) && Reads(y, b)
  {
    x, y := lines[..|a|], lines[|a|..];
    assert forall k :: 0 <= k < |b| ==> (a + b)[|a| + k] == b[k];
  }

  lemma RowBodyStarts(pool: Pool, cases: seq<CaseDoc>, c: CaseDoc, k: nat, body: seq<string>, b: nat)
    requires Fits(pool, cases) && CaseFits(c, pool) && k <= |c.rows| && b <= |body| && body != []
    requires DropBlank(body[..b]) == PrintCases(cases) + FirstLines(c, k)
    ensures StripPrefix(Trim(body[0]), "#").None?
  {
    hide PrintCases, Blank, DropBlank, Trim, StripPrefix, CaseFits, PrintHeader, PrintRow;
    var more := FirstLines(c, k) + DropBlank(body[b..]);
    assert body == body[..b] + body[b..];
    DropAppend(body[..b], body[b..]);
    assert DropBlank(body) == PrintCases(cases) + more;
    PrintCaseLength(c);
    assert more[0] == PrintHeader(c);
    HeaderIsNoPool(c, pool);
    StartsIs(PrintHeader(c), "#");
    NoPoolLine(pool, cases, more, body);
  }

  /** When the text ends before all announced rows came, the header line is the one to blame. */
  lemma MissingRowsAreBlamed(pool: Pool, cases: seq<CaseDoc>, c: CaseDoc, k: nat, body: seq<string>, b: nat)
    requires Fits(pool, cases + [c]) && PlainLines(body) && b < |body| && k < |c.rows|
    requires DropBlank(body[..b]) == PrintCases(cases) && !Blank(body[b]) && DropBlank(body[b..]) == FirstLines(c, k)
    ensures ParseText(Document(pool, body)) == Err(LineOf(pool, b))
  {
    hide PrintCases, ParseCases, ParseText, Document, Meaning, Blank, DropBlank, NonBlank, Number, Reads, Trim,
      StripPrefix, FirstLines, ParseRow, CaseFits;
    var from := 1 + |pool|;
    FitsSplit(pool, cases, c);
    assert body == body[..b] + body[b..];
    DropAppend(body[..b], body[b..]);
    assert body[..|body|] == body;
    RowBodyStarts(pool, cases, c, k, body, |body|);
    DocumentParses(pool, body);
    SplitAt(body, from, b);
    NonBlankReads(body[..b], from);
    var first := [Numbered(from + b, body[b])] + NonBlank(Number(body[b + 1..], from + b + 1));
    TailReads(body, from, b);
    CaseFails(c, k, first, [], pool);
    CasesThen(cases, NonBlank(Number(body[..b], from)), first, pool);
    assert first + [] == first;
  }

  lemma TailReads(body: seq<string>, from: nat, b: nat)
    requires b < |body| && !Blank(body[b])
    ensures Reads([Numbered(from + b, body[b])] + NonBlank(Number(body[b + 1..], from + b + 1)), DropBlank(body[b..]))
  {
    hide Blank;
    NonBlankReads(body[b + 1..], from + b + 1);
    assert body[b..] == [body[b]] + body[b + 1..];
    DropFirst(body[b], body[b + 1..]);
  }

  /** Binding fails exactly when the counts differ or an index is beyond the pool. */
  lemma {:induction false} BindDefined(schema: seq<string>, indices: seq<nat>, pool: Pool)
    ensures Bind(schema, indices, pool).Some? <==>
            |schema| == |indices| && forall k :: 0 <= k < |indices| ==> indices[k] < |pool|
    decreases |schema|
  {
    if schema != [] && |schema| == |indices| {
      BindDefined(schema[1..], indices[1..], pool);
      assert forall k :: 1 <= k < |indices| ==> indices[1..][k - 1] == indices[k];
    }
  }

  // ----- errors before the cases

  ghost predicate IsBadPoolLine(line: string) {
    StripPrefix(Trim(line), "#").Some? && ParseHexBytes(StripPrefix(Trim(line), "#").value).None?
  }

  lemma {:induction false} PoolFails(pool: Pool, bad: string, rest: seq<string>, from: nat)
    requires IsBadPoolLine(bad)
    ensures ParsePool(Number(PrintPool(pool) + ([bad] + rest), from)) == Err(from + |pool| + 1)
    decreases |pool|
  {
    hide HexText, ParseHexBytes, Trim;
    var body := [bad] + rest;
    var all := PrintPool(pool) + body;
    if pool == [] {
      assert all == body;
    } else {
      var line := "#" + HexText(pool[0]);
      HexField(pool[0]);
      TrimTrimmed(line);
      StripOwnPrefix("#", HexText(pool[0]));
      HexBytesBack(pool[0]);
      assert all[0] == line && all[1..] == PrintPool(pool[1..]) + body;
      assert Number(all, from)[1..] == Number(all[1..], from + 1);
      PoolFails(pool[1..], bad, rest, from + 1);
    }
  }

  lemma PoolErr(lines: seq<Numbered>, count: string, line: nat)
    requires lines != [] && Trim(lines[0].line) != ""
    requires StripPrefix(Trim(lines[0].line), "data:") == Some(count) && ParseUint(Trim(count), 10).Some?
    requires ParsePool(lines[1..]) == Err(line)
    ensures ParseDocument(lines) == Err(line)
  {
  }

  /** Where a `#` line of the pool does not decode, it is the one to blame. */
  lemma BadPoolLineIsBlamed(pool: Pool, bad: string, rest: seq<string>)
    requires |pool| < TWO64 && PlainLines([bad] + rest) && IsBadPoolLine(bad)
    ensures ParseText(Document(pool, [bad] + rest)) == Err(LineOf(pool, 0))
  {
    hide Numeral, PrintPool, ParsePool, ParseDocument, ParseUint, Trim, Number, StripPrefix, Lines, Unlines,
      IsBadPoolLine;
    var num, body := Numeral(|pool|, 10, false), [bad] + rest;
    var lines := ["data:" + num] + PrintPool(pool) + body;
    HeadIsPlain(pool);
    PlainAppend(["data:" + num] + PrintPool(pool), body);
    LinesUnlines(lines);
    assert lines == ["data:" + num] + (PrintPool(pool) + body);
    NumberSplit("data:" + num, PrintPool(pool) + body);
    DataLine(|pool|);
    UintBack(|pool|, 10);
    PoolFails(pool, bad, rest, 1);
    PoolErr(Number(lines, 0), num, 1 + |pool| + 1);
  }

  /** Where the first line that is not blank is no `data:` line with a number, it is the one to blame. */
  lemma {:induction false} BadStartIsBlamed(lines: seq<Numbered>, b: nat)
    requires b < |lines| && (forall k :: 0 <= k < b ==> Blank(lines[k].line)) && !Blank(lines[b].line)
    requires var count := StripPrefix(Trim(lines[b].line), "data:");
             count.None? || ParseUint(Trim(count.value), 10).None?
    ensures ParseDocument(lines) == Err(lines[b].no + 1)
    decreases b
  {
    hide Blank, ParseUint, Trim, StripPrefix, ParsePool;
    if b > 0 {
      BadStartIsBlamed(lines[1..], b - 1);
    }
  }
}
