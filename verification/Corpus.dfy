/**
 Parser of the pooled x86 test corpus (`mwemu-x86-test/src/corpus.rs`).

 An error keeps the line number it is reported at; its message is not modelled.
 */
module Corpus {
  import opened Words
  import opened Digits
  import opened Text
  import opened Hex

  datatype Result<+T> = Ok(value: T) | Err(line: nat)

  datatype Binding = Binding(key: string, bytes: seq<U8>)

  datatype Outcome = State(bindings: seq<Binding>) | Exception(name: string)

  datatype Row = Row(inputs: seq<Binding>, output: Outcome)

  datatype Case = Case(address: U64, opcode: seq<U8>, asm: string, mnemonic: string, rows: seq<Row>)

  datatype Header = Header(address: U64, opcode: seq<U8>, asm: string, rowCount: nat,
                           inSchema: seq<string>, outSchema: seq<string>)

  type Pool = seq<seq<U8>>

  /** A line with its number, counted from zero. */
  datatype Numbered = Numbered(no: nat, line: string)

  // ----- fields

  /** `from_str_radix`: an optional plus sign and digits, below 2^64. */
  function ParseUint(s: string, radix: nat): Option<U64> {
    var t := if s != "" && s[0] == '+' then s[1..] else s;
    if t != "" && AllDigits(t, radix) && Value(t, radix) < TWO64 then Some(Value(t, radix)) else None
  }

  function ParseHexBytes(s: string): Option<seq<U8>> {
    HexPairs(Trim(s))
  }

  function ParseAddress(s: string): Option<U64> {
    var t := Trim(s);
    match StripPrefix(t, "0x")
    case Some(hex) => ParseUint(hex, 16)
    case None =>
      match StripPrefix(t, "0X")
      case Some(hex) => ParseUint(hex, 16)
      case None => if ParseUint(t, 10).Some? then ParseUint(t, 10) else ParseUint(t, 16)
  }

  function KeepNonEmpty(parts: seq<string>): seq<string> {
    if parts == [] then []
    else (if Trim(parts[0]) == "" then [] else [Trim(parts[0])]) + KeepNonEmpty(parts[1..])
  }

  function SplitSchema(field: string): seq<string> {
    KeepNonEmpty(Split(field, ','))
  }

  function ParseAllUint(parts: seq<string>): Option<seq<nat>> {
    if parts == [] then Some([])
    else
      match (ParseUint(parts[0], 10), ParseAllUint(parts[1..]))
      case (Some(n), Some(rest)) => Some([n] + rest)
      case _ => None
  }

  function ParseIndices(field: string): Option<seq<nat>> {
    ParseAllUint(SplitSchema(field))
  }

  function Bind(schema: seq<string>, indices: seq<nat>, pool: Pool): Option<seq<Binding>>
  {
    if |schema| != |indices| then None
    else if schema == [] then Some([])
    else if indices[0] >= |pool| then None
    else
      match Bind(schema[1..], indices[1..], pool)
      case None => None
      case Some(rest) => Some([Binding(schema[0], pool[indices[0]])] + rest)
  }

  /** The header of split fields; everything between the second and the last three is assembly text. */
  function HeaderOf(parts: seq<string>): Option<Header>
    requires |parts| >= 6
  {
    var n := |parts|;
    var opcodeField := if StripPrefix(parts[1], "#").Some? then StripPrefix(parts[1], "#").value else parts[1];
    match (ParseAddress(parts[0]), ParseHexBytes(opcodeField), ParseUint(Trim(parts[n - 3]), 10),
           StripPrefix(parts[n - 2], "in="), StripPrefix(parts[n - 1], "out="))
    case (Some(address), Some(opcode), Some(rowCount), Some(inField), Some(outField)) =>
      Some(Header(address, opcode, Join(parts[2..n - 3], ';'), rowCount, SplitSchema(inField), SplitSchema(outField)))
    case _ => None
  }

  function ParseHeader(body: string): Option<Header> {
    var parts := Split(body, ';');
    if |parts| < 6 then None else HeaderOf(parts)
  }

  /** Position of the first `|`, or the length. */
  function FindBar(s: string): (k: nat)
    ensures k <= |s| && (k < |s| ==> s[k] == '|')
    ensures forall j :: 0 <= j < k ==> s[j] != '|'
  {
    if s == "" || s[0] == '|' then 0 else 1 + FindBar(s[1..])
  }

  function ParseOutcome(h: Header, rhs: string, pool: Pool): Option<Outcome> {
    match StripPrefix(Trim(rhs), "!")
    case Some(name) => Some(Exception(Trim(name)))
    case None =>
      match ParseIndices(rhs)
      case None => None
      case Some(indices) =>
        match Bind(h.outSchema, indices, pool)
        case None => None
        case Some(bindings) => Some(State(bindings))
  }

  function ParseRow(h: Header, line: string, pool: Pool): Option<Row> {
    var s := Trim(line);
    var bar := FindBar(s);
    if bar == |s| then None
    else
      match ParseIndices(s[..bar])
      case None => None
      case Some(indices) =>
        match (Bind(h.inSchema, indices, pool), ParseOutcome(h, s[bar + 1..], pool))
        case (Some(inputs), Some(output)) => Some(Row(inputs, output))
        case _ => None
  }

  // ----- the document, blank lines already dropped

  predicate Blank(line: string) {
    Trim(line) == ""
  }

  function NonBlank(lines: seq<Numbered>): (r: seq<Numbered>)
    ensures |r| <= |lines|
    ensures forall k :: 0 <= k < |r| ==> !Blank(r[k].line)
  {
    if lines == [] then []
    else (if Blank(lines[0].line) then [] else [lines[0]]) + NonBlank(lines[1..])
  }

  /** The next `count` rows; `at` is the line to blame when the lines run out. */
  function ParseRows(h: Header, lines: seq<Numbered>, count: nat, pool: Pool, at: nat): (r: Result<seq<Row>>)
    ensures r.Ok? ==> count <= |lines| && |r.value| == count
    decreases count
  {
    if count == 0 then Ok([])
    else if lines == [] then Err(at)
    else
      match ParseRow(h, lines[0].line, pool)
      case None => Err(lines[0].no + 1)
      case Some(row) =>
        match ParseRows(h, lines[1..], count - 1, pool, at)
        case Err(line) => Err(line)
        case Ok(rest) => Ok([row] + rest)
  }

  /** The header on an `instr:` line. */
  function ParseInstr(line: string): Option<Header> {
    match StripPrefix(Trim(line), "instr:")
    case None => None
    case Some(body) => ParseHeader(body)
  }

  function Lower(s: string): string {
    seq(|s|, i requires 0 <= i < |s| => if 'A' <= s[i] <= 'Z' then s[i] - 'A' + 'a' else s[i])
  }

  /** The first word of the assembly text, in lower case. */
  function Mnemonic(asm: string): string {
    Lower(FirstWord(TrimStart(asm)))
  }

  function FirstWord(s: string): string {
    if s == "" || IsWhite(s[0]) then "" else [s[0]] + FirstWord(s[1..])
  }

  /** The mnemonic of a text is the word before the next white space, with its ASCII letters in lower case. */
  lemma MnemonicIs(pre: string, word: string, post: string)
    requires (forall k :: 0 <= k < |pre| ==> IsWhite(pre[k])) && (forall k :: 0 <= k < |word| ==> !IsWhite(word[k]))
    requires if word == "" then post == "" else post == "" || IsWhite(post[0])
    ensures var m := Mnemonic(pre + word + post);
            && |m| == |word|
            && forall k :: 0 <= k < |word| ==> m[k] as int == word[k] as int + if 'A' <= word[k] <= 'Z' then 32 else 0
  {
    hide IsWhite;
    TrimsBlanks(pre, word + post);
    assert pre + word + post == pre + (word + post);
    WordIs(word, post);
  }

  lemma {:induction false} TrimsBlanks(pre: string, rest: string)
    requires (forall k :: 0 <= k < |pre| ==> IsWhite(pre[k])) && (rest == "" || !IsWhite(rest[0]))
    ensures TrimStart(pre + rest) == rest
    decreases |pre|
  {
    if pre == "" {
      assert pre + rest == rest;
    } else {
      assert (pre + rest)[1..] == pre[1..] + rest;
      TrimsBlanks(pre[1..], rest);
    }
  }

  lemma {:induction false} WordIs(word: string, post: string)
    requires (forall k :: 0 <= k < |word| ==> !IsWhite(word[k])) && (post == "" || IsWhite(post[0]))
    ensures FirstWord(word + post) == word
    decreases |word|
  {
    if word == "" {
      assert word + post == post;
    } else {
      assert (word + post)[1..] == word[1..] + post;
      WordIs(word[1..], post);
    }
  }

  function CaseOf(h: Header, rows: seq<Row>): Case {
    Case(h.address, h.opcode, h.asm, Mnemonic(h.asm), rows)
  }

  function ParseCases(lines: seq<Numbered>, pool: Pool): Result<seq<Case>>
    decreases |lines|
  {
    if lines == [] then Ok([])
    else
      var at := lines[0].no + 1;
      match ParseInstr(lines[0].line)
      case None => Err(at)
      case Some(h) =>
        match ParseRows(h, lines[1..], h.rowCount, pool, at)
        case Err(line) => Err(line)
        case Ok(rows) =>
          match ParseCases(lines[1 + h.rowCount..], pool)
          case Err(line) => Err(line)
          case Ok(rest) => Ok([CaseOf(h, rows)] + rest)
  }

  /** The pool: consecutive `#` lines, and the lines after them. */
  function ParsePool(lines: seq<Numbered>): Result<(Pool, seq<Numbered>)> {
    if lines == [] then Ok(([], []))
    else
      match StripPrefix(Trim(lines[0].line), "#")
      case None => Ok(([], lines))
      case Some(hex) =>
        match ParseHexBytes(hex)
        case None => Err(lines[0].no + 1)
        case Some(bytes) =>
          match ParsePool(lines[1..])
          case Err(line) => Err(line)
          case Ok((pool, rest)) => Ok(([bytes] + pool, rest))
  }

  /** Blank lines, the `data:` line, the pool, then the cases; nothing but blanks is an empty corpus. */
  function ParseDocument(lines: seq<Numbered>): Result<seq<Case>> {
    if lines == [] then Ok([])
    else if Blank(lines[0].line) then ParseDocument(lines[1..])
    else
      match StripPrefix(Trim(lines[0].line), "data:")
      case None => Err(lines[0].no + 1)
      case Some(count) =>
        if ParseUint(Trim(count), 10).None? then Err(lines[0].no + 1)
        else
          match ParsePool(lines[1..])
          case Err(line) => Err(line)
          case Ok((pool, rest)) => ParseCases(NonBlank(rest), pool)
  }

  function Number(lines: seq<string>, from: nat): (r: seq<Numbered>)
    ensures |r| == |lines| && forall k :: 0 <= k < |r| ==> r[k] == Numbered(from + k, lines[k])
  {
    seq(|lines|, k requires 0 <= k < |lines| => Numbered(from + k, lines[k]))
  }

  function ParseText(text: string): Result<seq<Case>> {
    ParseDocument(Number(Lines(text), 0))
  }
}
