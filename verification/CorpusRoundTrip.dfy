/** Printing a corpus in its documented format and parsing it gives back the same cases. */
module CorpusRoundTrip {
  import opened Words
  import opened Digits
  import opened Text
  import opened Hex
  import opened Corpus

  // ----- documents

  datatype OutDoc = Indices(values: seq<nat>) | Raises(name: string)

  datatype RowDoc = RowDoc(inputs: seq<nat>, output: OutDoc)

  /** A case whose rows name their values by pool index. */
  datatype CaseDoc = CaseDoc(address: U64, opcode: seq<U8>, asm: string,
                             inSchema: seq<string>, outSchema: seq<string>, rows: seq<RowDoc>)

  function Decimals(values: seq<nat>): (r: seq<string>)
    ensures |r| == |values| && forall k :: 0 <= k < |r| ==> r[k] == Numeral(values[k], 10, false)
  {
    seq(|values|, k requires 0 <= k < |values| => Numeral(values[k], 10, false))
  }

  function PrintOutcome(o: OutDoc): string {
    match o
    case Indices(values) => Join(Decimals(values), ',')
    case Raises(name) => "!" + name
  }

  function PrintRow(r: RowDoc): string {
    Join(Decimals(r.inputs), ',') + "|" + PrintOutcome(r.output)
  }

  function HeaderFields(c: CaseDoc): seq<string> {
    ["0x" + Numeral(c.address, 16, false), "#" + HexText(c.opcode), c.asm, Numeral(|c.rows|, 10, false),
     "in=" + Join(c.inSchema, ','), "out=" + Join(c.outSchema, ',')]
  }

  function PrintHeader(c: CaseDoc): string {
    "instr:" + Join(HeaderFields(c), ';')
  }

  function PrintCase(c: CaseDoc): seq<string> {
    [PrintHeader(c)] + seq(|c.rows|, k requires 0 <= k < |c.rows| => PrintRow(c.rows[k]))
  }

  function PrintCases(cases: seq<CaseDoc>): seq<string> {
    if cases == [] then [] else PrintCase(cases[0]) + PrintCases(cases[1..])
  }

  function PrintPool(pool: Pool): seq<string> {
    seq(|pool|, k requires 0 <= k < |pool| => "#" + HexText(pool[k]))
  }

  function Print(pool: Pool, cases: seq<CaseDoc>): string {
    Unlines(["data:" + Numeral(|pool|, 10, false)] + PrintPool(pool) + PrintCases(cases))
  }

  // ----- what a document may hold

  predicate IsKey(k: string) {
    k != "" && Trimmed(k) && ',' !in k && ';' !in k && '\n' !in k
  }

  predicate IsSchema(keys: seq<string>) {
    forall k :: 0 <= k < |keys| ==> IsKey(keys[k])
  }

  predicate Picks(values: seq<nat>, schema: seq<string>, pool: Pool) {
    |values| == |schema| && forall k :: 0 <= k < |values| ==> values[k] < |pool|
  }

  predicate RowFits(r: RowDoc, c: CaseDoc, pool: Pool) {
    && Picks(r.inputs, c.inSchema, pool)
    && match r.output
       case Indices(values) => Picks(values, c.outSchema, pool)
       case Raises(name) => Trimmed(name) && '\n' !in name
  }

  predicate CaseFits(c: CaseDoc, pool: Pool) {
    && '\n' !in c.asm && IsSchema(c.inSchema) && IsSchema(c.outSchema) && |c.rows| < TWO64
    && forall k :: 0 <= k < |c.rows| ==> RowFits(c.rows[k], c, pool)
  }

  predicate Fits(pool: Pool, cases: seq<CaseDoc>) {
    |pool| < TWO64 && forall k :: 0 <= k < |cases| ==> CaseFits(cases[k], pool)
  }

  // ----- what a document means

  function Bindings(schema: seq<string>, values: seq<nat>, pool: Pool): seq<Binding>
    requires Picks(values, schema, pool)
  {
    seq(|schema|, k requires 0 <= k < |schema| => Binding(schema[k], pool[values[k]]))
  }

  function RowMeaning(r: RowDoc, c: CaseDoc, pool: Pool): Row
    requires RowFits(r, c, pool)
  {
    Row(Bindings(c.inSchema, r.inputs, pool),
        match r.output
        case Indices(values) => State(Bindings(c.outSchema, values, pool))
        case Raises(name) => Exception(name))
  }

  function CaseMeaning(c: CaseDoc, pool: Pool): Case
    requires CaseFits(c, pool)
  {
    Case(c.address, c.opcode, c.asm, Mnemonic(c.asm),
         seq(|c.rows|, k requires 0 <= k < |c.rows| => RowMeaning(c.rows[k], c, pool)))
  }

  function Meaning(cases: seq<CaseDoc>, pool: Pool): seq<Case>
    requires Fits(pool, cases)
  {
    seq(|cases|, k requires 0 <= k < |cases| => CaseMeaning(cases[k], pool))
  }

  // ----- fields

  lemma DigitsAreTrimmed(s: string, base: nat)
    requires base <= 36 && AllDigits(s, base)
    ensures Trimmed(s)
    ensures ',' !in s && ';' !in s && '|' !in s && '\n' !in s && '!' !in s
    ensures s != "" ==> s[0] != '+'
  {
  }

  lemma HexBytesBack(bytes: seq<U8>)
    ensures ParseHexBytes(HexText(bytes)) == Some(bytes)
  {
    hide HexText, HexPairs;
    HexPairsBack(bytes);
    DigitsAreTrimmed(HexText(bytes), 16);
    TrimTrimmed(HexText(bytes));
  }

  lemma UintBack(n: U64, base: nat)
    requires 2 <= base <= 36
    ensures ParseUint(Numeral(n, base, false), base) == Some(n)
    ensures Trim(Numeral(n, base, false)) == Numeral(n, base, false)
  {
    hide Numeral, Value;
    var s := Numeral(n, base, false);
    NumeralValue(n, base, false);
    DigitsAreTrimmed(s, base);
    TrimTrimmed(s);
  }

  /** Digits without a prefix are decimal if they can be, and hexadecimal otherwise. */
  lemma BareAddress(num: string)
    requires num != "" && AllDigits(num, 16)
    ensures ParseAddress(num) ==
            if AllDigits(num, 10) && Value(num, 10) < TWO64 then Some(Value(num, 10))
            else if Value(num, 16) < TWO64 then Some(Value(num, 16))
            else None
  {
    hide Value;
    DigitsAreTrimmed(num, 16);
    TrimTrimmed(num);
    NoPrefix(num, "0x");
    NoPrefix(num, "0X");
  }

  lemma NoPrefix(num: string, prefix: string)
    requires AllDigits(num, 16) && (prefix == "0x" || prefix == "0X")
    ensures StripPrefix(num, prefix) == None
  {
    if |num| > 1 {
      assert IsDigit(num[1], 16);
    }
  }

  /** After either prefix they are hexadecimal. */
  lemma PrefixedAddress(num: string, prefix: string)
    requires num != "" && AllDigits(num, 16) && (prefix == "0x" || prefix == "0X")
    ensures ParseAddress(prefix + num) == if Value(num, 16) < TWO64 then Some(Value(num, 16)) else None
  {
    hide Value;
    var s := prefix + num;
    DigitsAreTrimmed(num, 16);
    assert s[|s| - 1] == num[|num| - 1];
    TrimTrimmed(s);
    StripOwnPrefix(prefix, num);
    if prefix == "0X" {
      OtherPrefix(num);
    }
  }

  lemma OtherPrefix(num: string)
    ensures StripPrefix("0X" + num, "0x") == None
  {
    var s := "0X" + num;
    assert s[1] == 'X';
  }

  lemma AddressBack(n: U64)
    ensures ParseAddress("0x" + Numeral(n, 16, false)) == Some(n)
  {
    hide Numeral, ParseUint;
    var num := Numeral(n, 16, false);
    var s := "0x" + num;
    DigitsAreTrimmed(num, 16);
    assert s[|s| - 1] == num[|num| - 1];
    TrimTrimmed(s);
    StripOwnPrefix("0x", num);
    UintBack(n, 16);
  }

  lemma {:induction false} KeepAll(keys: seq<string>)
    requires forall k :: 0 <= k < |keys| ==> keys[k] != "" && Trimmed(keys[k])
    ensures KeepNonEmpty(keys) == keys
  {
    if keys != [] {
      TrimTrimmed(keys[0]);
      KeepAll(keys[1..]);
    }
  }

  lemma SchemaBack(keys: seq<string>)
    requires forall k :: 0 <= k < |keys| ==> keys[k] != "" && Trimmed(keys[k]) && ',' !in keys[k]
    ensures SplitSchema(Join(keys, ',')) == keys
  {
    if keys == [] {
      assert Split("", ',') == [""];
      assert KeepNonEmpty([""]) == KeepNonEmpty([]);
    } else {
      SplitJoin(keys, ',');
      KeepAll(keys);
    }
  }

  lemma {:induction false} AllUintBack(values: seq<nat>)
    requires forall k :: 0 <= k < |values| ==> values[k] < TWO64
    ensures ParseAllUint(Decimals(values)) == Some(values)
  {
    hide ParseUint;
    if values != [] {
      assert Decimals(values)[1..] == Decimals(values[1..]);
      UintBack(values[0], 10);
      AllUintBack(values[1..]);
      assert values == [values[0]] + values[1..];
    }
  }

  lemma IndicesBack(values: seq<nat>)
    requires forall k :: 0 <= k < |values| ==> values[k] < TWO64
    ensures ParseIndices(Join(Decimals(values), ',')) == Some(values)
  {
    var ds := Decimals(values);
    forall k | 0 <= k < |ds|
      ensures ds[k] != "" && Trimmed(ds[k]) && ',' !in ds[k] {
      DigitsAreTrimmed(ds[k], 10);
    }
    SchemaBack(ds);
    AllUintBack(values);
  }

  lemma {:induction false} BindBack(schema: seq<string>, values: seq<nat>, pool: Pool)
    requires Picks(values, schema, pool)
    ensures Bind(schema, values, pool) == Some(Bindings(schema, values, pool))
    decreases |schema|
  {
    if schema != [] {
      BindBack(schema[1..], values[1..], pool);
      var all := Bindings(schema, values, pool);
      assert all[1..] == Bindings(schema[1..], values[1..], pool);
      assert all == [all[0]] + all[1..];
    }
  }

  // ----- lines

  /** A line that the parser sees as it was printed. */
  predicate Clean(line: string) {
    line != "" && Trimmed(line) && '\n' !in line
  }

  lemma SchemaField(keys: seq<string>)
    requires IsSchema(keys)
    ensures var s := Join(keys, ','); Trimmed(s) && ';' !in s && '\n' !in s
  {
  }

  lemma IndexField(values: seq<nat>)
    ensures var s := Join(Decimals(values), ',');
            Trimmed(s) && '|' !in s && '\n' !in s && (s != "" ==> s[0] != '!')
  {
    var ds := Decimals(values);
    forall k | 0 <= k < |ds|
      ensures ds[k] != "" && Trimmed(ds[k]) && '|' !in ds[k] && '\n' !in ds[k] && ds[k][0] != '!' {
      DigitsAreTrimmed(ds[k], 10);
    }
    JoinLacks(ds, ',', '|');
    JoinLacks(ds, ',', '\n');
    if ds != [] {
      JoinEnds(ds, ',');
    }
  }

  /** Splitting a header at its semicolons: the assembly text gives as many pieces as it has. */
  lemma {:induction false} SplitFields(a: string, o: string, asm: string, n: string, i: string, u: string)
    requires Free([a, o, n, i, u], ';')
    ensures Split(Join([a, o, asm, n, i, u], ';'), ';') == [a, o] + Split(asm, ';') + [n, i, u]
  {
    hide Split;
    var left, right, pieces := [a, o], [n, i, u], Split(asm, ';');
    JoinSplit(asm, ';');
    assert [a, o, asm, n, i, u] == left + ([asm] + right);
    JoinAppend(left, [asm] + right, ';');
    JoinAppend([asm], right, ';');
    assert left + pieces + right == left + (pieces + right);
    JoinAppend(left, pieces + right, ';');
    JoinAppend(pieces, right, ';');
    assert ';' !in [a, o, n, i, u][0] && ';' !in [a, o, n, i, u][1] && ';' !in [a, o, n, i, u][2]
        && ';' !in [a, o, n, i, u][3] && ';' !in [a, o, n, i, u][4];
    assert Free(left + pieces + right, ';');
    SplitJoin(left + pieces + right, ';');
  }

  lemma HexField(bytes: seq<U8>)
    ensures ';' !in "#" + HexText(bytes) && '\n' !in "#" + HexText(bytes) && Trimmed("#" + HexText(bytes))
  {
  }

  function HeaderMeaning(c: CaseDoc): Header {
    Header(c.address, c.opcode, c.asm, |c.rows|, c.inSchema, c.outSchema)
  }

  lemma {:induction false} FieldsBack(c: CaseDoc, pieces: seq<string>)
    requires IsSchema(c.inSchema) && IsSchema(c.outSchema) && |c.rows| < TWO64
    requires pieces != [] && Join(pieces, ';') == c.asm
    ensures var f := HeaderFields(c);
            HeaderOf([f[0], f[1]] + pieces + [f[3], f[4], f[5]]) == Some(HeaderMeaning(c))
  {
    hide ParseAddress, ParseHexBytes, ParseUint, StripPrefix, SplitSchema, Join, Numeral, HexText, Trim;
    var f := HeaderFields(c);
    var parts := [f[0], f[1]] + pieces + [f[3], f[4], f[5]];
    var n := |parts|;
    assert parts[2..n - 3] == pieces && parts[n - 3] == f[3] && parts[n - 2] == f[4] && parts[n - 1] == f[5];
    AddressBack(c.address);
    StripOwnPrefix("#", HexText(c.opcode));
    HexBytesBack(c.opcode);
    UintBack(|c.rows|, 10);
    StripOwnPrefix("in=", Join(c.inSchema, ','));
    StripOwnPrefix("out=", Join(c.outSchema, ','));
    SchemaBack(c.inSchema);
    SchemaBack(c.outSchema);
  }

  lemma HeaderFieldsFree(c: CaseDoc)
    requires IsSchema(c.inSchema) && IsSchema(c.outSchema)
    ensures var f := HeaderFields(c); Free([f[0], f[1], f[3], f[4], f[5]], ';')
    ensures '\n' !in c.asm ==> Free(HeaderFields(c), '\n')
  {
    hide Numeral, HexText, Join;
    DigitsAreTrimmed(Numeral(c.address, 16, false), 16);
    DigitsAreTrimmed(Numeral(|c.rows|, 10, false), 10);
    HexField(c.opcode);
    SchemaField(c.inSchema);
    SchemaField(c.outSchema);
  }

  /** Any number of semicolons in the assembly text survives. */
  lemma {:induction false} HeaderBack(c: CaseDoc)
    requires IsSchema(c.inSchema) && IsSchema(c.outSchema) && |c.rows| < TWO64
    ensures ParseHeader(Join(HeaderFields(c), ';')) == Some(HeaderMeaning(c))
  {
    hide HeaderOf, Numeral, HexText, Join, Split;
    var f := HeaderFields(c);
    HeaderFieldsFree(c);
    SplitFields(f[0], f[1], f[2], f[3], f[4], f[5]);
    assert f == [f[0], f[1], f[2], f[3], f[4], f[5]];
    JoinSplit(c.asm, ';');
    FieldsBack(c, Split(c.asm, ';'));
  }

  lemma {:induction false} HeaderIsClean(c: CaseDoc)
    requires IsSchema(c.inSchema) && IsSchema(c.outSchema) && '\n' !in c.asm
    ensures Clean(PrintHeader(c))
  {
    hide Numeral, HexText, Join;
    var f := HeaderFields(c);
    HeaderFieldsFree(c);
    JoinLacks(f, ';', '\n');
    JoinEnds(f, ';');
    SchemaField(c.outSchema);
    var body, u, keys := Join(f, ';'), f[5], Join(c.outSchema, ',');
    assert u[|u| - 1] == if keys == "" then '=' else keys[|keys| - 1];
    var line := PrintHeader(c);
    assert line[0] == 'i' && line[|line| - 1] == body[|body| - 1];
  }

  lemma InstrBack(c: CaseDoc)
    requires IsSchema(c.inSchema) && IsSchema(c.outSchema) && |c.rows| < TWO64 && '\n' !in c.asm
    ensures ParseInstr(PrintHeader(c)) == Some(HeaderMeaning(c))
  {
    hide ParseHeader, Join, HeaderFields;
    HeaderIsClean(c);
    TrimTrimmed(PrintHeader(c));
    StripOwnPrefix("instr:", Join(HeaderFields(c), ';'));
    HeaderBack(c);
  }

  // ----- rows

  lemma BarAfter(lhs: string, rhs: string)
    requires '|' !in lhs
    ensures var s := lhs + "|" + rhs; FindBar(s) == |lhs| && s[..|lhs|] == lhs && s[|lhs| + 1..] == rhs
  {
    var s := lhs + "|" + rhs;
    assert s[|lhs|] == '|' && forall k :: 0 <= k < |lhs| ==> s[k] == lhs[k];
    var bar := FindBar(s);
    assert !(bar < |lhs|) && !(bar > |lhs|);
  }

  lemma {:induction false} OutcomeBack(o: OutDoc, h: Header, pool: Pool)
    requires |pool| < TWO64
    requires match o
             case Indices(values) => Picks(values, h.outSchema, pool)
             case Raises(name) => Trimmed(name)
    ensures var s := PrintOutcome(o);
            && Trimmed(s)
            && ParseOutcome(h, s, pool) ==
               Some(match o
                    case Indices(values) => State(Bindings(h.outSchema, values, pool))
                    case Raises(name) => Exception(name))
  {
    hide Join, ParseIndices, Bind;
    var s := PrintOutcome(o);
    match o
    case Indices(values) =>
      IndexField(values);
      TrimTrimmed(s);
      IndicesBack(values);
      BindBack(h.outSchema, values, pool);
    case Raises(name) =>
      assert name != "" ==> s[|s| - 1] == name[|name| - 1];
      TrimTrimmed(s);
      StripOwnPrefix("!", name);
      TrimTrimmed(name);
  }

  lemma {:induction false} RowIsClean(r: RowDoc, c: CaseDoc, pool: Pool)
    requires |pool| < TWO64 && RowFits(r, c, pool)
    ensures Clean(PrintRow(r))
  {
    hide Join, PrintOutcome;
    var lhs, rhs := Join(Decimals(r.inputs), ','), PrintOutcome(r.output);
    IndexField(r.inputs);
    OutcomeBack(r.output, HeaderMeaning(c), pool);
    assert '\n' !in rhs by { OutcomeHasNoNewline(r.output); }
    var s := PrintRow(r);
    assert s[0] == if lhs == "" then '|' else lhs[0];
    assert s[|s| - 1] == if rhs == "" then '|' else rhs[|rhs| - 1];
  }

  lemma OutcomeHasNoNewline(o: OutDoc)
    requires o.Raises? ==> '\n' !in o.name
    ensures '\n' !in PrintOutcome(o)
  {
    if o.Indices? {
      IndexField(o.values);
    }
  }

  lemma {:induction false} RowBack(r: RowDoc, c: CaseDoc, pool: Pool)
    requires |pool| < TWO64 && RowFits(r, c, pool)
    ensures ParseRow(HeaderMeaning(c), PrintRow(r), pool) == Some(RowMeaning(r, c, pool))
  {
    hide Join, ParseIndices, Bind, ParseOutcome, PrintOutcome, Trim, Trimmed;
    var lhs, rhs := Join(Decimals(r.inputs), ','), PrintOutcome(r.output);
    IndexField(r.inputs);
    OutcomeBack(r.output, HeaderMeaning(c), pool);
    RowIsClean(r, c, pool);
    TrimTrimmed(PrintRow(r));
    BarAfter(lhs, rhs);
    IndicesBack(r.inputs);
    BindBack(c.inSchema, r.inputs, pool);
  }

  // ----- whole documents

  lemma {:induction false} RowsBack(c: CaseDoc, k: nat, lines: seq<Numbered>, pool: Pool, at: nat)
    requires |pool| < TWO64 && CaseFits(c, pool) && k <= |c.rows| <= k + |lines|
    requires forall j :: 0 <= j < |c.rows| - k ==> lines[j].line == PrintRow(c.rows[k + j])
    ensures ParseRows(HeaderMeaning(c), lines, |c.rows| - k, pool, at) == Ok(CaseMeaning(c, pool).rows[k..])
    decreases |c.rows| - k
  {
    hide ParseRow, PrintRow, RowMeaning, RowFits;
    if k == |c.rows| {
      assert CaseMeaning(c, pool).rows[k..] == [];
    } else {
      var rows := CaseMeaning(c, pool).rows;
      assert lines[0].line == PrintRow(c.rows[k + 0]);
      RowBack(c.rows[k], c, pool);
      RowsBack(c, k + 1, lines[1..], pool, at);
      assert rows[k..] == [rows[k]] + rows[k + 1..];
    }
  }

  ghost predicate Reads(lines: seq<Numbered>, text: seq<string>) {
    |lines| == |text| && forall k :: 0 <= k < |text| ==> lines[k].line == text[k]
  }

  lemma {:induction false} CaseBack(c: CaseDoc, lines: seq<Numbered>, pool: Pool)
    requires |pool| < TWO64 && CaseFits(c, pool)
    requires |lines| >= |PrintCase(c)| && Reads(lines[..|PrintCase(c)|], PrintCase(c))
    ensures ParseInstr(lines[0].line) == Some(HeaderMeaning(c))
    ensures ParseRows(HeaderMeaning(c), lines[1..], |c.rows|, pool, lines[0].no + 1) == Ok(CaseMeaning(c, pool).rows)
  {
    hide ParseInstr, ParseRows, CaseMeaning, RowFits, PrintCase, PrintHeader, PrintRow;
    PrintCaseReads(c, lines);
    InstrBack(c);
    RowsBack(c, 0, lines[1..], pool, lines[0].no + 1);
    assert CaseMeaning(c, pool).rows[0..] == CaseMeaning(c, pool).rows;
  }

  lemma {:induction false} PrintCaseReads(c: CaseDoc, lines: seq<Numbered>)
    requires |lines| >= |PrintCase(c)| && Reads(lines[..|PrintCase(c)|], PrintCase(c))
    ensures |lines| >= 1 + |c.rows| && lines[0].line == PrintHeader(c)
    ensures forall j :: 0 <= j < |c.rows| ==> lines[1..][j].line == PrintRow(c.rows[0 + j])
  {
    hide PrintHeader, PrintRow;
    var first := PrintCase(c);
    assert lines[..|first|][0].line == first[0];
    forall j | 0 <= j < |c.rows| ensures lines[1..][j].line == PrintRow(c.rows[0 + j]) {
      assert lines[..|first|][1 + j].line == first[1 + j];
    }
  }

  lemma ParseCasesStep(lines: seq<Numbered>, pool: Pool, h: Header, rows: seq<Row>, rest: seq<Case>)
    requires lines != [] && ParseInstr(lines[0].line) == Some(h)
    requires ParseRows(h, lines[1..], h.rowCount, pool, lines[0].no + 1) == Ok(rows)
    requires ParseCases(lines[1 + h.rowCount..], pool) == Ok(rest)
    ensures ParseCases(lines, pool) == Ok([CaseOf(h, rows)] + rest)
  {
    hide ParseInstr, ParseRows, CaseOf;
  }

  lemma {:induction false} CasesBack(cases: seq<CaseDoc>, lines: seq<Numbered>, pool: Pool)
    requires Fits(pool, cases) && Reads(lines, PrintCases(cases))
    ensures ParseCases(lines, pool) == Ok(Meaning(cases, pool))
    decreases |cases|
  {
    hide ParseInstr, PrintCase, ParseRows, CaseMeaning, CaseFits, ParseCases;
    if cases == [] {
      NoCases(pool);
    } else {
      var c := cases[0];
      var n := |PrintCase(c)|;
      PrintCaseLength(c);
      assert PrintCases(cases) == PrintCase(c) + PrintCases(cases[1..]);
      assert Reads(lines[..n], PrintCase(c));
      assert Reads(lines[n..], PrintCases(cases[1..]));
      assert CaseFits(c, pool);
      CaseBack(c, lines, pool);
      CasesBack(cases[1..], lines[n..], pool);
      ParseCasesStep(lines, pool, HeaderMeaning(c), CaseMeaning(c, pool).rows, Meaning(cases[1..], pool));
      CaseOfIs(c, pool);
      assert Meaning(cases, pool) == [CaseMeaning(c, pool)] + Meaning(cases[1..], pool);
    }
  }

  lemma NoCases(pool: Pool)
    ensures ParseCases([], pool) == Ok([])
  {
  }

  lemma PrintCaseLength(c: CaseDoc)
    ensures |PrintCase(c)| == 1 + |c.rows|
  {
  }

  lemma CaseOfIs(c: CaseDoc, pool: Pool)
    requires CaseFits(c, pool)
    ensures CaseOf(HeaderMeaning(c), CaseMeaning(c, pool).rows) == CaseMeaning(c, pool)
  {
  }

  lemma {:induction false} PoolBack(pool: Pool, body: seq<string>, from: nat)
    requires body == [] || StripPrefix(Trim(body[0]), "#").None?
    ensures ParsePool(Number(PrintPool(pool) + body, from)) == Ok((pool, Number(body, from + |pool|)))
    decreases |pool|
  {
    hide HexText, ParseHexBytes, Trim;
    var all := PrintPool(pool) + body;
    if pool == [] {
      assert all == body;
    } else {
      var line := "#" + HexText(pool[0]);
      HexField(pool[0]);
      TrimTrimmed(line);
      StripOwnPrefix("#", HexText(pool[0]));
      HexBytesBack(pool[0]);
      assert all[0] == line && all[1..] == PrintPool(pool[1..]) + body;
      assert Number(all, from)[1..] == Number(all[1..], from + 1);
      PoolBack(pool[1..], body, from + 1);
      assert pool == [pool[0]] + pool[1..];
    }
  }

  /** The lines that are not blank. */
  function DropBlank(lines: seq<string>): seq<string> {
    if lines == [] then [] else (if Blank(lines[0]) then [] else [lines[0]]) + DropBlank(lines[1..])
  }

  lemma {:induction false} NonBlankReads(lines: seq<string>, from: nat)
    ensures Reads(NonBlank(Number(lines, from)), DropBlank(lines))
    decreases |lines|
  {
    hide Blank;
    if lines != [] {
      assert Number(lines, from)[1..] == Number(lines[1..], from + 1);
      NonBlankReads(lines[1..], from + 1);
    }
  }

  lemma {:induction false} FirstLineIsNoPool(body: seq<string>, cases: seq<CaseDoc>, pool: Pool)
    requires body != [] && Fits(pool, cases) && DropBlank(body) == PrintCases(cases)
    ensures StripPrefix(Trim(body[0]), "#").None?
  {
    hide PrintHeader;
    if !Blank(body[0]) {
      assert body[0] == PrintCases(cases)[0] == PrintHeader(cases[0]);
      HeaderIsClean(cases[0]);
      TrimTrimmed(body[0]);
      HeaderStartsWithI(cases[0]);
    }
  }

  lemma HeaderStartsWithI(c: CaseDoc)
    ensures PrintHeader(c) != "" && PrintHeader(c)[0] == 'i'
  {
  }

  /** Printed lines hold no newline and end in no carriage return. */
  lemma CleanIsPlain(line: string)
    requires Clean(line)
    ensures '\n' !in line && DropReturn(line) == line && !Blank(line)
  {
  }

  lemma DataLine(n: U64)
    ensures var line := "data:" + Numeral(n, 10, false);
            && Clean(line) && Trim(line) == line
            && StripPrefix(line, "data:") == Some(Numeral(n, 10, false))
  {
  }

  lemma HeadIsPlain(pool: Pool)
    requires |pool| < TWO64
    ensures PlainLines(["data:" + Numeral(|pool|, 10, false)] + PrintPool(pool))
  {
    hide Numeral, HexText;
    DataLine(|pool|);
    CleanIsPlain("data:" + Numeral(|pool|, 10, false));
    forall k | 0 <= k < |pool| ensures Clean(PrintPool(pool)[k]) {
      HexField(pool[k]);
    }
    var lines := ["data:" + Numeral(|pool|, 10, false)] + PrintPool(pool);
    forall k | 0 <= k < |lines| ensures '\n' !in lines[k] && DropReturn(lines[k]) == lines[k] {
      CleanIsPlain(lines[k]);
    }
  }

  /**
   A printed corpus parses to the cases it was printed from, wherever blank lines were put after its
   pool and however many semicolons the assembly text holds.
   */
  lemma {:induction false} PrintParses(pool: Pool, cases: seq<CaseDoc>, body: seq<string>)
    requires Fits(pool, cases) && PlainLines(body) && DropBlank(body) == PrintCases(cases)
    ensures var text := Unlines(["data:" + Numeral(|pool|, 10, false)] + PrintPool(pool) + body);
            ParseText(text) == Ok(Meaning(cases, pool))
  {
    hide Numeral, PrintPool, PrintCases, Meaning, ParseDocument, Blank, Lines, Unlines, DropBlank;
    var lines := ["data:" + Numeral(|pool|, 10, false)] + PrintPool(pool) + body;
    HeadIsPlain(pool);
    PlainAppend(["data:" + Numeral(|pool|, 10, false)] + PrintPool(pool), body);
    LinesUnlines(lines);
    DocumentBack(pool, cases, body);
  }

  lemma PlainAppend(a: seq<string>, b: seq<string>)
    requires PlainLines(a) && PlainLines(b)
    ensures PlainLines(a + b)
  {
  }

  lemma {:induction false} DocumentBack(pool: Pool, cases: seq<CaseDoc>, body: seq<string>)
    requires Fits(pool, cases) && DropBlank(body) == PrintCases(cases)
    ensures var lines := ["data:" + Numeral(|pool|, 10, false)] + PrintPool(pool) + body;
            ParseDocument(Number(lines, 0)) == Ok(Meaning(cases, pool))
  {
    hide Numeral, PrintPool, PrintCases, Meaning, ParsePool, ParseCases, ParseDocument, Trim, DropBlank;
    hide Number, NonBlank, StripPrefix, Reads;
    if body != [] {
      FirstLineIsNoPool(body, cases, pool);
    }
    DocumentStarts(pool, body);
    NonBlankReads(body, 1 + |pool|);
    CasesBack(cases, NonBlank(Number(body, 1 + |pool|)), pool);
  }

  lemma {:induction false} DocumentStarts(pool: Pool, body: seq<string>)
    requires |pool| < TWO64 && (body == [] || StripPrefix(Trim(body[0]), "#").None?)
    ensures var lines := ["data:" + Numeral(|pool|, 10, false)] + PrintPool(pool) + body;
            ParseDocument(Number(lines, 0)) == ParseCases(NonBlank(Number(body, 1 + |pool|)), pool)
  {
    hide Numeral, PrintPool, ParsePool, ParseCases, ParseDocument, ParseUint, Trim, Number, NonBlank, StripPrefix;
    var num := Numeral(|pool|, 10, false);
    var rest := PrintPool(pool) + body;
    assert ["data:" + num] + PrintPool(pool) + body == ["data:" + num] + rest;
    NumberSplit("data:" + num, rest);
    DataLine(|pool|);
    UintBack(|pool|, 10);
    PoolBack(pool, body, 1);
    DocumentIs(Number(["data:" + num] + rest, 0), num, pool, Number(body, 1 + |pool|));
  }

  lemma NumberSplit(first: string, rest: seq<string>)
    ensures var all := Number([first] + rest, 0);
            all != [] && all[0].line == first && all[1..] == Number(rest, 1)
  {
  }

  lemma DocumentIs(lines: seq<Numbered>, count: string, pool: Pool, rest: seq<Numbered>)
    requires lines != [] && Trim(lines[0].line) != ""
    requires StripPrefix(Trim(lines[0].line), "data:") == Some(count) && ParseUint(Trim(count), 10).Some?
    requires ParsePool(lines[1..]) == Ok((pool, rest))
    ensures ParseDocument(lines) == ParseCases(NonBlank(rest), pool)
  {
  }

  /** In particular, the printed text itself. */
  lemma {:induction false} PrintParsesPlain(pool: Pool, cases: seq<CaseDoc>)
    requires Fits(pool, cases)
    ensures ParseText(Print(pool, cases)) == Ok(Meaning(cases, pool))
  {
    hide PrintPool, Meaning, ParseText, Numeral;
    PrintedIsClean(pool, cases);
    PrintParses(pool, cases, PrintCases(cases));
  }

  lemma {:induction false} PrintedIsClean(pool: Pool, cases: seq<CaseDoc>)
    requires Fits(pool, cases)
    ensures PlainLines(PrintCases(cases)) && DropBlank(PrintCases(cases)) == PrintCases(cases)
    decreases |cases|
  {
    hide PrintCase, CaseFits;
    if cases != [] {
      assert CaseFits(cases[0], pool);
      CaseIsClean(pool, cases[0]);
      PrintedIsClean(pool, cases[1..]);
      CleanAppend(PrintCase(cases[0]), PrintCases(cases[1..]));
    }
  }

  lemma CaseIsClean(pool: Pool, c: CaseDoc)
    requires |pool| < TWO64 && CaseFits(c, pool)
    ensures forall k :: 0 <= k < |PrintCase(c)| ==> Clean(PrintCase(c)[k])
  {
    hide PrintHeader, PrintRow, RowFits;
    HeaderIsClean(c);
    forall k | 0 <= k < |c.rows| ensures Clean(PrintRow(c.rows[k])) {
      RowIsClean(c.rows[k], c, pool);
    }
  }

  lemma PlainFirst(lines: seq<string>)
    requires lines != [] && PlainLines(lines[1..]) && '\n' !in lines[0] && DropReturn(lines[0]) == lines[0]
    ensures PlainLines(lines)
  {
    hide DropReturn;
    forall k | 0 <= k < |lines| ensures '\n' !in lines[k] && DropReturn(lines[k]) == lines[k] {
      if k > 0 {
        assert lines[1..][k - 1] == lines[k];
      }
    }
  }

  lemma {:induction false} CleanAppend(a: seq<string>, b: seq<string>)
    requires forall k :: 0 <= k < |a| ==> Clean(a[k])
    requires PlainLines(b) && DropBlank(b) == b
    ensures PlainLines(a + b) && DropBlank(a + b) == a + b
    decreases |a|
  {
    hide Blank, Clean, DropReturn;
    if a == [] {
      assert a + b == b;
    } else {
      var all := a + b;
      CleanAppend(a[1..], b);
      assert all[0] == a[0] && all[1..] == a[1..] + b;
      CleanIsPlain(a[0]);
      PlainFirst(all);
      assert all == [all[0]] + all[1..];
    }
  }
}
