/** The parser's loops, proved against the functions of `Corpus`. */
module CorpusParser {
  import opened Words
  import opened Text
  import opened Hex
  import opened Corpus

  function After<T>(xs: seq<T>, r: Result<seq<T>>): Result<seq<T>> {
    match r
    case Err(line) => Err(line)
    case Ok(ys) => Ok(xs + ys)
  }

  lemma AfterNothing<T>(r: Result<seq<T>>)
    ensures After([], r) == r
  {
    if r.Ok? {
      assert [] + r.value == r.value;
    }
  }

  lemma AfterEnd<T>(xs: seq<T>)
    ensures After(xs, Ok([])) == Ok(xs)
  {
    assert xs + [] == xs;
  }

  lemma AfterOne<T>(xs: seq<T>, x: T, r: Result<seq<T>>)
    ensures After(xs, After([x], r)) == After(xs + [x], r)
  {
    if r.Ok? {
      assert xs + ([x] + r.value) == (xs + [x]) + r.value;
    }
  }

  // ----- fields

  method ReadHexBytes(hex: string) returns (r: Option<seq<U8>>)
    ensures r == ParseHexBytes(hex)
  {
    r := DecodePairs(Trim(hex));
  }

  lemma IndicesFrom(parts: seq<string>, k: nat)
    requires k < |parts|
    ensures var part := Trim(parts[k]);
            var rest := ParseAllUint(KeepNonEmpty(parts[k + 1..]));
            ParseAllUint(KeepNonEmpty(parts[k..])) ==
            if part == "" then rest
            else if ParseUint(part, 10).None? then None
            else Prepend([ParseUint(part, 10).value as nat], rest)
  {
    hide ParseUint, Trim;
    assert parts[k..][0] == parts[k] && parts[k..][1..] == parts[k + 1..];
    var part := Trim(parts[k]);
    var rest := KeepNonEmpty(parts[k + 1..]);
    var kept := KeepNonEmpty(parts[k..]);
    if part == "" {
      assert kept == [] + rest == rest;
    } else {
      assert kept == [part] + rest;
      assert kept[0] == part && kept[1..] == rest;
    }
  }

  method ReadIndices(field: string) returns (r: Option<seq<nat>>)
    ensures r == ParseIndices(field)
  {
    hide ParseUint, Trim, ParseAllUint, KeepNonEmpty;
    var parts := Split(field, ',');
    var indices: seq<nat> := [];
    assert parts[0..] == parts;
    PrependNothing(ParseIndices(field));
    for k := 0 to |parts|
      invariant ParseIndices(field) == Prepend(indices, ParseAllUint(KeepNonEmpty(parts[k..])))
    {
      IndicesFrom(parts, k);
      var part := Trim(parts[k]);
      if part == "" {
        continue;
      }
      var n := ParseUint(part, 10);
      if n.None? {
        return None;
      }
      PrependOne(indices, n.value as nat, ParseAllUint(KeepNonEmpty(parts[k + 1..])));
      indices := indices + [n.value];
    }
    assert parts[|parts|..] == [];
    NoIndices();
    PrependEnd(indices);
    return Some(indices);
  }

  lemma NoIndices()
    ensures ParseAllUint(KeepNonEmpty([])) == Some([])
  {
  }

  lemma BindFrom(schema: seq<string>, indices: seq<nat>, pool: Pool, k: nat)
    requires k < |schema| == |indices|
    ensures Bind(schema[k..], indices[k..], pool) ==
            if indices[k] >= |pool| then None
            else Prepend([Binding(schema[k], pool[indices[k]])], Bind(schema[k + 1..], indices[k + 1..], pool))
  {
  }

  method BindValues(schema: seq<string>, indices: seq<nat>, pool: Pool) returns (r: Option<seq<Binding>>)
    ensures r == Bind(schema, indices, pool)
  {
    if |schema| != |indices| {
      return None;
    }
    var out: seq<Binding> := [];
    assert schema[0..] == schema && indices[0..] == indices;
    PrependNothing(Bind(schema, indices, pool));
    for k := 0 to |schema|
      invariant Bind(schema, indices, pool) == Prepend(out, Bind(schema[k..], indices[k..], pool))
    {
      hide Bind;
      BindFrom(schema, indices, pool, k);
      if indices[k] >= |pool| {
        return None;
      }
      var b := Binding(schema[k], pool[indices[k]]);
      PrependOne(out, b, Bind(schema[k + 1..], indices[k + 1..], pool));
      out := out + [b];
    }
    assert schema[|schema|..] == [] && indices[|schema|..] == [];
    PrependEnd(out);
    return Some(out);
  }

  // ----- lines

  /** The position of the first line from k on that is not blank. */
  method SkipBlanks(lines: seq<Numbered>, k: nat) returns (j: nat)
    requires k <= |lines|
    ensures k <= j <= |lines| && NonBlank(lines[j..]) == NonBlank(lines[k..])
    ensures j < |lines| ==> !Blank(lines[j].line) && NonBlank(lines[j..]) == [lines[j]] + NonBlank(lines[j + 1..])
    ensures j == |lines| ==> NonBlank(lines[j..]) == []
  {
    hide Blank;
    j := k;
    while j < |lines| && Blank(lines[j].line)
      invariant k <= j <= |lines| && NonBlank(lines[j..]) == NonBlank(lines[k..])
    {
      assert lines[j..][0] == lines[j] && lines[j..][1..] == lines[j + 1..];
      j := j + 1;
    }
    if j < |lines| {
      assert lines[j..][0] == lines[j] && lines[j..][1..] == lines[j + 1..];
    }
  }

  method ReadOutcome(h: Header, rhs: string, pool: Pool) returns (r: Option<Outcome>)
    ensures r == ParseOutcome(h, rhs, pool)
  {
    hide Trim, ParseIndices, Bind;
    var exc := StripPrefix(Trim(rhs), "!");
    if exc.Some? {
      return Some(Exception(Trim(exc.value)));
    }
    var indices := ReadIndices(rhs);
    if indices.None? {
      return None;
    }
    var bindings := BindValues(h.outSchema, indices.value, pool);
    return if bindings.None? then None else Some(State(bindings.value));
  }

  method ReadRow(h: Header, line: string, pool: Pool) returns (r: Option<Row>)
    ensures r == ParseRow(h, line, pool)
  {
    hide Trim, ParseIndices, Bind, ParseOutcome;
    var s := Trim(line);
    var bar := FindBar(s);
    if bar == |s| {
      return None;
    }
    var indices := ReadIndices(s[..bar]);
    if indices.None? {
      return None;
    }
    var inputs := BindValues(h.inSchema, indices.value, pool);
    if inputs.None? {
      return None;
    }
    var output := ReadOutcome(h, s[bar + 1..], pool);
    return if output.None? then None else Some(Row(inputs.value, output.value));
  }

  lemma RowsFrom(h: Header, lines: seq<Numbered>, count: nat, pool: Pool, at: nat)
    requires count > 0
    ensures ParseRows(h, lines, count, pool, at) ==
            if lines == [] then Err(at)
            else
              match ParseRow(h, lines[0].line, pool)
              case None => Err(lines[0].no + 1)
              case Some(row) => After([row], ParseRows(h, lines[1..], count - 1, pool, at))
  {
  }

  /** Reads the rows of one header, skipping blank lines, and says where it stopped. */
  method ReadRows(h: Header, lines: seq<Numbered>, k: nat, pool: Pool, at: nat) returns (r: Result<seq<Row>>, j: nat)
    requires k <= |lines|
    ensures r == ParseRows(h, NonBlank(lines[k..]), h.rowCount, pool, at)
    ensures k <= j <= |lines|
    ensures r.Ok? ==> NonBlank(lines[j..]) == NonBlank(lines[k..])[h.rowCount..]
  {
    hide ParseRow, NonBlank, Blank, ParseRows;
    var rows: seq<Row> := [];
    j := k;
    ghost var all := NonBlank(lines[k..]);
    ghost var goal := ParseRows(h, all, h.rowCount, pool, at);
    assert all[0..] == all;
    AfterNothing(goal);
    for i := 0 to h.rowCount
      invariant k <= j <= |lines| && i <= |all| && NonBlank(lines[j..]) == all[i..]
      invariant After(rows, ParseRows(h, all[i..], h.rowCount - i, pool, at)) == goal
    {
      j := SkipBlanks(lines, j);
      RowsFrom(h, all[i..], h.rowCount - i, pool, at);
      if j == |lines| {
        return Err(at), j;
      }
      var row := ReadRow(h, lines[j].line, pool);
      assert all[i..][0] == lines[j] && all[i..][1..] == all[i + 1..];
      if row.None? {
        return Err(lines[j].no + 1), j;
      }
      AfterOne(rows, row.value, ParseRows(h, all[i + 1..], h.rowCount - i - 1, pool, at));
      rows := rows + [row.value];
      j := j + 1;
    }
    NoRows(h, all[h.rowCount..], pool, at);
    AfterEnd(rows);
    r := Ok(rows);
  }

  lemma NoRows(h: Header, lines: seq<Numbered>, pool: Pool, at: nat)
    ensures ParseRows(h, lines, 0, pool, at) == Ok([])
  {
  }

  lemma CasesStep(lines: seq<Numbered>, pool: Pool, h: Header, rows: seq<Row>, done: seq<Case>)
    requires lines != [] && ParseInstr(lines[0].line) == Some(h)
    requires ParseRows(h, lines[1..], h.rowCount, pool, lines[0].no + 1) == Ok(rows)
    ensures After(done, ParseCases(lines, pool))
            == After(done + [CaseOf(h, rows)], ParseCases(lines[1..][h.rowCount..], pool))
  {
    hide ParseInstr, ParseRows, CaseOf;
    var more := ParseCases(lines[1 + h.rowCount..], pool);
    assert lines[1..][h.rowCount..] == lines[1 + h.rowCount..];
    assert ParseCases(lines, pool) == After([CaseOf(h, rows)], more);
    AfterOne(done, CaseOf(h, rows), more);
  }

  method ReadCases(lines: seq<Numbered>, pool: Pool) returns (r: Result<seq<Case>>)
    ensures r == ParseCases(NonBlank(lines), pool)
  {
    hide ParseInstr, ParseRows, NonBlank, Blank, CaseOf, ParseCases;
    var cases: seq<Case> := [];
    var k := 0;
    ghost var goal := ParseCases(NonBlank(lines), pool);
    assert lines[0..] == lines;
    AfterNothing(goal);
    while k < |lines|
      invariant 0 <= k <= |lines|
      invariant After(cases, ParseCases(NonBlank(lines[k..]), pool)) == goal
    {
      k := SkipBlanks(lines, k);
      if k == |lines| {
        break;
      }
      var at := lines[k].no + 1;
      ghost var rest := NonBlank(lines[k..]);
      assert rest[0] == lines[k] && rest[1..] == NonBlank(lines[k + 1..]);
      CasesFail(rest, pool);
      var h := ParseInstr(lines[k].line);
      if h.None? {
        return Err(at);
      }
      var rows, j := ReadRows(h.value, lines, k + 1, pool, at);
      if rows.Err? {
        return Err(rows.line);
      }
      CasesStep(rest, pool, h.value, rows.value, cases);
      cases := cases + [CaseOf(h.value, rows.value)];
      k := j;
    }
    NoLines(lines, k, pool);
    AfterEnd(cases);
    r := Ok(cases);
  }

  lemma NoLines(lines: seq<Numbered>, k: nat, pool: Pool)
    requires k == |lines|
    ensures ParseCases(NonBlank(lines[k..]), pool) == Ok([])
  {
  }

  lemma CasesFail(lines: seq<Numbered>, pool: Pool)
    requires lines != []
    ensures var at := lines[0].no + 1;
            match ParseInstr(lines[0].line)
            case None => ParseCases(lines, pool) == Err(at)
            case Some(h) =>
              var rows := ParseRows(h, lines[1..], h.rowCount, pool, at);
              rows.Err? ==> ParseCases(lines, pool) == Err(rows.line)
  {
  }

  function AddPool(pool: Pool, r: Result<(Pool, seq<Numbered>)>): Result<(Pool, seq<Numbered>)> {
    match r
    case Err(line) => Err(line)
    case Ok((more, rest)) => Ok((pool + more, rest))
  }

  lemma AddNoPool(r: Result<(Pool, seq<Numbered>)>)
    ensures AddPool([], r) == r
  {
    if r.Ok? {
      assert [] + r.value.0 == r.value.0;
    }
  }

  lemma AddPoolOne(pool: Pool, x: seq<U8>, r: Result<(Pool, seq<Numbered>)>)
    ensures AddPool(pool, AddPool([x], r)) == AddPool(pool + [x], r)
  {
    if r.Ok? {
      assert pool + ([x] + r.value.0) == (pool + [x]) + r.value.0;
    }
  }

  lemma PoolFrom(lines: seq<Numbered>, j: nat)
    requires j < |lines|
    ensures ParsePool(lines[j..]) ==
            match StripPrefix(Trim(lines[j].line), "#")
            case None => Ok(([], lines[j..]))
            case Some(hex) =>
              match ParseHexBytes(hex)
              case None => Err(lines[j].no + 1)
              case Some(bytes) => AddPool([bytes], ParsePool(lines[j + 1..]))
  {
  }

  /** The pool lines from k on, and where they end. */
  method ReadPool(lines: seq<Numbered>, k: nat) returns (r: Result<Pool>, j: nat)
    requires k <= |lines|
    ensures k <= j <= |lines|
    ensures match ParsePool(lines[k..])
            case Err(line) => r == Err(line)
            case Ok((pool, rest)) => r == Ok(pool) && rest == lines[j..]
  {
    hide ParseHexBytes, Trim, StripPrefix;
    var pool: Pool := [];
    j := k;
    ghost var goal := ParsePool(lines[k..]);
    AddNoPool(goal);
    while j < |lines|
      invariant k <= j <= |lines| && goal == AddPool(pool, ParsePool(lines[j..]))
    {
      hide ParsePool;
      PoolFrom(lines, j);
      var hex := StripPrefix(Trim(lines[j].line), "#");
      if hex.None? {
        assert pool + [] == pool;
        return Ok(pool), j;
      }
      var bytes := ReadHexBytes(hex.value);
      if bytes.None? {
        return Err(lines[j].no + 1), j;
      }
      AddPoolOne(pool, bytes.value, ParsePool(lines[j + 1..]));
      pool := pool + [bytes.value];
      j := j + 1;
    }
    assert lines[j..] == [] && pool + [] == pool;
    r := Ok(pool);
  }

  /** The whole parser. */
  method ReadCorpus(text: string) returns (r: Result<seq<Case>>)
    ensures r == ParseText(text)
  {
    var lines := Number(Lines(text), 0);
    var k := 0;
    assert lines[0..] == lines;
    while k < |lines|
      invariant 0 <= k <= |lines| && ParseDocument(lines[k..]) == ParseDocument(lines)
    {
      hide ParsePool, ParseCases, ParseUint;
      assert lines[k..][0] == lines[k] && lines[k..][1..] == lines[k + 1..];
      var line := Trim(lines[k].line);
      if line == "" {
        k := k + 1;
        continue;
      }
      var count := StripPrefix(line, "data:");
      if count.None? || ParseUint(Trim(count.value), 10).None? {
        return Err(lines[k].no + 1);
      }
      var pool, j := ReadPool(lines, k + 1);
      if pool.Err? {
        return Err(pool.line);
      }
      r := ReadCases(lines[j..], pool.value);
      return;
    }
    assert lines[k..] == [];
    r := Ok([]);
  }
}
