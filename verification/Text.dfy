/** Rust's `str` operations that the parsers use: trim, split, join, lines, strip_prefix. */
module Text {
  import opened Words

  /** `char::is_whitespace`: Unicode White_Space. */
  predicate IsWhite(c: char) {
    var n := c as int;
    || 0x09 <= n <= 0x0D || n == 0x20 || n == 0x85 || n == 0xA0 || n == 0x1680
    || 0x2000 <= n <= 0x200A || n == 0x2028 || n == 0x2029 || n == 0x202F || n == 0x205F || n == 0x3000
  }

  function TrimStart(s: string): (t: string)
    ensures t == "" || !IsWhite(t[0])
  {
    if s != "" && IsWhite(s[0]) then TrimStart(s[1..]) else s
  }

  function TrimEnd(s: string): (t: string)
    ensures t <= s && (t == "" || !IsWhite(t[|t| - 1]))
  {
    if s != "" && IsWhite(s[|s| - 1]) then TrimEnd(s[..|s| - 1]) else s
  }

  function Trim(s: string): string {
    TrimEnd(TrimStart(s))
  }

  /** Trimming leaves it alone. */
  predicate Trimmed(s: string) {
    s == "" || (!IsWhite(s[0]) && !IsWhite(s[|s| - 1]))
  }

  lemma TrimTrimmed(s: string)
    requires Trimmed(s)
    ensures Trim(s) == s
  {
  }

  function StripPrefix(s: string, p: string): Option<string> {
    if p <= s then Some(s[|p|..]) else None
  }

  lemma StripOwnPrefix(p: string, s: string)
    ensures StripPrefix(p + s, p) == Some(s)
  {
  }

  // ----- split and join on one character

  function Split(s: string, c: char): (parts: seq<string>)
    ensures |parts| > 0
  {
    if s == "" then [""]
    else
      var rest := Split(s[1..], c);
      if s[0] == c then [""] + rest else [[s[0]] + rest[0]] + rest[1..]
  }

  function Join(parts: seq<string>, c: char): string {
    if parts == [] then ""
    else if |parts| == 1 then parts[0]
    else parts[0] + [c] + Join(parts[1..], c)
  }

  lemma {:induction false} SplitAtFirst(a: string, b: string, c: char)
    requires c !in a
    ensures Split(a + [c] + b, c) == [a] + Split(b, c)
    decreases |a|
  {
    var s := a + [c] + b;
    if a == "" {
      assert s[1..] == b;
    } else {
      assert s[1..] == a[1..] + [c] + b && s[0] == a[0];
      SplitAtFirst(a[1..], b, c);
      assert a == [a[0]] + a[1..];
    }
  }

  lemma {:induction false} SplitWhole(s: string, c: char)
    requires c !in s
    ensures Split(s, c) == [s]
  {
    if s != "" {
      SplitWhole(s[1..], c);
      assert s == [s[0]] + s[1..];
    }
  }

  ghost predicate Free(parts: seq<string>, c: char) {
    forall k :: 0 <= k < |parts| ==> c !in parts[k]
  }

  /** Pieces without the separator survive joining and splitting. */
  lemma {:induction false} SplitJoin(parts: seq<string>, c: char)
    requires parts != [] && Free(parts, c)
    ensures Split(Join(parts, c), c) == parts
    decreases |parts|
  {
    if |parts| == 1 {
      SplitWhole(parts[0], c);
    } else {
      SplitJoin(parts[1..], c);
      SplitAtFirst(parts[0], Join(parts[1..], c), c);
    }
  }

  /** Splitting loses nothing, and no piece holds the separator. */
  lemma {:induction false} JoinSplit(s: string, c: char)
    ensures Join(Split(s, c), c) == s && Free(Split(s, c), c)
    decreases |s|
  {
    if s != "" {
      JoinSplit(s[1..], c);
      var rest := Split(s[1..], c);
      if s[0] == c {
        assert Join([""] + rest, c) == "" + [c] + Join(rest, c) by { assert ([""] + rest)[1..] == rest; }
      } else {
        var head := [s[0]] + rest[0];
        var parts := [head] + rest[1..];
        assert parts[1..] == rest[1..];
        assert Join(parts, c) == [s[0]] + Join(rest, c);
        assert c !in head;
      }
      assert s == [s[0]] + s[1..];
    }
  }

  lemma {:induction false} JoinAppend(xs: seq<string>, ys: seq<string>, c: char)
    requires xs != [] && ys != []
    ensures Join(xs + ys, c) == Join(xs, c) + [c] + Join(ys, c)
    decreases |xs|
  {
    var all := xs + ys;
    if |xs| == 1 {
      assert all[1..] == ys;
    } else {
      assert all[1..] == xs[1..] + ys;
      JoinAppend(xs[1..], ys, c);
    }
  }

  lemma {:induction false} JoinLacks(parts: seq<string>, c: char, x: char)
    requires Free(parts, x) && x != c
    ensures x !in Join(parts, c)
    decreases |parts|
  {
    if |parts| > 1 {
      JoinLacks(parts[1..], c, x);
    }
  }

  /** A join of trimmed pieces with non-empty ends is trimmed, and starts and ends as they do. */
  lemma {:induction false} JoinEnds(parts: seq<string>, c: char)
    requires parts != [] && parts[0] != "" && parts[|parts| - 1] != ""
    ensures var s := Join(parts, c);
            var last := parts[|parts| - 1];
            s != "" && s[0] == parts[0][0] && s[|s| - 1] == last[|last| - 1]
    decreases |parts|
  {
    if |parts| > 1 {
      var front, last := parts[..|parts| - 1], parts[|parts| - 1];
      assert parts == front + [last];
      JoinAppend(front, [last], c);
      assert Join(parts, c) == parts[0] + [c] + Join(parts[1..], c);
    }
  }

  // ----- lines

  function DropReturn(line: string): string {
    if line != "" && line[|line| - 1] == '\r' then line[..|line| - 1] else line
  }

  /** `str::lines`: a trailing newline ends the last line, and a carriage return before a newline goes. */
  function Lines(text: string): seq<string> {
    var parts := Split(text, '\n');
    var n := |parts| - 1;
    var whole := seq(n, i requires 0 <= i < n => DropReturn(parts[i]));
    if parts[n] == "" then whole else whole + [parts[n]]
  }

  /** Each line followed by a newline. */
  function Unlines(lines: seq<string>): string {
    if lines == [] then "" else lines[0] + "\n" + Unlines(lines[1..])
  }

  ghost predicate PlainLines(lines: seq<string>) {
    forall k :: 0 <= k < |lines| ==> '\n' !in lines[k] && DropReturn(lines[k]) == lines[k]
  }

  lemma {:induction false} SplitUnlines(lines: seq<string>)
    requires Free(lines, '\n')
    ensures Split(Unlines(lines), '\n') == lines + [""]
    decreases |lines|
  {
    if lines != [] {
      SplitUnlines(lines[1..]);
      SplitAtFirst(lines[0], Unlines(lines[1..]), '\n');
      assert "\n" == ['\n'];
    }
  }

  lemma LinesUnlines(lines: seq<string>)
    requires PlainLines(lines)
    ensures Lines(Unlines(lines)) == lines
  {
    SplitUnlines(lines);
  }
}
