/**
 The initial stack that `emu/initialization.rs` builds for a macOS AArch64 program.

 Guest memory is the map of the mapped bytes; a write outside of it is dropped. Arguments are byte
 strings. The stack mapping does not wrap around the address space.
 */
module StackLayout {
  import opened Words

  type Mem = map<nat, U8>

  const STACK_SIZE: nat := 0x100000
  const ARGV_OFFSET: nat := 0x100
  const STRINGS_OFFSET: nat := 0x200
  const ABOVE_SP: nat := 0x2000

  // ----- bytes and words

  /** The n low bytes of v, least significant first. */
  function LittleEndian(v: nat, n: nat): (bs: seq<U8>)
    ensures |bs| == n
  {
    if n == 0 then [] else [v % 256] + LittleEndian(v / 256, n - 1)
  }

  function FromLittleEndian(bs: seq<U8>): nat {
    if bs == [] then 0 else bs[0] + 256 * FromLittleEndian(bs[1..])
  }

  function Pow256(n: nat): nat {
    if n == 0 then 1 else 256 * Pow256(n - 1)
  }

  lemma {:induction false} LittleEndianBack(v: nat, n: nat)
    requires v < Pow256(n)
    ensures FromLittleEndian(LittleEndian(v, n)) == v
    decreases n
  {
    if n > 0 {
      LittleEndianBack(v / 256, n - 1);
      assert LittleEndian(v, n)[1..] == LittleEndian(v / 256, n - 1);
    }
  }

  /** A 64-bit little-endian word. */
  function Qword(v: nat): (bs: seq<U8>)
    ensures |bs| == 8
  {
    LittleEndian(v, 8)
  }

  // ----- memory

  /** Memory with bytes written from `at` on, as far as it is mapped. */
  function Put(mem: Mem, at: nat, bs: seq<U8>): (r: Mem)
    ensures r.Keys == mem.Keys
    ensures forall k :: k in mem ==> r[k] == if at <= k < at + |bs| then bs[k - at] else mem[k]
  {
    map k | k in mem :: if at <= k < at + |bs| then bs[k - at] else mem[k]
  }

  lemma PutAppend(mem: Mem, at: nat, a: seq<U8>, b: seq<U8>)
    ensures Put(Put(mem, at, a), at + |a|, b) == Put(mem, at, a + b)
  {
  }

  lemma PutNothing(mem: Mem, at: nat)
    ensures Put(mem, at, []) == mem
  {
  }

  ghost predicate ByteIs(mem: Mem, at: nat, b: U8) {
    at in mem && mem[at] == b
  }

  /** The bytes from `at` on are mapped and hold `bs`. */
  ghost predicate Holds(mem: Mem, at: nat, bs: seq<U8>) {
    forall k :: 0 <= k < |bs| ==> ByteIs(mem, at + k, bs[k])
  }

  ghost predicate Mapped(mem: Mem, from: nat, to: nat) {
    forall k :: from <= k < to ==> k in mem
  }

  lemma PutHolds(mem: Mem, at: nat, bs: seq<U8>, i: nat, part: seq<U8>)
    requires i + |part| <= |bs| && bs[i..i + |part|] == part && Mapped(mem, at + i, at + i + |part|)
    ensures Holds(Put(mem, at, bs), at + i, part)
  {
  }

  lemma PutFront(mem: Mem, at: nat, a: seq<U8>, b: seq<U8>)
    requires Mapped(mem, at, at + |a|)
    ensures Holds(Put(mem, at, a + b), at, a)
  {
  }

  lemma PutElsewhere(mem: Mem, at: nat, bs: seq<U8>, from: nat, part: seq<U8>)
    requires Holds(mem, from, part) && (from + |part| <= at || at + |bs| <= from)
    ensures Holds(Put(mem, at, bs), from, part)
  {
  }

  // ----- what a program reads

  function WithNul(s: seq<U8>): seq<U8> {
    s + [0]
  }

  predicate NulFree(s: seq<U8>) {
    forall k :: 0 <= k < |s| ==> s[k] != 0
  }

  /** A null-terminated string at p. */
  ghost predicate StringAt(mem: Mem, p: nat, s: seq<U8>) {
    NulFree(s) && Holds(mem, p, WithNul(s))
  }

  /** A null-terminated array of string pointers at p. */
  ghost predicate ArgvAt(mem: Mem, p: nat, args: seq<seq<U8>>)
    decreases |args|
  {
    if args == [] then Holds(mem, p, Qword(0))
    else
      && (exists q: U64 :: q != 0 && Holds(mem, p, Qword(q)) && StringAt(mem, q, args[0]))
      && ArgvAt(mem, p + 8, args[1..])
  }

  lemma HoldsAt(mem: Mem, p: nat, bs: seq<U8>, k: nat)
    requires Holds(mem, p, bs) && k < |bs|
    ensures ByteIs(mem, p + k, bs[k])
  {
  }

  lemma HoldsOnce(mem: Mem, p: nat, a: seq<U8>, b: seq<U8>)
    requires Holds(mem, p, a) && Holds(mem, p, b) && |a| == |b|
    ensures a == b
  {
  }

  lemma QwordOnce(mem: Mem, p: nat, v: U64, w: U64)
    requires Holds(mem, p, Qword(v)) && Holds(mem, p, Qword(w))
    ensures v == w
  {
    HoldsOnce(mem, p, Qword(v), Qword(w));
    assert Pow256(8) == TWO64;
    LittleEndianBack(v, 8);
    LittleEndianBack(w, 8);
  }

  lemma StringOnce(mem: Mem, p: nat, a: seq<U8>, b: seq<U8>)
    requires StringAt(mem, p, a) && StringAt(mem, p, b)
    ensures a == b
  {
    var x, y := WithNul(a), WithNul(b);
    if |a| < |b| {
      HoldsAt(mem, p, x, |a|);
      HoldsAt(mem, p, y, |a|);
    } else if |b| < |a| {
      HoldsAt(mem, p, x, |b|);
      HoldsAt(mem, p, y, |b|);
    } else {
      HoldsOnce(mem, p, x, y);
      assert a == x[..|a|] && b == y[..|b|];
    }
  }

  /** Walking an argument vector can give one answer only. */
  lemma {:induction false} ArgvOnce(mem: Mem, p: nat, a: seq<seq<U8>>, b: seq<seq<U8>>)
    requires ArgvAt(mem, p, a) && ArgvAt(mem, p, b)
    ensures a == b
    decreases |a|
  {
    hide Holds, StringAt;
    if a == [] {
      if b != [] {
        var q: U64 :| q != 0 && Holds(mem, p, Qword(q)) && StringAt(mem, q, b[0]);
        QwordOnce(mem, p, 0, q);
      }
    } else {
      var q: U64 :| q != 0 && Holds(mem, p, Qword(q)) && StringAt(mem, q, a[0]);
      if b == [] {
        QwordOnce(mem, p, 0, q);
      } else {
        var q': U64 :| q' != 0 && Holds(mem, p, Qword(q')) && StringAt(mem, q', b[0]);
        QwordOnce(mem, p, q, q');
        StringOnce(mem, q, a[0], b[0]);
        ArgvOnce(mem, p + 8, a[1..], b[1..]);
        assert a == [a[0]] + a[1..] && b == [b[0]] + b[1..];
      }
    }
  }

  // ----- the layout

  /** The strings one after another, each with its terminator. */
  function Block(args: seq<seq<U8>>): seq<U8> {
    if args == [] then [] else WithNul(args[0]) + Block(args[1..])
  }

  /** Where each string of a block at `at` starts. */
  function Pointers(args: seq<seq<U8>>, at: nat): (ps: seq<nat>)
    ensures |ps| == |args|
  {
    if args == [] then [] else [at] + Pointers(args[1..], at + |args[0]| + 1)
  }

  function WordBytes(vs: seq<nat>): (bs: seq<U8>)
    ensures |bs| == 8 * |vs|
  {
    if vs == [] then [] else Qword(vs[0]) + WordBytes(vs[1..])
  }

  /** The strings above sp, then the pointers with the three empty-array terminators below them. */
  function Laid(mem: Mem, sp: nat, args: seq<seq<U8>>): Mem {
    var strings := sp + STRINGS_OFFSET;
    Put(Put(mem, strings, Block(args)), sp + ARGV_OFFSET, WordBytes(Pointers(args, strings) + [0, 0, 0]))
  }

  lemma HoldsSplit(mem: Mem, p: nat, a: seq<U8>, b: seq<U8>)
    requires Holds(mem, p, a + b)
    ensures Holds(mem, p, a) && Holds(mem, p + |a|, b)
  {
    forall k | 0 <= k < |a| ensures ByteIs(mem, p + k, a[k]) {
      HoldsAt(mem, p, a + b, k);
    }
    forall k | 0 <= k < |b| ensures ByteIs(mem, p + |a| + k, b[k]) {
      HoldsAt(mem, p, a + b, |a| + k);
    }
  }

  lemma {:induction false} WordBytesAppend(x: seq<nat>, y: seq<nat>)
    ensures WordBytes(x + y) == WordBytes(x) + WordBytes(y)
    decreases |x|
  {
    if x == [] {
      assert x + y == y;
    } else {
      assert (x + y)[1..] == x[1..] + y;
      WordBytesAppend(x[1..], y);
    }
  }

  /** Pointers and strings in place read back as the arguments. */
  lemma {:induction false} ReadsAsArgv(mem: Mem, argv: nat, strings: nat, args: seq<seq<U8>>)
    requires Holds(mem, argv, WordBytes(Pointers(args, strings)) + Qword(0)) && Holds(mem, strings, Block(args))
    requires 0 < strings && strings + |Block(args)| <= TWO64
    requires forall k :: 0 <= k < |args| ==> NulFree(args[k])
    ensures ArgvAt(mem, argv, args)
    decreases |args|
  {
    hide Holds, Qword;
    if args == [] {
      assert WordBytes(Pointers(args, strings)) + Qword(0) == Qword(0);
    } else {
      var next := strings + |args[0]| + 1;
      var ps, rest := Pointers(args, strings), Pointers(args[1..], next);
      assert ps[0] == strings && ps[1..] == rest;
      assert WordBytes(ps) + Qword(0) == Qword(strings) + (WordBytes(rest) + Qword(0));
      HoldsSplit(mem, argv, Qword(strings), WordBytes(rest) + Qword(0));
      HoldsSplit(mem, strings, WithNul(args[0]), Block(args[1..]));
      assert StringAt(mem, strings, args[0]);
      ReadsAsArgv(mem, argv + 8, next, args[1..]);
    }
  }

  /**
   With at most 29 NUL-free arguments whose strings fit in the mapping above the string base, no
   write clobbers an earlier one: the argument vector reads back as the arguments, and the
   environment and apple vectors are empty.
   */
  lemma LaidReadsBack(mem: Mem, sp: nat, args: seq<seq<U8>>)
    requires |args| <= 29 && |Block(args)| <= ABOVE_SP - STRINGS_OFFSET
    requires Mapped(mem, sp, sp + ABOVE_SP) && sp + ABOVE_SP <= TWO64
    requires forall k :: 0 <= k < |args| ==> NulFree(args[k])
    ensures var argv := sp + ARGV_OFFSET;
            var envp := argv + (|args| + 1) * 8;
            var m := Laid(mem, sp, args);
            && ArgvAt(m, argv, args)
            && ArgvAt(m, envp, [])
            && ArgvAt(m, envp + 8, [])
            && forall k :: k in mem
                           && !(argv <= k < envp + 16 || sp + STRINGS_OFFSET <= k < sp + STRINGS_OFFSET + |Block(args)|)
                           ==> k in m && m[k] == mem[k]
  {
    hide Holds, Qword, Put, Block, Pointers, WordBytes;
    var argv, strings := sp + ARGV_OFFSET, sp + STRINGS_OFFSET;
    var m1 := Put(mem, strings, Block(args));
    var ps := Pointers(args, strings);
    var words := WordBytes(ps + [0, 0, 0]);
    var m := Put(m1, argv, words);
    assert Block(args)[0..0 + |Block(args)|] == Block(args) && words[0..0 + |words|] == words;
    PutHolds(mem, strings, Block(args), 0, Block(args));
    PutElsewhere(m1, argv, words, strings, Block(args));
    PutHolds(m1, argv, words, 0, words);
    VectorSplits(m, argv, ps, argv + (|args| + 1) * 8);
    ReadsAsArgv(m, argv, strings, args);
  }

  lemma VectorSplits(m: Mem, argv: nat, ps: seq<nat>, envp: nat)
    requires Holds(m, argv, WordBytes(ps + [0, 0, 0])) && envp == argv + |WordBytes(ps)| + 8
    ensures Holds(m, argv, WordBytes(ps) + Qword(0)) && Holds(m, envp, Qword(0)) && Holds(m, envp + 8, Qword(0))
  {
    hide Qword, WordBytes;
    var w, z := WordBytes(ps), Qword(0);
    WordBytesAppend(ps, [0, 0, 0]);
    ThreeZeros();
    SplitThree(m, argv, w, z, envp);
  }

  lemma SplitThree(m: Mem, p: nat, w: seq<U8>, z: seq<U8>, q: nat)
    requires Holds(m, p, w + (z + (z + z))) && q == p + |w| + |z|
    ensures Holds(m, p, w + z) && Holds(m, q, z) && Holds(m, q + |z|, z)
  {
    hide Holds;
    assert w + (z + (z + z)) == (w + z) + (z + z);
    HoldsSplit(m, p, w + z, z + z);
    HoldsSplit(m, q, z, z);
  }

  lemma WordBytesSnoc(vs: seq<nat>, i: nat)
    requires i < |vs|
    ensures WordBytes(vs[..i + 1]) == WordBytes(vs[..i]) + Qword(vs[i])
  {
    hide Qword;
    var one := [vs[i]];
    assert vs[..i + 1] == vs[..i] + one && one[1..] == [];
    WordBytesAppend(vs[..i], one);
  }

  lemma ThreeZeros()
    ensures WordBytes([0, 0, 0]) == Qword(0) + (Qword(0) + Qword(0))
  {
  }

  lemma {:induction false} WordAt(vs: seq<nat>, i: nat, b: nat)
    requires i < |vs| && b < 8
    ensures WordBytes(vs)[8 * i + b] == Qword(vs[i])[b]
    decreases i
  {
    hide Qword;
    if i > 0 {
      WordAt(vs[1..], i - 1, b);
      assert WordBytes(vs)[8 * i + b] == WordBytes(vs[1..])[8 * (i - 1) + b];
    }
  }

  lemma {:induction false} HighBytes(v: nat, n: nat, k: nat)
    requires k < n && v < Pow256(k)
    ensures LittleEndian(v, n)[k] == 0
    decreases n
  {
    if k > 0 {
      HighBytes(v / 256, n - 1, k - 1);
      assert LittleEndian(v, n)[k] == LittleEndian(v / 256, n - 1)[k - 1];
    }
  }

  /** The words of a vector that are mapped can be read back. */
  lemma {:induction false} FrontWords(mem: Mem, argv: nat, vs: seq<nat>, c: nat)
    requires c <= |vs| && Mapped(mem, argv, argv + 8 * c)
    ensures Holds(Put(mem, argv, WordBytes(vs)), argv, WordBytes(vs[..c]))
  {
    hide Qword, Holds, Put, WordBytes, Mapped;
    var front, rest := WordBytes(vs[..c]), WordBytes(vs[c..]);
    assert WordBytes(vs) == front + rest by {
      assert vs == vs[..c] + vs[c..];
      WordBytesAppend(vs[..c], vs[c..]);
    }
    PutFront(mem, argv, front, rest);
  }

  // ----- the bound on the number of arguments is exact

  /** Arguments as the configuration gives them: only the first, the file name, may be empty. */
  predicate Configured(args: seq<seq<U8>>) {
    (forall k :: 0 <= k < |args| ==> NulFree(args[k])) && forall k :: 1 <= k < |args| ==> args[k] != []
  }

  /** No two neighbouring bytes of the strings are both terminators. */
  lemma {:induction false} NoTwoZeros(args: seq<seq<U8>>, i: nat)
    requires Configured(args) && i + 1 < |Block(args)|
    ensures Block(args)[i] != 0 || Block(args)[i + 1] != 0
    decreases |args|
  {
    var n := |args[0]|;
    if i == n {
      assert Block(args)[i + 1] == Block(args[1..])[0] == WithNul(args[1])[0];
    } else if i > n {
      NoTwoZeros(args[1..], i - n - 1);
    } else {
      assert Block(args)[i] == args[0][i];
    }
  }

  lemma {:induction false} BlockIsLong(args: seq<seq<U8>>)
    ensures |Block(args)| >= |args|
  {
    if args != [] {
      BlockIsLong(args[1..]);
    }
  }

  /** Where the vector reads back as the arguments, the strings are intact as far as its pointers are. */
  lemma {:induction false} BlockByte(m: Mem, argv: nat, p: nat, args: seq<seq<U8>>, c: nat, i: nat)
    requires ArgvAt(m, argv, args) && c <= |args| && Holds(m, argv, WordBytes(Pointers(args, p)[..c]))
    requires i < c && i < |Block(args)| && p + |Block(args)| <= TWO64
    ensures ByteIs(m, p + i, Block(args)[i])
    decreases |args|
  {
    hide Holds, Qword, StringAt;
    var n := |args[0]|;
    var ps := Pointers(args, p);
    FirstWordSplits(m, argv, ps[..c]);
    var q: U64 :| q != 0 && Holds(m, argv, Qword(q)) && StringAt(m, q, args[0]);
    QwordOnce(m, argv, q, p);
    if i <= n {
      assert Holds(m, p, WithNul(args[0])) by { StringHolds(m, p, args[0]); }
      HoldsAt(m, p, WithNul(args[0]), i);
      assert Block(args)[i] == WithNul(args[0])[i];
    } else {
      assert ps[..c][1..] == Pointers(args[1..], p + n + 1)[..c - 1];
      BlockByte(m, argv + 8, p + n + 1, args[1..], c - 1, i - n - 1);
      assert Block(args)[i] == Block(args[1..])[i - n - 1];
    }
  }

  lemma StringHolds(m: Mem, p: nat, s: seq<U8>)
    requires StringAt(m, p, s)
    ensures Holds(m, p, WithNul(s))
  {
  }

  lemma FirstWordSplits(m: Mem, p: nat, vs: seq<nat>)
    requires vs != [] && Holds(m, p, WordBytes(vs))
    ensures Holds(m, p, Qword(vs[0])) && Holds(m, p + 8, WordBytes(vs[1..]))
  {
    hide Holds, Qword;
    HoldsSplit(m, p, Qword(vs[0]), WordBytes(vs[1..]));
  }

  lemma {:induction false} PointersInside(args: seq<seq<U8>>, p: nat, k: nat)
    requires k < |args|
    ensures Pointers(args, p)[k] < p + |Block(args)|
    decreases |args|
  {
    if k > 0 {
      PointersInside(args[1..], p + |args[0]| + 1, k - 1);
    }
  }

  /** From 30 arguments on, word 32 of the vector is a terminator or a pointer that lands on the strings. */
  lemma {:induction false} ZerosLand(mem: Mem, sp: nat, args: seq<seq<U8>>, b: nat)
    requires |args| >= 30 && |Block(args)| <= ABOVE_SP - STRINGS_OFFSET && 6 <= b < 8
    requires Mapped(mem, sp, sp + ABOVE_SP) && sp + ABOVE_SP <= Pow256(6)
    ensures ByteIs(Laid(mem, sp, args), sp + STRINGS_OFFSET + b, 0)
  {
    hide Block, Pointers, WordBytes, Pow256;
    var argv, strings := sp + ARGV_OFFSET, sp + STRINGS_OFFSET;
    var vs := Pointers(args, strings) + [0, 0, 0];
    if |args| > 32 {
      PointersInside(args, strings, 32);
    }
    assert vs[32] < Pow256(6) by { PowerGrows(6); }
    PowerGrows(b);
    HighBytes(vs[32], 8, b);
    WordAt(vs, 32, b);
    assert argv + (8 * 32 + b) == strings + b;
  }

  lemma PowerGrows(b: nat)
    requires 6 <= b < 8
    ensures 0 < Pow256(6) <= Pow256(b)
  {
  }

  /**
   For arguments as the configuration gives them and a stack in the 48-bit address space, the vector
   reads back if and only if there are at most 29.
   */
  lemma {:induction false} ReadsBackIff(mem: Mem, sp: nat, args: seq<seq<U8>>)
    requires Configured(args) && |Block(args)| <= ABOVE_SP - STRINGS_OFFSET
    requires Mapped(mem, sp, sp + ABOVE_SP) && sp + ABOVE_SP <= Pow256(6)
    ensures ArgvAt(Laid(mem, sp, args), sp + ARGV_OFFSET, args) <==> |args| <= 29
  {
    hide ArgvAt, Block, Pointers, WordBytes, Laid;
    assert Pow256(6) < TWO64;
    var m, argv, strings := Laid(mem, sp, args), sp + ARGV_OFFSET, sp + STRINGS_OFFSET;
    if |args| <= 29 {
      LaidReadsBack(mem, sp, args);
    } else if ArgvAt(m, argv, args) {
      BlockIsLong(args);
      LaidFront(mem, sp, args);
      BlockByte(m, argv, strings, args, 8, 6);
      BlockByte(m, argv, strings, args, 8, 7);
      ZerosLand(mem, sp, args, 6);
      ZerosLand(mem, sp, args, 7);
      NoTwoZeros(args, 6);
    }
  }

  lemma {:induction false} LaidFront(mem: Mem, sp: nat, args: seq<seq<U8>>)
    requires |args| >= 8 && Mapped(mem, sp, sp + ABOVE_SP)
    ensures Holds(Laid(mem, sp, args), sp + ARGV_OFFSET, WordBytes(Pointers(args, sp + STRINGS_OFFSET)[..8]))
  {
    hide Holds, Block, Pointers, WordBytes;
    var strings := sp + STRINGS_OFFSET;
    var ps := Pointers(args, strings);
    FrontWords(Put(mem, strings, Block(args)), sp + ARGV_OFFSET, ps + [0, 0, 0], 8);
    assert (ps + [0, 0, 0])[..8] == ps[..8];
  }

  /** The argument `a`, n times. */
  function Letters(n: nat): seq<seq<U8>> {
    if n == 0 then [] else [[97]] + Letters(n - 1)
  }

  lemma {:induction false} LettersAre(n: nat)
    ensures |Letters(n)| == n && |Block(Letters(n))| == 2 * n
    ensures forall k :: 0 <= k < n ==> Letters(n)[k] == [97]
  {
    if n > 0 {
      LettersAre(n - 1);
      assert Letters(n)[1..] == Letters(n - 1);
    }
  }

  /** For example, `a` 29 times reads back, and 30 times does not. */
  lemma ThirtyArguments(mem: Mem, sp: nat)
    requires Mapped(mem, sp, sp + ABOVE_SP) && sp + ABOVE_SP <= Pow256(6)
    ensures ArgvAt(Laid(mem, sp, Letters(29)), sp + ARGV_OFFSET, Letters(29))
    ensures !ArgvAt(Laid(mem, sp, Letters(30)), sp + ARGV_OFFSET, Letters(30))
  {
    hide ArgvAt, Laid, Letters, Mapped, Block, Pow256;
    LettersAre(29);
    LettersAre(30);
    ReadsBackIff(mem, sp, Letters(29));
    ReadsBackIff(mem, sp, Letters(30));
  }

  // ----- the code that builds it

  /** A fresh mapping, filled with zeros. */
  function Zeroed(start: nat, end: nat): (m: Mem)
    ensures forall k :: k in m <==> start <= k < end
    ensures forall k :: k in m ==> m[k] == 0
    decreases end - start
  {
    if start >= end then map[] else Zeroed(start + 1, end)[start := 0]
  }

  lemma {:induction false} BlockSnoc(args: seq<seq<U8>>, i: nat)
    requires i < |args|
    ensures Block(args[..i + 1]) == Block(args[..i]) + WithNul(args[i])
    ensures |Block(args[..i + 1])| == |Block(args[..i])| + |args[i]| + 1
    decreases i
  {
    if i == 0 {
      assert args[..1] == [args[0]] && args[..0] == [] && args[..1][1..] == [];
      assert Block([args[0]]) == WithNul(args[0]) + Block([]);
    } else {
      BlockSnoc(args[1..], i - 1);
      assert args[..i + 1][1..] == args[1..][..i] && args[..i][1..] == args[1..][..i - 1];
    }
  }

  lemma {:induction false} PointersSnoc(args: seq<seq<U8>>, at: nat, i: nat)
    requires i < |args|
    ensures Pointers(args[..i + 1], at) == Pointers(args[..i], at) + [at + |Block(args[..i])|]
    decreases i
  {
    if i == 0 {
      assert args[..1] == [args[0]] && args[..0] == [] && args[..1][1..] == [];
    } else {
      PointersSnoc(args[1..], at + |args[0]| + 1, i - 1);
      assert args[..i + 1][1..] == args[1..][..i] && args[..i][1..] == args[1..][..i - 1];
    }
  }

  class Emu {
    var mem: Mem
    var sp: U64
    var x0: U64
    var x1: U64
    var x2: U64
    var x3: U64
    var stackAddr: U64

    constructor (mem: Mem, stackAddr: U64)
      ensures this.mem == mem && this.stackAddr == stackAddr && sp == 0
    {
      this.mem, this.stackAddr := mem, stackAddr;
      sp, x0, x1, x2, x3 := 0, 0, 0, 0, 0;
    }

    /** Maps the stack, zero-filled, unless it is mapped already; `free` says whether the map can be made. */
    method InitStack(hasStack: bool, free: bool) returns (ok: bool)
      requires stackAddr + STACK_SIZE + ABOVE_SP <= TWO64
      modifies this`stackAddr, this`mem, this`sp
      ensures stackAddr == if old(stackAddr) == 0 then 0x22a000 else old(stackAddr)
      ensures ok == (hasStack || free)
      ensures ok ==> sp == stackAddr + STACK_SIZE
      ensures !ok ==> sp == old(sp)
      ensures ok && !hasStack ==> Mapped(mem, sp, sp + ABOVE_SP)
      ensures mem == if ok && !hasStack then old(mem) + Zeroed(stackAddr, sp + ABOVE_SP) else old(mem)
    {
      if stackAddr == 0 {
        stackAddr := 0x22a000;
      }
      var top := stackAddr + STACK_SIZE;
      if !hasStack {
        if !free {
          return false;
        }
        mem := mem + Zeroed(stackAddr, top + ABOVE_SP);
      }
      sp := top;
      return true;
    }

    method WriteByte(at: nat, b: U8)
      modifies this`mem
      ensures mem == Put(old(mem), at, [b])
    {
      if at in mem {
        mem := mem[at := b];
      }
    }

    method WriteQword(at: nat, v: nat)
      modifies this`mem
      ensures mem == Put(old(mem), at, Qword(v))
    {
      var bs := Qword(v);
      PutNothing(mem, at);
      for i := 0 to 8
        invariant mem == Put(old(mem), at, bs[..i])
      {
        PutAppend(old(mem), at, bs[..i], [bs[i]]);
        assert bs[..i + 1] == bs[..i] + [bs[i]];
        WriteByte(at + i, bs[i]);
      }
      assert bs[..8] == bs;
    }

    /** One argument string with its terminator, after what was written from `strings` on. */
    method WriteString(ghost before: Mem, strings: nat, ghost done: seq<U8>, at: nat, bytes: seq<U8>)
      requires mem == Put(before, strings, done) && at == strings + |done|
      modifies this`mem
      ensures mem == Put(before, strings, done + WithNul(bytes))
    {
      assert done + bytes[..0] == done;
      for i := 0 to |bytes|
        invariant mem == Put(before, strings, done + bytes[..i])
      {
        PutAppend(before, strings, done + bytes[..i], [bytes[i]]);
        assert done + bytes[..i + 1] == (done + bytes[..i]) + [bytes[i]];
        WriteByte(at + i, bytes[i]);
      }
      assert bytes[..|bytes|] == bytes;
      PutAppend(before, strings, done + bytes, [0]);
      assert done + WithNul(bytes) == (done + bytes) + [0];
      WriteByte(at + |bytes|, 0);
    }

    method WriteLayout(args: seq<seq<U8>>)
      requires sp + STRINGS_OFFSET + |Block(args)| + 8 * |args| < TWO64
      modifies this`mem, this`x0, this`x1, this`x2, this`x3
      ensures mem == Laid(old(mem), sp, args)
      ensures x0 == |args| && x1 == sp + ARGV_OFFSET && x2 == x1 + (|args| + 1) * 8 && x3 == x2 + 8
    {
      hide Put, Qword, WordBytes, WithNul, Block, Pointers;
      var strings := sp + STRINGS_OFFSET;
      var addrs: seq<nat> := [];
      var off := 0;
      NoArguments(args, strings);
      PutNothing(mem, strings);
      for i := 0 to |args|
        invariant off == |Block(args[..i])| && addrs == Pointers(args[..i], strings)
        invariant mem == Put(old(mem), strings, Block(args[..i]))
      {
        BlockSnoc(args, i);
        PointersSnoc(args, strings, i);
        WriteString(old(mem), strings, Block(args[..i]), strings + off, args[i]);
        addrs := addrs + [strings + off];
        off := off + |args[i]| + 1;
      }
      assert args[..|args|] == args;
      WriteVector(addrs);
      x0, x1 := |args|, sp + ARGV_OFFSET;
      x2 := x1 + (|args| + 1) * 8;
      x3 := x2 + 8;
    }

    /** The argument pointers, then the terminators of the three vectors. */
    method WriteVector(addrs: seq<nat>)
      modifies this`mem
      ensures mem == Put(old(mem), sp + ARGV_OFFSET, WordBytes(addrs + [0, 0, 0]))
    {
      hide Put, Qword, WordBytes;
      var argv := sp + ARGV_OFFSET;
      var all := addrs + [0, 0, 0];
      PutNothing(mem, argv);
      NoWords(all);
      for i := 0 to |all|
        invariant mem == Put(old(mem), argv, WordBytes(all[..i]))
      {
        WordBytesSnoc(all, i);
        PutAppend(old(mem), argv, WordBytes(all[..i]), Qword(all[i]));
        WriteQword(argv + 8 * i, all[i]);
      }
      assert all[..|all|] == all;
    }
  }

  lemma NoArguments(args: seq<seq<U8>>, at: nat)
    ensures Block(args[..0]) == [] && Pointers(args[..0], at) == []
  {
  }

  lemma NoWords(vs: seq<nat>)
    ensures WordBytes(vs[..0]) == []
  {
  }
}
