/**
 The Linux telemetry driver, one call at a time: channel encoders and the hot-channel cache.

 `Dev` and its operations are the driver without a cache: every write walks the channel list. The
 class `Device` is the driver with its cache, proved against them.
 */
module TlmDevice {
  import opened Words

  const ENOENT: int := 2
  const ENOMEM: int := 12
  const EFAULT: int := 14
  const EINVAL: int := 22
  const ENOSPC: int := 28
  const MAX_BUF: int := 4096

  // ----- encoders

  /** A channel's contents: the first `used` bytes of its buffer, and the last byte written. */
  datatype Chan = Chan(id: U32, delta: bool, capacity: nat, data: seq<U8>, last: U8)

  function Sub8(a: U8, b: U8): U8 {
    (a - b) % 256
  }

  function Add8(a: U8, b: U8): U8 {
    (a + b) % 256
  }

  /** Differences between neighbouring bytes, the first taken against `prev`. */
  function Diffs(prev: U8, src: seq<U8>): (d: seq<U8>)
    ensures |d| == |src|
    decreases |src|
  {
    if src == [] then [] else [Sub8(src[0], prev)] + Diffs(src[0], src[1..])
  }

  /** Prefix sums, the inverse of `Diffs`. */
  function Sums(prev: U8, d: seq<U8>): (src: seq<U8>)
    ensures |src| == |d|
    decreases |d|
  {
    if d == [] then [] else
      var b := Add8(prev, d[0]);
      [b] + Sums(b, d[1..])
  }

  function LastOr(src: seq<U8>, prev: U8): U8 {
    if src == [] then prev else src[|src| - 1]
  }

  /** One encoder call: the payload fits and is appended, or the channel stays as it was. */
  function Encode(c: Chan, src: seq<U8>): (Chan, int) {
    if |c.data| + |src| > c.capacity then (c, -ENOSPC)
    else if c.delta then (c.(data := c.data + Diffs(c.last, src), last := LastOr(src, c.last)), |src|)
    else (c.(data := c.data + src), |src|)
  }

  /** What a reader of the channel recovers. */
  function Decode(c: Chan): seq<U8> {
    if c.delta then Sums(0, c.data) else c.data
  }

  lemma {:induction false} SumsOfDiffs(prev: U8, src: seq<U8>)
    ensures Sums(prev, Diffs(prev, src)) == src
    decreases |src|
  {
    if src != [] {
      var d := Diffs(prev, src);
      assert d[0] == Sub8(src[0], prev) && d[1..] == Diffs(src[0], src[1..]);
      assert Add8(prev, d[0]) == src[0];
      SumsOfDiffs(src[0], src[1..]);
    }
  }

  lemma {:induction false} SumsAppend(prev: U8, a: seq<U8>, b: seq<U8>)
    ensures Sums(prev, a + b) == Sums(prev, a) + Sums(LastOr(Sums(prev, a), prev), b)
    decreases |a|
  {
    if a == [] {
      assert a + b == b;
    } else {
      var x := Add8(prev, a[0]);
      assert (a + b)[1..] == a[1..] + b;
      SumsAppend(x, a[1..], b);
    }
  }

  /** The channel state that every run of writes keeps. */
  ghost predicate WellEncoded(c: Chan) {
    |c.data| <= c.capacity && (c.delta ==> c.last == LastOr(Decode(c), 0))
  }

  lemma EncodeAppends(c: Chan, src: seq<U8>)
    requires WellEncoded(c)
    ensures var (c', ret) := Encode(c, src);
            && WellEncoded(c')
            && (c'.id, c'.delta, c'.capacity) == (c.id, c.delta, c.capacity)
            && (ret >= 0 <==> |c.data| + |src| <= c.capacity)
            && (ret >= 0 ==> ret == |src| && Decode(c') == Decode(c) + src)
            && (ret < 0 ==> c' == c && ret == -ENOSPC)
  {
    if c.delta {
      SumsAppend(0, c.data, Diffs(c.last, src));
      SumsOfDiffs(c.last, src);
    }
  }

  lemma EncodeKeepsId(c: Chan, src: seq<U8>)
    ensures Encode(c, src).0.id == c.id
  {
  }

  function WriteAll(c: Chan, payloads: seq<seq<U8>>): Chan
    decreases |payloads|
  {
    if payloads == [] then c else WriteAll(Encode(c, payloads[0]).0, payloads[1..])
  }

  /** The accepted payloads, one after another. */
  function Accepted(c: Chan, payloads: seq<seq<U8>>): seq<U8>
    decreases |payloads|
  {
    if payloads == [] then []
    else
      var (c', ret) := Encode(c, payloads[0]);
      (if ret >= 0 then payloads[0] else []) + Accepted(c', payloads[1..])
  }

  /** Over any run of writes the channel decodes to exactly the accepted payloads, in order. */
  lemma {:induction false} RunDecodes(c: Chan, payloads: seq<seq<U8>>)
    requires WellEncoded(c)
    ensures WellEncoded(WriteAll(c, payloads))
    ensures Decode(WriteAll(c, payloads)) == Decode(c) + Accepted(c, payloads)
    decreases |payloads|
  {
    if payloads != [] {
      EncodeAppends(c, payloads[0]);
      RunDecodes(Encode(c, payloads[0]).0, payloads[1..]);
    }
  }

  // ----- the driver without a cache

  datatype Dev = Dev(chans: seq<Chan>, nextId: U32, writes: U64)

  /** Position of the first channel with this id, or the number of channels. */
  function Find(chans: seq<Chan>, id: U32): (k: nat)
    ensures k <= |chans|
    ensures k < |chans| ==> chans[k].id == id
    ensures forall j :: 0 <= j < k ==> chans[j].id != id
  {
    if chans == [] then 0 else if chans[0].id == id then 0 else 1 + Find(chans[1..], id)
  }

  /** The position that `Find` gives is the only one with its properties. */
  lemma FindIs(chans: seq<Chan>, id: U32, k: nat)
    requires k <= |chans| && (k < |chans| ==> chans[k].id == id)
    requires forall j :: 0 <= j < k ==> chans[j].id != id
    ensures Find(chans, id) == k
  {
  }

  /** Removing the first channel with one id moves the first channel with another id by at most one. */
  lemma FindAfterRemoval(chans: seq<Chan>, id: U32, other: U32)
    requires id != other && Find(chans, id) < |chans| && Find(chans, other) < |chans|
    ensures var k, f := Find(chans, id), Find(chans, other);
            Find(chans[..k] + chans[k + 1..], other) == if f < k then f else f - 1
  {
    hide Find;
    var k, f := Find(chans, id), Find(chans, other);
    FindIs(chans[..k] + chans[k + 1..], other, if f < k then f else f - 1);
  }

  function Created(d: Dev, len: U32, encoding: U32): Dev {
    Dev(d.chans + [Chan(NextId(d.nextId), encoding == 1, len, [], 0)], NextId(d.nextId), d.writes)
  }

  /** Byte k of the data is the k-th byte sent less the one before it, modulo 256. */
  predicate DiffersAt(data: seq<U8>, sent: seq<U8>, k: nat)
    requires k < |data| == |sent|
  {
    var here: int, before: int := sent[k], if k == 0 then 0 else sent[k - 1];
    data[k] == (here - before) % 256
  }

  /** The bytes that sums come from are the differences of neighbours. */
  lemma {:induction false} SumsAt(prev: U8, d: seq<U8>, k: nat)
    requires k < |d|
    ensures d[k] == Sub8(Sums(prev, d)[k], if k == 0 then prev else Sums(prev, d)[k - 1])
    decreases k
  {
    if k > 0 {
      SumsAt(Add8(prev, d[0]), d[1..], k - 1);
    }
  }

  ghost predicate AreDifferences(data: seq<U8>, sent: seq<U8>) {
    |data| == |sent| && forall k: nat :: k < |sent| ==> DiffersAt(data, sent, k)
  }

  lemma SumsDiffer(data: seq<U8>)
    ensures AreDifferences(data, Sums(0, data))
  {
    forall k: nat | k < |data| ensures DiffersAt(data, Sums(0, data), k) {
      SumsAt(0, data, k);
    }
  }

  lemma {:induction false} SettingsStay(c: Chan, payloads: seq<seq<U8>>)
    ensures var c' := WriteAll(c, payloads); (c'.id, c'.delta, c'.capacity) == (c.id, c.delta, c.capacity)
    decreases |payloads|
  {
    if payloads != [] {
      SettingsStay(Encode(c, payloads[0]).0, payloads[1..]);
    }
  }

  /**
   What is in the buffer of a created channel after any run of writes: with encoding 0 the accepted
   payloads, with encoding 1 the differences of their neighbouring bytes, the first against 0.
   */
  lemma BufferHolds(d: Dev, len: U32, encoding: U32, payloads: seq<seq<U8>>)
    requires encoding <= 1
    ensures var c := Created(d, len, encoding).chans[|d.chans|];
            var data, sent := WriteAll(c, payloads).data, Accepted(c, payloads);
            && c.id == (d.nextId + 1) % TWO32 && c.capacity == len && c.data == []
            && (encoding == 0 ==> data == sent)
            && (encoding == 1 ==> AreDifferences(data, sent))
  {
    hide WriteAll, Accepted, Encode, AreDifferences;
    var c := Created(d, len, encoding).chans[|d.chans|];
    var data := WriteAll(c, payloads).data;
    assert Decode(c) == [];
    RunDecodes(c, payloads);
    SettingsStay(c, payloads);
    assert Decode(WriteAll(c, payloads)) == Accepted(c, payloads);
    if encoding == 1 {
      SumsDiffer(data);
    }
  }

  /** `user` is what copying the payload from user space yields. */
  function Written(d: Dev, id: U32, len: U32, gotMemory: bool, user: Option<seq<U8>>): (Dev, int) {
    var k := Find(d.chans, id);
    if len == 0 || len > MAX_BUF then (d, -EINVAL)
    else if k == |d.chans| then (d, -ENOENT)
    else if !gotMemory then (d, -ENOMEM)
    else if user.None? then (d, -EFAULT)
    else
      var (c, ret) := Encode(d.chans[k], user.value);
      (Dev(d.chans[k := c], d.nextId, (d.writes + 1) % TWO64), ret)
  }

  function Destroyed(d: Dev, id: U32): (Dev, int) {
    var k := Find(d.chans, id);
    if k == |d.chans| then (d, -ENOENT)
    else (d.(chans := d.chans[..k] + d.chans[k + 1..]), 0)
  }

  /** One call, with what the allocator and user space give it. */
  datatype Call =
    | Create(len: U32, encoding: U32, gotChannel: bool, gotBuffer: bool)
    | Write(id: U32, len: U32, gotMemory: bool, user: Option<seq<U8>>)
    | Destroy(id: U32)
    | Close

  predicate WellFormed(c: Call) {
    c.Write? && c.user.Some? ==> |c.user.value| == c.len
  }

  function Rejects(c: Call): int
    requires c.Create?
  {
    if c.len == 0 || c.len > MAX_BUF || c.encoding > 1 then -EINVAL
    else if !c.gotChannel || !c.gotBuffer then -ENOMEM
    else 0
  }

  /** A call to the driver without a cache: the device after it and the return code. */
  function Answer(d: Dev, c: Call): (Dev, int) {
    match c
    case Create(len, encoding, _, _) => (if Rejects(c) == 0 then Created(d, len, encoding) else d, Rejects(c))
    case Write(id, len, gotMemory, user) => Written(d, id, len, gotMemory, user)
    case Destroy(id) => Destroyed(d, id)
    case Close => (d, 0)
  }

  /** The id in the cache after a call. */
  function NextCached(d: Dev, cached: Option<U32>, c: Call): Option<U32> {
    match c
    case Close => None
    case Write(id, len, _, _) => if 0 < len <= MAX_BUF && Find(d.chans, id) < |d.chans| then Some(id) else cached
    case _ => cached
  }

  /** No call in the run destroys the channel that is cached at that point. */
  predicate RuleKept(d: Dev, cached: Option<U32>, calls: seq<Call>)
    decreases |calls|
  {
    calls == [] ||
    (&& !(calls[0].Destroy? && cached == Some(calls[0].id))
     && RuleKept(Answer(d, calls[0]).0, NextCached(d, cached, calls[0]), calls[1..]))
  }

  /** A run of the driver without a cache: the final device and all return codes. */
  function Answers(d: Dev, calls: seq<Call>): (Dev, seq<int>)
    decreases |calls|
  {
    if calls == [] then (d, [])
    else
      var (d1, ret) := Answer(d, calls[0]);
      var (d2, rets) := Answers(d1, calls[1..]);
      (d2, [ret] + rets)
  }

  // ----- the driver with its cache

  class Channel {
    const id: U32
    const delta: bool
    const buf: array<U8>
    var used: nat
    var last: U8

    constructor (id: U32, delta: bool, len: nat)
      ensures this.id == id && this.delta == delta && buf.Length == len && used == 0 && last == 0 && fresh(buf)
    {
      this.id, this.delta, buf, used, last := id, delta, new U8[len](_ => 0), 0, 0;
    }

    ghost predicate Valid()
      reads this
    {
      used <= buf.Length
    }

    function View(): Chan
      requires Valid()
      reads this, buf
    {
      Chan(id, delta, buf.Length, buf[..used], last)
    }

    method EncodeRaw(src: array<U8>) returns (ret: int)
      requires Valid() && !delta && src != buf
      modifies this, buf
      ensures Valid()
      ensures (View(), ret) == Encode(old(View()), old(src[..]))
    {
      var len := src.Length;
      if len > buf.Length - used {
        return -ENOSPC;
      }
      forall i | 0 <= i < len {
        buf[used + i] := src[i];
      }
      used := used + len;
      assert buf[..used] == old(buf[..used]) + old(src[..]);
      return len;
    }

    method EncodeDelta(src: array<U8>) returns (ret: int)
      requires Valid() && delta && src != buf
      modifies this, buf
      ensures Valid()
      ensures (View(), ret) == Encode(old(View()), old(src[..]))
    {
      var len := src.Length;
      if len > buf.Length - used {
        return -ENOSPC;
      }
      ghost var diffs := Diffs(last, src[..]);
      assert src[0..] == src[..];
      for i := 0 to len
        invariant used == old(used) && buf[..used] == old(buf[..used]) && src[..] == old(src[..])
        invariant buf[used..used + i] == diffs[..i]
        invariant diffs[i..] == Diffs(last, src[i..])
        invariant last == LastOr(src[..i], old(last))
      {
        assert src[i..][0] == src[i] && src[i..][1..] == src[i + 1..];
        assert diffs[i..][0] == diffs[i] && diffs[i..][1..] == diffs[i + 1..];
        buf[used + i] := Sub8(src[i], last);
        last := src[i];
        assert buf[used..used + i + 1] == buf[used..used + i] + [buf[used + i]];
        assert src[..i + 1] == src[..i] + [src[i]];
      }
      assert diffs[..len] == diffs && src[..len] == src[..];
      used := used + len;
      assert buf[..used] == buf[..old(used)] + buf[old(used)..used];
      return len;
    }

    /** The call through the channel's operation vector. */
    method EncodeCall(src: array<U8>) returns (ret: int)
      requires Valid() && src != buf
      modifies this, buf
      ensures Valid()
      ensures (View(), ret) == Encode(old(View()), old(src[..]))
    {
      if delta {
        ret := EncodeDelta(src);
      } else {
        ret := EncodeRaw(src);
      }
    }
  }

  /** The channels and their buffers. */
  ghost function Parts(cs: seq<Channel>): set<object> {
    (set c: Channel | c in cs :: c as object) + (set c: Channel | c in cs :: c.buf as object)
  }

  lemma PartsAppend(cs: seq<Channel>, ch: Channel)
    ensures Parts(cs + [ch]) == Parts(cs) + {ch, ch.buf}
  {
    var cs' := cs + [ch];
    assert cs'[|cs|] == ch && ch in cs' && forall c :: c in cs ==> c in cs';
    assert ch as object in Parts(cs') && ch.buf as object in Parts(cs');
    assert Parts(cs) <= Parts(cs');
  }

  lemma PartsWithout(cs: seq<Channel>, k: nat)
    requires k < |cs|
    ensures Parts(cs[..k] + cs[k + 1..]) <= Parts(cs)
  {
  }

  ghost predicate Apart(cs: seq<Channel>) {
    forall j, k :: 0 <= j < k < |cs| ==> cs[j] != cs[k] && cs[j].buf != cs[k].buf
  }

  lemma ApartAppend(cs: seq<Channel>, ch: Channel)
    requires Apart(cs) && ch !in cs && ch.buf !in Parts(cs)
    ensures Apart(cs + [ch])
  {
  }

  lemma ApartWithout(cs: seq<Channel>, k: nat)
    requires Apart(cs) && k < |cs|
    ensures Apart(cs[..k] + cs[k + 1..]) && cs[k] !in cs[..k] + cs[k + 1..]
    ensures forall i :: 0 <= i < |cs| && cs[i] == cs[k] ==> i == k
  {
  }

  class Device {
    var channels: seq<Channel>
    var nextId: U32
    var writes: U64
    var fast: Channel?
    var fastId: U32
    ghost var chans: seq<Chan>  // the contents of `channels`

    constructor ()
      ensures Valid() && channels == [] && View() == Dev([], 0, 0) && Cached() == None
    {
      channels, nextId, writes, fast, fastId, chans := [], 0, 0, null, 0, [];
    }

    ghost predicate Shape()
      reads this, Parts(channels)
    {
      && Apart(channels)
      && |chans| == |channels|
      && forall k :: 0 <= k < |channels| ==> channels[k].Valid() && channels[k].View() == chans[k]
    }

    ghost function View(): Dev
      reads this
    {
      Dev(chans, nextId, writes)
    }

    ghost function Cached(): Option<U32>
      reads this
    {
      if fast == null then None else Some(fastId)
    }

    /** The cached channel is the one that the list walk would find. */
    ghost predicate CacheOk()
      reads this
    {
      fast != null ==>
        var k := Find(chans, fastId);
        k < |channels| && fast == channels[k]
    }

    ghost predicate Valid()
      reads this, Parts(channels)
    {
      Shape() && CacheOk()
    }

    lemma CacheMeans()
      requires Valid()
      ensures fast != null ==> Find(chans, fastId) < |chans| && fast == channels[Find(chans, fastId)]
    {
    }

    lemma CacheAfterRemoval(before: seq<Chan>, objects: seq<Channel>, id: U32)
      requires |before| == |objects| && Find(before, id) < |before|
      requires fast != null ==> Find(before, fastId) < |before| && fast == objects[Find(before, fastId)]
      requires var k := Find(before, id);
               && chans == before[..k] + before[k + 1..]
               && channels == objects[..k] + objects[k + 1..]
               && objects[k] !in channels
      ensures CacheOk() <==> Cached() != Some(id)
    {
      hide Find;
      if fast != null && fastId != id {
        FindAfterRemoval(before, id, fastId);
      }
    }

    /** The list walk. */
    method Lookup(id: U32) returns (ch: Channel?)
      requires Shape()
      ensures var k := Find(chans, id);
              (ch == null <==> k == |channels|) && (ch != null ==> ch == channels[k])
    {
      hide Find;
      for i := 0 to |channels|
        invariant forall j :: 0 <= j < i ==> chans[j].id != id
      {
        assert channels[i].View() == chans[i];
        if channels[i].id == id {
          FindIs(chans, id, i);
          return channels[i];
        }
      }
      FindIs(chans, id, |chans|);
      return null;
    }

    /** The hot path, or the list walk followed by filling the cache. */
    method Route(id: U32) returns (ch: Channel?)
      requires Valid()
      modifies this`fast, this`fastId
      ensures Valid()
      ensures var k := Find(chans, id);
              (ch == null <==> k == |channels|) && (ch != null ==> ch == channels[k] && Cached() == Some(id))
      ensures ch == null ==> Cached() == old(Cached())
    {
      hide Find;
      if fast != null && fastId == id {
        return fast;
      }
      ch := Lookup(id);
      if ch != null {
        assert channels[Find(chans, id)].View() == chans[Find(chans, id)];
        fast := ch;
        fastId := ch.id;
      }
    }

    /** The part of a write that both paths share, once the payload was copied in. */
    method Deliver(ch: Channel, ghost k: nat, payload: seq<U8>) returns (ret: int)
      requires Shape() && k < |channels| && ch == channels[k]
      modifies this`writes, this`chans, ch, ch.buf
      ensures Shape()
      ensures var (c, r) := Encode(old(chans)[k], payload); ret == r && chans == old(chans)[k := c]
      ensures writes == (old(writes) + 1) % TWO64
    {
      hide Encode;
      var kbuf := new U8[|payload|](i requires 0 <= i < |payload| => payload[i]);
      assert kbuf[..] == payload;
      ret := ch.EncodeCall(kbuf);
      writes := (writes + 1) % TWO64;
      chans := chans[k := ch.View()];
    }

    method Create(len: U32, encoding: U32, gotChannel: bool, gotBuffer: bool) returns (ret: int, id: U32)
      requires Valid()
      modifies this`channels, this`nextId, this`chans
      ensures Valid()
      ensures (View(), ret) == Answer(old(View()), Call.Create(len, encoding, gotChannel, gotBuffer))
      ensures ret == 0 ==> id == nextId
      ensures Grown()
    {
      hide Find;
      id := 0;
      if len == 0 || len > MAX_BUF || encoding > 1 {
        return -EINVAL, id;
      }
      if !gotChannel || !gotBuffer {
        return -ENOMEM, id;
      }
      var ch := new Channel(NextId(nextId), encoding == 1, len);
      nextId := ch.id;
      id := ch.id;
      Append(ch);
      ret := 0;
    }

    method Append(ch: Channel)
      requires Valid() && ch.Valid() && ch !in channels && ch.buf !in Parts(channels)
      modifies this`channels, this`chans
      ensures Valid()
      ensures channels == old(channels) + [ch] && chans == old(chans) + [ch.View()]
      ensures Parts(channels) == old(Parts(channels)) + {ch, ch.buf}
    {
      hide Find, Parts, Apart;
      if fast != null {
        FindIs(chans + [ch.View()], fastId, Find(chans, fastId));
      }
      PartsAppend(channels, ch);
      ApartAppend(channels, ch);
      channels := channels + [ch];
      chans := chans + [ch.View()];
    }

    /** A write, by either path, is the write of the driver without a cache. */
    method Write(id: U32, len: U32, gotMemory: bool, user: Option<seq<U8>>) returns (ret: int)
      requires Valid() && (user.Some? ==> |user.value| == len)
      modifies this`fast, this`fastId, this`writes, this`chans, Parts(channels)
      ensures Valid()
      ensures (View(), ret) == Answer(old(View()), Call.Write(id, len, gotMemory, user))
      ensures Cached() == NextCached(old(View()), old(Cached()), Call.Write(id, len, gotMemory, user))
    {
      hide Find, Encode;
      ghost var k := Find(chans, id);
      if len == 0 || len > MAX_BUF {
        return -EINVAL;
      }
      var ch := Route(id);
      if ch == null {
        return -ENOENT;
      }
      if !gotMemory {
        return -ENOMEM;
      }
      if user.None? {
        return -EFAULT;
      }
      assert ch in channels && ch in Parts(channels) && ch.buf in Parts(channels);
      ret := Deliver(ch, k, user.value);
      EncodeKeepsId(old(chans)[k], user.value);
      FindIs(chans, id, k);
    }

    method Stat(id: U32) returns (ret: int, used: nat, capacity: nat)
      requires Valid()
      ensures var k := Find(chans, id);
              if k == |chans| then ret == -ENOENT
              else (ret, used, capacity) == (0, |chans[k].data|, chans[k].capacity)
    {
      var ch := Lookup(id);
      if ch == null {
        return -ENOENT, 0, 0;
      }
      assert ch.View() == chans[Find(chans, id)];
      return 0, ch.used, ch.buf.Length;
    }

    /**
     Removes the channel as the driver without a cache does. The cache survives exactly when the
     removed channel was not the cached one: the rule that the driver's comment states.
     */
    method Destroy(id: U32) returns (ret: int)
      requires Valid()
      modifies this`channels, this`chans
      ensures Shape() && Parts(channels) <= old(Parts(channels))
      ensures (View(), ret) == Answer(old(View()), Call.Destroy(id))
      ensures CacheOk() <==> Cached() != Some(id)
    {
      hide Find, Parts, Apart, CacheOk;
      assert fast != null ==> Find(chans, fastId) < |chans| && fast == channels[Find(chans, fastId)] by {
        CacheMeans();
      }
      ghost var k := Find(chans, id);
      var ch := Lookup(id);
      if ch == null {
        return -ENOENT;
      }
      Unlink(ch, k);
      CacheAfterRemoval(old(chans), old(channels), id);
      ret := 0;
    }

    method Unlink(ch: Channel, ghost k: nat)
      requires Shape() && k < |channels| && ch == channels[k]
      modifies this`channels, this`chans
      ensures Shape() && ch !in channels && Parts(channels) <= old(Parts(channels))
      ensures channels == old(channels[..k] + channels[k + 1..])
      ensures chans == old(chans[..k] + chans[k + 1..])
    {
      hide Parts, Apart;
      ApartWithout(channels, k);
      var i :| 0 <= i < |channels| && channels[i] == ch;
      PartsWithout(channels, k);
      channels := channels[..i] + channels[i + 1..];
      chans := chans[..k] + chans[k + 1..];
    }

    /** Closing the handle drops the cache. */
    method Close()
      requires Shape()
      modifies this`fast, this`fastId
      ensures Valid() && Cached() == None
    {
      fast, fastId := null, 0;
    }

    /** Every object in the list was there before or is new. */
    twostate predicate Grown()
      reads this
    {
      fresh(Parts(channels) - old(Parts(channels)))
    }

    method Perform(c: Call) returns (ret: int)
      requires Valid() && WellFormed(c)
      requires !(c.Destroy? && Cached() == Some(c.id))
      modifies this, Parts(channels)
      ensures Valid() && Grown()
      ensures (View(), ret) == Answer(old(View()), c)
      ensures Cached() == NextCached(old(View()), old(Cached()), c)
    {
      hide Shape, Answer;
      match c
      case Create(len, encoding, gotChannel, gotBuffer) =>
        var id;
        ret, id := Create(len, encoding, gotChannel, gotBuffer);
      case Write(id, len, gotMemory, user) =>
        ret := Write(id, len, gotMemory, user);
      case Destroy(id) =>
        ret := Destroy(id);
      case Close =>
        Close();
        ret := 0;
        CloseAnswers(View());
    }

    /** A run that keeps the rule is, call by call, a run of the driver without a cache. */
    method PerformAll(calls: seq<Call>) returns (rets: seq<int>)
      requires Valid() && forall i :: 0 <= i < |calls| ==> WellFormed(calls[i])
      requires RuleKept(View(), Cached(), calls)
      modifies this, Parts(channels)
      ensures Valid() && Grown()
      ensures (View(), rets) == Answers(old(View()), calls)
      decreases |calls|
    {
      hide Answer, NextCached, Valid;
      if calls == [] {
        return [];
      }
      var ret := Perform(calls[0]);
      var rest := PerformAll(calls[1..]);
      rets := [ret] + rest;
    }
  }

  /** Three calls on one channel, without a cache. */
  lemma OneChannel(create: Call, write: Call, destroy: Call)
    requires create == Create(1, 0, true, true) && write == Write(1, 1, true, Some([7])) && destroy == Destroy(1)
    ensures var d1, d2 := Dev([Chan(1, false, 1, [], 0)], 1, 0), Dev([Chan(1, false, 1, [7], 0)], 1, 1);
            && Answer(Dev([], 0, 0), create) == (d1, 0)
            && Answer(d1, write) == (d2, 1) && NextCached(d1, None, write) == Some(1)
            && Answer(d2, destroy) == (Dev([], 1, 1), 0)
  {
    var c1, c2 := [Chan(1, false, 1, [], 0)], [Chan(1, false, 1, [7], 0)];
    assert Find(c1, 1) == 0 && Find(c2, 1) == 0;
    assert Encode(c1[0], [7]) == (c2[0], 1) by { assert c1[0].data + [7] == [7]; }
    assert c1[0 := c2[0]] == c2 && c2[..0] + c2[1..] == [] && [] + c1 == c1;
  }

  /** The rule is needed: destroying the channel that was written to last leaves it in the cache. */
  method DestroyCached() returns (d: Device)
    ensures d.Shape() && d.View() == Dev([], 1, 1) && d.Cached() == Some(1) && !d.CacheOk()
  {
    hide Answer, NextCached, Find, Device.Shape, Device.CacheOk;
    OneChannel(Create(1, 0, true, true), Write(1, 1, true, Some([7])), Destroy(1));
    d := new Device();
    var ret, id := d.Create(1, 0, true, true);
    ret := d.Write(1, 1, true, Some([7]));
    ret := d.Destroy(1);
  }

  lemma CloseAnswers(d: Dev)
    ensures Answer(d, Close) == (d, 0)
  {
  }
}
