/**
 What the Linux telemetry driver is for: named byte stores that writes append to.

 `Store` has no encoder and no cache. Every run of the driver, seen through its decoder, is a run of
 stores with the same return codes.
 */
module TlmStore {
  import opened Words
  import opened TlmDevice

  datatype Store = Store(id: U32, capacity: nat, bytes: seq<U8>)

  datatype Shelf = Shelf(stores: seq<Store>, nextId: U32, writes: U64)

  /** The bytes a reader of the channel recovers. */
  function Content(c: Chan): Store {
    Store(c.id, c.capacity, Decode(c))
  }

  function Contents(chans: seq<Chan>): (r: seq<Store>)
    ensures |r| == |chans| && forall k :: 0 <= k < |r| ==> r[k] == Content(chans[k])
  {
    seq(|chans|, k requires 0 <= k < |chans| => Content(chans[k]))
  }

  function Seen(d: Dev): Shelf {
    Shelf(Contents(d.chans), d.nextId, d.writes)
  }

  /** The position of the oldest store with this id. */
  ghost predicate IsAt(stores: seq<Store>, id: U32, k: nat) {
    && k < |stores| && stores[k].id == id
    && forall j :: 0 <= j < k ==> stores[j].id != id
  }

  ghost predicate Missing(stores: seq<Store>, id: U32) {
    forall k :: 0 <= k < |stores| ==> stores[k].id != id
  }

  /** Appending is all or nothing. */
  function Appended(s: Store, payload: seq<U8>): Store {
    if |s.bytes| + |payload| <= s.capacity then s.(bytes := s.bytes + payload) else s
  }

  /** What one call does to the stores and what it returns. */
  ghost predicate Serves(s: Shelf, c: Call, s': Shelf, ret: int) {
    match c
    case Close => s' == s && ret == 0
    case Create(len, encoding, gotChannel, gotBuffer) =>
      if len == 0 || len > 4096 || encoding > 1 then s' == s && ret == -EINVAL
      else if !gotChannel || !gotBuffer then s' == s && ret == -ENOMEM
      else
        var id := NextId(s.nextId);
        ret == 0 && s' == Shelf(s.stores + [Store(id, len, [])], id, s.writes)
    case Destroy(id) =>
      if Missing(s.stores, id) then s' == s && ret == -ENOENT
      else ret == 0 && exists k: nat :: IsAt(s.stores, id, k) && s' == s.(stores := s.stores[..k] + s.stores[k + 1..])
    case Write(id, len, gotMemory, user) =>
      if len == 0 || len > 4096 then s' == s && ret == -EINVAL
      else if Missing(s.stores, id) then s' == s && ret == -ENOENT
      else if !gotMemory then s' == s && ret == -ENOMEM
      else if user.None? then s' == s && ret == -EFAULT
      else
        exists k: nat ::
          && IsAt(s.stores, id, k)
          && s' == Shelf(s.stores[k := Appended(s.stores[k], user.value)], s.nextId, (s.writes + 1) % TWO64)
          && ret == if |s.stores[k].bytes| + |user.value| <= s.stores[k].capacity then |user.value| else -ENOSPC
  }

  ghost predicate AllEncoded(d: Dev) {
    forall k :: 0 <= k < |d.chans| ==> WellEncoded(d.chans[k])
  }

  lemma FoundOrMissing(d: Dev, id: U32)
    ensures var k := Find(d.chans, id);
            if k < |d.chans| then IsAt(Contents(d.chans), id, k) else Missing(Contents(d.chans), id)
  {
  }

  lemma DecodeLength(c: Chan)
    ensures |Decode(c)| == |c.data|
  {
  }

  lemma {:induction false} WriteServes(d: Dev, c: Call)
    requires AllEncoded(d) && c.Write?
    ensures AllEncoded(Answer(d, c).0) && Serves(Seen(d), c, Seen(Answer(d, c).0), Answer(d, c).1)
  {
    hide Find, Encode, Decode;
    var k := Find(d.chans, c.id);
    FoundOrMissing(d, c.id);
    if k < |d.chans| && c.user.Some? {
      var payload := c.user.value;
      EncodeAppends(d.chans[k], payload);
      DecodeLength(d.chans[k]);
      var d' := d.chans[k := Encode(d.chans[k], payload).0];
      assert Contents(d') == Contents(d.chans)[k := Appended(Contents(d.chans)[k], payload)];
      assert IsAt(Seen(d).stores, c.id, k);
    }
  }

  lemma {:induction false} OtherServes(d: Dev, c: Call)
    requires AllEncoded(d) && !c.Write?
    ensures AllEncoded(Answer(d, c).0) && Serves(Seen(d), c, Seen(Answer(d, c).0), Answer(d, c).1)
  {
    hide Find;
    if c.Destroy? {
      var k := Find(d.chans, c.id);
      FoundOrMissing(d, c.id);
      if k < |d.chans| {
        var after := d.chans[..k] + d.chans[k + 1..];
        assert Contents(after) == Contents(d.chans)[..k] + Contents(d.chans)[k + 1..];
        assert IsAt(Seen(d).stores, c.id, k);
      }
    } else if c.Create? {
      var d' := Answer(d, c).0;
      assert Decode(Chan(NextId(d.nextId), c.encoding == 1, c.len, [], 0)) == [];
      assert Rejects(c) == 0 ==> Contents(d'.chans) == Contents(d.chans) + [Store(NextId(d.nextId), c.len, [])];
    }
  }

  /** A run of stores: the shelves between calls and the return codes. */
  ghost predicate IsHistory(shelves: seq<Shelf>, calls: seq<Call>, rets: seq<int>) {
    && |rets| == |calls| && |shelves| == |calls| + 1
    && forall i :: 0 <= i < |calls| ==> Serves(shelves[i], calls[i], shelves[i + 1], rets[i])
  }

  /** Every run of the driver is, through its decoder, a run of stores with the same return codes. */
  lemma {:induction false} RunServes(d: Dev, calls: seq<Call>) returns (shelves: seq<Shelf>)
    requires AllEncoded(d)
    ensures IsHistory(shelves, calls, Answers(d, calls).1)
    ensures shelves[0] == Seen(d) && shelves[|calls|] == Seen(Answers(d, calls).0)
    decreases |calls|
  {
    hide Serves, Answer, Seen, AllEncoded;
    if calls == [] {
      shelves := [Seen(d)];
    } else {
      var d1 := Answer(d, calls[0]).0;
      if calls[0].Write? {
        WriteServes(d, calls[0]);
      } else {
        OtherServes(d, calls[0]);
      }
      var rest := RunServes(d1, calls[1..]);
      shelves := [Seen(d)] + rest;
      var rets := Answers(d, calls).1;
      forall i | 0 <= i < |calls| ensures Serves(shelves[i], calls[i], shelves[i + 1], rets[i]) {
        if i > 0 {
          assert Serves(rest[i - 1], calls[1..][i - 1], rest[i - 1 + 1], Answers(d1, calls[1..]).1[i - 1]);
        }
      }
    }
  }
}
