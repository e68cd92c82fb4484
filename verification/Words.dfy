/** Machine words of the modelled programs. */
module Words {
  const TWO32: int := 0x1_0000_0000
  const TWO64: int := 0x1_0000_0000_0000_0000

  type U8 = x: int | 0 <= x < 256
  type U32 = x: int | 0 <= x < TWO32
  type U64 = x: int | 0 <= x < TWO64

  datatype Option<+T> = None | Some(value: T)

  /** The 32-bit counter of channel ids, incremented. */
  function NextId(id: U32): U32 {
    (id + 1) % TWO32
  }

  ghost predicate Distinct<T>(xs: seq<T>) {
    forall i, j :: 0 <= i < j < |xs| ==> xs[i] != xs[j]
  }

  // ----- results of loops that append, seen from the front

  function Prepend<T>(xs: seq<T>, r: Option<seq<T>>): Option<seq<T>> {
    match r
    case None => None
    case Some(ys) => Some(xs + ys)
  }

  lemma PrependNothing<T>(r: Option<seq<T>>)
    ensures Prepend([], r) == r
  {
    if r.Some? {
      assert [] + r.value == r.value;
    }
  }

  lemma PrependEnd<T>(xs: seq<T>)
    ensures Prepend(xs, Some([])) == Some(xs)
  {
    assert xs + [] == xs;
  }

  lemma PrependOne<T>(xs: seq<T>, x: T, r: Option<seq<T>>)
    ensures Prepend(xs, Prepend([x], r)) == Prepend(xs + [x], r)
  {
    if r.Some? {
      assert xs + ([x] + r.value) == (xs + [x]) + r.value;
    }
  }
}
