/** The checkbox selection of the product table. It is a list of ids, not a
    set: a toggle removes every copy of an id that is present and appends an
    id that is absent. */
module Selection {

  import opened Sequences

  /** The filter callback `item => item !== x`. */
  function NotEqual(x: int): int -> bool
  {
    y => y != x
  }

  /** `xs` with every copy of `x` removed, order kept. */
  function Without(xs: seq<int>, x: int): (r: seq<int>)
    ensures x !in r
    ensures forall y :: y != x ==> (y in r <==> y in xs)
  {
    Filter(xs, NotEqual(x))
  }

  /** The selection after clicking the checkbox of row `id`
      (`prev.includes(id) ? prev.filter(item => item !== id) : [...prev, id]`).
      The clicked id's membership flips and no other id's does. */
  function Toggle(xs: seq<int>, id: int): (r: seq<int>)
    ensures id in r <==> id !in xs
    ensures forall y :: y != id ==> (y in r <==> y in xs)
  {
    if id in xs then Without(xs, id) else xs + [id]
  }

  /** Looking past the clicked id, a toggle leaves the selection the same
      list: every other id keeps its multiplicity and its relative order. */
  lemma ToggleKeepsOthersInOrder(xs: seq<int>, id: int)
    ensures Without(Toggle(xs, id), id) == Without(xs, id)
  {
    if id in xs {
      FilterIdempotent(xs, NotEqual(id));
    } else {
      FilterConcat(xs, [id], NotEqual(id));
      assert Filter([id], NotEqual(id)) == [] by {
        assert [id][1..] == [];
      }
      assert Without(xs + [id], id) == Without(xs, id) + [];
    }
  }

  /** A selection without duplicates keeps none after a toggle. */
  lemma ToggleKeepsNoDup(xs: seq<int>, id: int)
    ensures NoDup(xs) ==> NoDup(Toggle(xs, id))
  {
    if NoDup(xs) {
      if id in xs {
        FilterNoDup(xs, NotEqual(id));
      } else {
        AppendNoDup(xs, id);
      }
    }
  }

  /** Toggling an unselected id on and off again restores the list exactly,
      position for position. */
  lemma ToggleTwiceRestores(xs: seq<int>, id: int)
    requires id !in xs
    ensures Toggle(Toggle(xs, id), id) == xs
  {
    FilterConcat(xs, [id], NotEqual(id));
    assert [id][1..] == [];
    FilterKeepsAll(xs, NotEqual(id));
    assert Without(xs + [id], id) == xs + [];
  }

  /** The selection after clicking the checkboxes in `ts`, first to last. */
  function ToggleMany(xs: seq<int>, ts: seq<int>): seq<int>
    decreases |ts|
  {
    if ts == [] then xs else ToggleMany(Toggle(xs, ts[0]), ts[1..])
  }

  /** After a run of clicks, an id is selected exactly when it started
      selected and was clicked an even number of times, or started unselected
      and was clicked an odd number of times. */
  lemma {:induction false} ToggleManyParity(xs: seq<int>, ts: seq<int>, y: int)
    ensures y in ToggleMany(xs, ts) <==> (y in xs) != (multiset(ts)[y] % 2 == 1)
    decreases |ts|
  {
    if ts != [] {
      var t, rest := ts[0], ts[1..];
      var ys := Toggle(xs, t);
      assert ToggleMany(xs, ts) == ToggleMany(ys, rest);
      ToggleManyParity(ys, rest, y);
      assert ts == [t] + rest;
      MultisetCons(t, rest, y);
      var c := multiset(rest)[y];
      var before := c % 2 == 1;
      var after := multiset(ts)[y] % 2 == 1;
      if t == y {
        assert multiset(ts)[y] == c + 1;
        OddStep(c);
        assert after == !before;
        assert y in ys <==> y !in xs;
      } else {
        assert multiset(ts)[y] == c;
        assert after == before;
        assert y in ys <==> y in xs;
      }
    }
  }

  /** Putting `t` in front adds one copy of `t` and nothing else. */
  lemma MultisetCons(t: int, rest: seq<int>, y: int)
    ensures multiset([t] + rest)[y] == multiset(rest)[y] + (if t == y then 1 else 0)
  {
  }

  /** One more click flips the parity. */
  lemma OddStep(c: nat)
    ensures (c + 1) % 2 == 1 <==> c % 2 != 1
  {
  }

  /** Clicks keep a duplicate-free selection duplicate-free. */
  lemma {:induction false} ToggleManyKeepsNoDup(xs: seq<int>, ts: seq<int>)
    requires NoDup(xs)
    ensures NoDup(ToggleMany(xs, ts))
    decreases |ts|
  {
    if ts != [] {
      ToggleKeepsNoDup(xs, ts[0]);
      ToggleManyKeepsNoDup(Toggle(xs, ts[0]), ts[1..]);
    }
  }
}
