/** The FIFO cache that sits in front of block reads and block indexes. */
module SqfsCache {
  import opened Types

  /** An entry and the index it belongs to; index 0 marks a slot that has never been filled. */
  datatype Slot<V> = Slot(idx: nat, value: V)

  const INVALID := 0

  /** The contents of a cache: its slots and which of them is given up next. */
  datatype Contents<V> = Contents(slots: seq<Slot<V>>, next: nat)

  ghost predicate WellFormed<V>(c: Contents<V>) {
    && 0 < |c.slots| && c.next < |c.slots|
    && forall i, j :: 0 <= i < j < |c.slots| && c.slots[i].idx != INVALID ==> c.slots[i].idx != c.slots[j].idx
  }

  ghost predicate Holds<V>(c: Contents<V>, idx: nat, value: V) {
    exists i :: 0 <= i < |c.slots| && c.slots[i] == Slot(idx, value)
  }

  ghost predicate Misses<V>(c: Contents<V>, idx: nat) {
    forall i :: 0 <= i < |c.slots| ==> c.slots[i].idx != idx
  }

  /** `sqfs_cache_add`, with the value its caller then stores. */
  function Added<V>(c: Contents<V>, idx: nat, value: V): Contents<V>
    requires c.next < |c.slots|
  {
    Contents(c.slots[c.next := Slot(idx, value)], if c.next + 1 == |c.slots| then 0 else c.next + 1)
  }

  /** Adding after a miss keeps the valid indexes distinct. */
  lemma AddedWellFormed<V>(c: Contents<V>, idx: nat, value: V)
    requires WellFormed(c) && idx != INVALID && Misses(c, idx)
    ensures WellFormed(Added(c, idx, value)) && Holds(Added(c, idx, value), idx, value)
  {
    assert Added(c, idx, value).slots[c.next] == Slot(idx, value);
  }

  function AddedAll<V>(c: Contents<V>, adds: seq<Slot<V>>): (r: Contents<V>)
    requires c.next < |c.slots|
    ensures |r.slots| == |c.slots| && r.next < |r.slots|
    decreases |adds|
  {
    if adds == [] then c else AddedAll(Added(c, adds[0].idx, adds[0].value), adds[1..])
  }

  /** How many additions come before slot `p` is given up. */
  function Distance<V>(c: Contents<V>, p: nat): nat
    requires c.next < |c.slots| && p < |c.slots|
  {
    if c.next <= p then p - c.next else |c.slots| - c.next + p
  }

  lemma {:induction false} SlotUntouched<V>(c: Contents<V>, p: nat, adds: seq<Slot<V>>)
    requires c.next < |c.slots| && p < |c.slots| && |adds| <= Distance(c, p)
    ensures AddedAll(c, adds).slots[p] == c.slots[p]
    decreases |adds|
  {
    if adds != [] {
      SlotUntouched(Added(c, adds[0].idx, adds[0].value), p, adds[1..]);
    }
  }

  /** An entry survives the next `count - 1` additions, whatever they are. */
  lemma EntrySurvives<V>(c: Contents<V>, idx: nat, value: V, adds: seq<Slot<V>>)
    requires c.next < |c.slots| && |adds| <= |c.slots| - 1
    ensures Holds(AddedAll(Added(c, idx, value), adds), idx, value)
  {
    var c' := Added(c, idx, value);
    SlotUntouched(c', c.next, adds);
    assert AddedAll(c', adds).slots[c.next] == Slot(idx, value);
  }

  class Cache<V> {
    const slots: array<Slot<V>>
    var next: nat

    ghost function View(): Contents<V>
      reads this, slots
    {
      Contents(slots[..], next)
    }

    ghost predicate Valid()
      reads this, slots
    {
      WellFormed(View())
    }

    /** `sqfs_cache_init`. */
    constructor (count: nat, unset: V)
      requires 0 < count
      ensures Valid() && fresh(slots)
      ensures forall i :: 0 <= i < slots.Length ==> slots[i].idx == INVALID
    {
      slots := new Slot<V>[count](_ => Slot(INVALID, unset));
      next := 0;
    }

    /** `sqfs_cache_get`: the entry with this index, if there is one. */
    method Get(idx: nat) returns (r: Option<V>)
      requires Valid() && idx != INVALID
      ensures r.Some? ==> Holds(View(), idx, r.value)
      ensures r.None? ==> Misses(View(), idx)
    {
      for i := 0 to slots.Length
        invariant forall j :: 0 <= j < i ==> slots[j].idx != idx
      {
        if slots[i].idx == idx {
          assert View().slots[i] == Slot(idx, slots[i].value);
          return Some(slots[i].value);
        }
      }
      r := None;
    }

    /** `sqfs_cache_add` and the store that follows it. */
    method Add(idx: nat, value: V)
      requires Valid() && idx != INVALID && Misses(View(), idx)
      modifies this, slots
      ensures Valid() && View() == Added(old(View()), idx, value)
    {
      AddedWellFormed(View(), idx, value);
      var i := next;
      next := next + 1;
      WrapAround(next, slots.Length);
      next := next % slots.Length;
      slots[i] := Slot(idx, value);
      assert slots[..] == old(slots[..])[i := Slot(idx, value)];
    }
  }

  lemma WrapAround(n: nat, count: nat)
    requires 0 < n <= count
    ensures n % count == if n == count then 0 else n
  {
  }
}
