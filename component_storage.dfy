/** Per-component storage of the word-bitset revision: a fixed slice of
    component values indexed by entity, and a bitset of the entities that
    have the component. */
module ComponentStorage {
  import opened Ordered
  import opened WordBitset

  /** An entity is a 32-bit index into every storage. */
  type Entity = Pos

  /** The word slices of the other storages' bitsets, as values. */
  ghost function WordsOf(sets: seq<BitSet>): (r: seq<seq<Word>>)
    reads sets
    ensures |r| == |sets|
    ensures forall k :: 0 <= k < |sets| ==> r[k] == sets[k].bits
  {
    seq(|sets|, k requires 0 <= k < |sets| reads sets => sets[k].bits)
  }

  /** `x` is in every one of `ws` (true when there are none). */
  ghost predicate InAll(x: nat, ws: seq<seq<Word>>) {
    forall k :: 0 <= k < |ws| ==> x in Members(ws[k])
  }

  /** `x` is in at least one of `ws`. */
  ghost predicate InAny(x: nat, ws: seq<seq<Word>>) {
    exists k :: 0 <= k < |ws| && x in Members(ws[k])
  }

  /** `x` is in none of `ws`, and lies within the words of each of them
      (`AndNot` truncates to the shorter slice). */
  ghost predicate OutsideAll(x: nat, ws: seq<seq<Word>>) {
    forall k :: 0 <= k < |ws| ==> x !in Members(ws[k]) && x < 64 * |ws[k]|
  }

  ghost predicate AllValid(sets: seq<BitSet>)
    reads sets
  {
    forall k :: 0 <= k < |sets| ==> sets[k].Valid()
  }

  class Storage<T> {
    /** One slot per entity, fixed at construction. */
    const components: array<T>
    /** The entities that have this component. */
    const b: BitSet
    /** Go's zero value of the component type. */
    const zero: T

    ghost predicate Valid()
      reads this, b
    {
      b.Valid()
    }

    /** `newStorage(capacity)`: `capacity` zero components, and an empty
        bitset sized for `capacity` entities. */
    constructor (capacity: Pos, zero: T)
      ensures Valid() && fresh(b) && fresh(components)
      ensures this.zero == zero
      ensures components.Length == capacity
      ensures forall e :: 0 <= e < capacity ==> components[e] == zero
      ensures b.Elems() == {}
    {
      this.zero := zero;
      components := new T[capacity](_ => zero);
      b := new BitSet(capacity);
    }

    /** `EntityHasComponent(e)`: the entity's bit in the presence bitset. */
    function EntityHasComponent(e: Entity): (r: bool)
      reads this, b
      ensures r <==> e in b.Elems()
    {
      b.Get(e)
    }

    /** `clear(e)`: clears the entity's bit, then zeroes its slot (the slot
        index panics in Go when `e` is beyond the capacity). */
    method Clear(e: Entity)
      requires Valid() && e < components.Length
      modifies b, components
      ensures Valid()
      ensures !EntityHasComponent(e)
      ensures b.Elems() == old(b.Elems()) - {e}
      ensures components[e] == zero
      ensures forall k :: 0 <= k < components.Length && k != e ==> components[k] == old(components[k])
    {
      b.Clear(e);
      components[e] := zero;
    }

    /** `Update(e, c)`: overwrites the slot; the bitset is left alone. */
    method Update(e: Entity, c: T)
      requires e < components.Length
      modifies components
      ensures Get(e) == c
      ensures forall k :: 0 <= k < components.Length && k != e ==> Get(k) == old(Get(k))
    {
      components[e] := c;
    }

    /** `Get(e)`: a copy of the slot, whether or not the entity has it. */
    function Get(e: nat): T
      requires e < components.Length
      reads components
    {
      components[e]
    }

    /** `All()`: the entities that have this component, ascending. */
    method All() returns (ids: seq<nat>)
      requires Valid()
      ensures Ascending(ids)
      ensures forall x: nat :: x in ids <==> x in b.Elems()
      ensures |ids| == |b.Elems()|
    {
      ids := b.ActiveIDs();
    }

    /** `And(others...)`: the entities that have this component and every
        other one. */
    method And(others: seq<BitSet>) returns (ids: seq<nat>)
      requires Valid() && AllValid(others)
      ensures Ascending(ids)
      ensures forall x: nat :: x in ids <==> x in b.Elems() && InAll(x, WordsOf(others))
    {
      ghost var ws := WordsOf(others);
      var bits := b.Clone();
      for k := 0 to |others|
        invariant fresh(bits) && bits.Valid()
        invariant forall x: nat :: x in bits.Elems() <==> x in b.Elems() && InAll(x, ws[..k])
      {
        bits.And(others[k]);
        assert ws[..k + 1] == ws[..k] + [ws[k]];
      }
      assert ws[..|others|] == ws;
      ids := bits.ActiveIDs();
    }

    /** `ButNot(others...)`: the entities that have this component and none of
        the others. Each `AndNot` also truncates to the other bitset's words,
        so an entity beyond any other bitset's slice is dropped too. */
    method ButNot(others: seq<BitSet>) returns (ids: seq<nat>)
      requires Valid() && AllValid(others)
      ensures Ascending(ids)
      ensures forall x: nat :: x in ids <==> x in b.Elems() && OutsideAll(x, WordsOf(others))
    {
      ghost var ws := WordsOf(others);
      var bits := b.Clone();
      for k := 0 to |others|
        invariant fresh(bits) && bits.Valid()
        invariant forall x: nat :: x in bits.Elems() <==> x in b.Elems() && OutsideAll(x, ws[..k])
      {
        bits.AndNot(others[k]);
        assert ws[..k + 1] == ws[..k] + [ws[k]];
      }
      assert ws[..|others|] == ws;
      ids := bits.ActiveIDs();
    }

    /** `Or(others...)`: the entities that have this component or any of the
        others. */
    method Or(others: seq<BitSet>) returns (ids: seq<nat>)
      requires Valid() && AllValid(others)
      ensures Ascending(ids)
      ensures forall x: nat :: x in ids <==> x in b.Elems() || InAny(x, WordsOf(others))
    {
      ghost var ws := WordsOf(others);
      var bits := b.Clone();
      for k := 0 to |others|
        invariant fresh(bits) && bits.Valid()
        invariant forall x: nat :: x in bits.Elems() <==> x in b.Elems() || InAny(x, ws[..k])
      {
        bits.Or(others[k]);
        assert ws[..k + 1] == ws[..k] + [ws[k]];
      }
      assert ws[..|others|] == ws;
      ids := bits.ActiveIDs();
    }
  }
}
