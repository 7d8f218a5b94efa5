/**
 * The entity-component pool of `ecs.go`: storages of components keyed by
 * component type, each a fixed slice of values plus a byte bitset of the
 * entities that have the component, and an allocator of entity ids with a
 * FIFO free list. Component types are abstract type ids; every storage of a
 * pool holds values of one Dafny type `T`, with a zero value per type id.
 */
module Ecs {
  import opened Ordered
  import opened ByteBitset

  /** An entity id, a Go `uint32`. */
  type Entity = UInt32

  /** A component type (Go: its `reflect.Type`). */
  type TypeId = nat

  /** The outcome of an operation that may panic. A panic leaves the state
      as it was. */
  datatype Result<R> = Ok(value: R) | Panic(reason: Reason)

  /** Why an operation panics. */
  datatype Reason =
    | EntityLimitExceeded   // `NewEntity` with no free id left
    | AlreadyRegistered     // `Register` of a registered type
    | NotRegistered         // lookup of an unregistered type, auto-registration off
    | MissingComponent      // `Storage.Update` of an entity without the component

  /** The bitset of a query argument, as a value; a nil `_Storage` is `Nil`. */
  datatype Mask = Nil | Bits(data: seq<Byte>)

  /** The present arguments of `Matches`, as values. */
  ghost function MasksOf(storages: seq<BitSet?>): (r: seq<Mask>)
    reads set k | 0 <= k < |storages| && storages[k] != null :: storages[k]
    ensures |r| == |storages|
    ensures forall k :: 0 <= k < |storages| ==> (r[k].Nil? <==> storages[k] == null)
    ensures forall k :: 0 <= k < |storages| && storages[k] != null ==> r[k] == Bits(storages[k].data)
  {
    seq(|storages|, k requires 0 <= k < |storages|
      reads set k | 0 <= k < |storages| && storages[k] != null :: storages[k] =>
      if storages[k] == null then Nil else Bits(storages[k].data))
  }

  /** `x` is in every present mask (true when there is none). */
  ghost predicate InAllMasks(x: nat, masks: seq<Mask>) {
    forall k :: 0 <= k < |masks| && masks[k].Bits? ==> x in Members(masks[k].data)
  }

  /** The storage of one component type (Go: `Storage[T]`; its mutex is not
      modelled). */
  class Storage<T> {
    /** One slot per entity, `pool.size` of them. */
    const components: array<T>
    /** The entities that have the component. */
    const b: BitSet
    /** Go's zero value of the component type. */
    const zero: T

    /** Only entities with a slot are ever added, so the bitset stays within
        the slots, and within the bytes of `uint32` positions. */
    ghost predicate Valid()
      reads b
    {
      |b.data| <= MaxBytes &&
      forall x :: x in b.Elems() ==> x < components.Length
    }

    /** `newStorage[T](size)`: `size` zero slots and the zero bitset. */
    constructor (size: nat, zero: T)
      ensures Valid() && fresh(b) && fresh(components)
      ensures this.zero == zero
      ensures components.Length == size
      ensures components[..] == seq(size, _ => zero)
      ensures b.Elems() == {}
    {
      this.zero := zero;
      components := new T[size](_ => zero);
      b := new BitSet();
    }

    /** `EntityHasComponent(e)`: the entity's bit in the bitset. */
    function EntityHasComponent(e: Entity): (r: bool)
      reads b
      ensures r <==> e in b.Elems()
    {
      b.IsSet(e)
    }

    /** `Get(e)`: a copy of the slot, whether or not the entity has the
        component. */
    function Get(e: Entity): T
      requires e < components.Length
      reads components
    {
      components[e]
    }

    /** `delete(e)`: zeroes the slot, then unsets the bit. */
    method Delete(e: Entity)
      requires Valid() && e < components.Length
      modifies b, components
      ensures Valid()
      ensures !EntityHasComponent(e)
      ensures b.Elems() == old(b.Elems()) - {e}
      ensures components[..] == old(components[..])[e := zero]
    {
      components[e] := zero;
      b.Unset(e);
    }

    /** `Update(e, c)`: panics unless the entity has the component, else
        overwrites its slot. */
    method Update(e: Entity, c: T) returns (r: Result<()>)
      requires Valid()
      modifies components
      ensures r.Panic? <==> !EntityHasComponent(e)
      ensures r.Panic? ==> components[..] == old(components[..])
      ensures r.Ok? ==> e < components.Length && components[..] == old(components[..])[e := c]
    {
      if !EntityHasComponent(e) {
        return Panic(MissingComponent);
      }
      components[e] := c;
      return Ok(());
    }

    /** `Matches(storages...)`: the entities of this storage that are also
        in every non-nil argument, ascending; with no argument (or only nil
        ones) all entities of this storage. */
    method Matches(storages: seq<BitSet?>) returns (ret: seq<Entity>)
      requires Valid()
      ensures Ascending(ret)
      ensures forall x: nat :: x in ret <==> x in b.Elems() && InAllMasks(x, MasksOf(storages))
    {
      ghost var masks := MasksOf(storages);
      var mask := b.Clone();
      if |storages| > 0 {
        for k := 0 to |storages|
          invariant fresh(mask)
          invariant |mask.data| <= |b.data|
          invariant forall x: nat :: x in mask.Elems() <==> x in b.Elems() && InAllMasks(x, masks[..k])
        {
          var s := storages[k];
          if s != null {
            mask.And(s);
          }
          assert masks[..k + 1] == masks[..k] + [masks[k]];
        }
        assert masks[..|storages|] == masks;
      }
      ret := ActiveIndices(mask);
    }
  }

  /** `size` copies of a zero value: the slots of a new storage. */
  function Fill<T>(size: nat, zero: T): (r: seq<T>)
    ensures |r| == size && forall i :: 0 <= i < size ==> r[i] == zero
  {
    seq(size, _ => zero)
  }

  /** A registry view after looking up type `t` with auto-registration: an
      absent type gets the value `v` of a new storage. */
  function WithStore<V>(m: map<TypeId, V>, t: TypeId, v: V): (r: map<TypeId, V>)
    ensures t in r && r.Keys == m.Keys + {t}
    ensures forall u :: u in m ==> r[u] == m[u]
    ensures t !in m ==> r[t] == v
  {
    if t in m then m else m[t := v]
  }

  /** The storages an entity was given components in (a missing key is a
      nil slice). */
  function Used<S>(used: map<Entity, seq<S>>, e: Entity): seq<S> {
    if e in used then used[e] else []
  }

  /** The entities among `killed` whose used storages, before the kill,
      include `st`: their rows of `st` are cleared. */
  ghost function Killed<S>(used: map<Entity, seq<S>>, killed: set<Entity>, st: S): set<nat> {
    set e | e in killed && st in Used(used, e)
  }

  /** `componentsUsed` after killing `killed`: each of them has an empty
      list, set even where the key was missing. */
  function Cleared<S>(used: map<Entity, seq<S>>, killed: set<Entity>): (r: map<Entity, seq<S>>)
    ensures r.Keys == used.Keys + killed
    ensures forall e :: e in killed ==> r[e] == []
    ensures forall e :: e in used && e !in killed ==> r[e] == used[e]
  {
    map e | e in used.Keys + killed :: if e in killed then [] else used[e]
  }

  /** The entities of a list, as a set. */
  ghost function EntitySet(s: seq<Entity>): set<Entity> {
    set x | x in s
  }

  /** Killing one more entity empties its list and no other. */
  lemma ClearedAdd<S>(used: map<Entity, seq<S>>, killed: set<Entity>, e: Entity)
    ensures Cleared(used, killed + {e}) == Cleared(used, killed)[e := []]
  {
  }

  /** Killing one more entity clears it from the row of `st` exactly when
      its list, as the earlier kills left it, names `st`: a list already
      emptied by an earlier kill of the same entity deletes nothing. */
  lemma KilledAdd<S>(used: map<Entity, seq<S>>, killed: set<Entity>, e: Entity, st: S)
    ensures Killed(used, killed + {e}, st) ==
      Killed(used, killed, st) + (if st in Used(Cleared(used, killed), e) then {e} else {})
  {
  }

  ghost function BitsetsOf<T>(stores: map<TypeId, Storage<T>>): set<object> {
    set t | t in stores :: stores[t].b
  }

  ghost function ArraysOf<T>(stores: map<TypeId, Storage<T>>): set<object> {
    set t | t in stores :: stores[t].components
  }

  /** The entities present in each storage of a registry. */
  ghost function PresentIn<T>(stores: map<TypeId, Storage<T>>): map<TypeId, set<nat>>
    reads BitsetsOf(stores)
  {
    map t | t in stores :: stores[t].b.Elems()
  }

  /** The slots of each storage of a registry. */
  ghost function SlotsIn<T>(stores: map<TypeId, Storage<T>>): map<TypeId, seq<T>>
    reads ArraysOf(stores)
  {
    map t | t in stores :: stores[t].components[..]
  }

  /** Each storage of a registry owns its bitset and slots, has `size`
      slots and the zero value of its type, and none shares its bitset with
      the pool's alive set. */
  ghost predicate StoresShape<T>(stores: map<TypeId, Storage<T>>, alive: BitSet, size: nat, zeroOf: TypeId -> T) {
    (forall t :: t in stores ==>
      stores[t].b != alive && stores[t].components.Length == size && stores[t].zero == zeroOf(t)) &&
    StoresDistinct(stores)
  }

  /** No two storages of a registry share their bitset or their slots. */
  ghost predicate StoresDistinct<T>(stores: map<TypeId, Storage<T>>) {
    forall t, u :: t in stores && u in stores && t != u ==>
      stores[t].b != stores[u].b && stores[t].components != stores[u].components
  }

  /** Every storage of a registry is valid. */
  ghost predicate StoresValid<T>(stores: map<TypeId, Storage<T>>)
    reads BitsetsOf(stores)
  {
    forall t :: t in stores ==> stores[t].Valid()
  }

  /** Used lists name registered storages only, and only for entities with
      a slot. */
  ghost predicate UsedValid<T>(used: map<Entity, seq<Storage<T>>>, stores: map<TypeId, Storage<T>>, size: nat) {
    forall e :: e in used ==>
      (forall st :: st in used[e] ==> st in stores.Values) &&
      (used[e] != [] ==> e < size)
  }

  /** Every entity present in a storage has that storage in its used list:
      the bookkeeping that lets `Kill` find all of an entity's components. */
  ghost predicate Recorded<T>(stores: map<TypeId, Storage<T>>, used: map<Entity, seq<Storage<T>>>)
    reads BitsetsOf(stores)
  {
    forall t, x :: t in stores && x in stores[t].b.Elems() ==> stores[t] in Used(used, x)
  }

  /** `Recorded`, stated on the rows of the registry as a value. */
  lemma RecordedRows<T>(stores: map<TypeId, Storage<T>>, used: map<Entity, seq<Storage<T>>>)
    requires Recorded(stores, used)
    ensures forall t, x :: t in stores && t in PresentIn(stores) && x in PresentIn(stores)[t] ==>
      stores[t] in Used(used, x)
  {
  }

  /** Adding `e` to the row of `t`, from rows `rows0` recorded in `used0`,
      and appending the storage of `t` to the list of `e`, keeps every row
      recorded. */
  lemma RecordedAdd<T>(stores: map<TypeId, Storage<T>>, rows0: map<TypeId, set<nat>>,
                       used0: map<Entity, seq<Storage<T>>>, t: TypeId, e: Entity)
    requires forall u, x :: u in stores && u in rows0 && x in rows0[u] ==> stores[u] in Used(used0, x)
    requires t in stores
    requires forall u :: u in stores ==> u in rows0 && stores[u].b.Elems() <= rows0[u] + (if u == t then {e} else {})
    ensures Recorded(stores, used0[e := Used(used0, e) + [stores[t]]])
  {
    var used := used0[e := Used(used0, e) + [stores[t]]];
    forall u, x | u in stores && x in stores[u].b.Elems()
      ensures stores[u] in Used(used, x)
    {
      if u != t || x != e {
        assert x in rows0[u];
        assert stores[u] in Used(used0, x);
      }
    }
  }

  /** After the kills of `killed`, from rows `rows0` that were recorded in
      `used0`: the rows left are recorded in the cleared lists, and no
      killed entity is left in any row. */
  lemma KilledRecorded<T>(stores: map<TypeId, Storage<T>>, rows0: map<TypeId, set<nat>>,
                          slots0: map<TypeId, seq<T>>, used0: map<Entity, seq<Storage<T>>>,
                          killed: set<Entity>)
    requires forall t, x :: t in stores && t in rows0 && x in rows0[t] ==> stores[t] in Used(used0, x)
    requires KilledFrom(stores, rows0, slots0, used0, killed)
    ensures Recorded(stores, Cleared(used0, killed))
    ensures forall t, x :: t in stores && x in killed ==> x !in stores[t].b.Elems()
  {
    forall t, x | t in stores && x in stores[t].b.Elems()
      ensures stores[t] in Used(Cleared(used0, killed), x) && x !in killed
    {
      assert x in rows0[t] && x !in Killed(used0, killed, stores[t]);
      assert stores[t] in Used(used0, x);
    }
  }

  /** The invariant of a pool, on its parts: fresh ids stay below `size`
      and the alive ones below `length`; the registry and the used lists
      are well formed, and every component an entity has is recorded in
      its used list. */
  ghost predicate PoolInv<T>(stores: map<TypeId, Storage<T>>, used: map<Entity, seq<Storage<T>>>,
                             alive: BitSet, size: nat, length: nat, zeroOf: TypeId -> T)
    reads alive, BitsetsOf(stores)
  {
    length <= size &&
    (forall x :: x in alive.Elems() ==> x < length) &&
    StoresShape(stores, alive, size, zeroOf) &&
    StoresValid(stores) &&
    UsedValid(used, stores, size) &&
    Recorded(stores, used)
  }

  /** Every storage an entity's used list names is registered and has a
      slot for the entity. */
  lemma UsedRegistered<T>(used: map<Entity, seq<Storage<T>>>, stores: map<TypeId, Storage<T>>, size: nat, e: Entity)
    requires UsedValid(used, stores, size)
    requires forall t :: t in stores ==> stores[t].components.Length == size
    ensures forall j :: 0 <= j < |Used(used, e)| ==>
      Used(used, e)[j] in stores.Values && e < Used(used, e)[j].components.Length
  {
    forall j | 0 <= j < |Used(used, e)|
      ensures Used(used, e)[j] in stores.Values && e < Used(used, e)[j].components.Length
    {
      var st := Used(used, e)[j];
      assert st in used[e];
      var t :| t in stores && stores[t] == st;
    }
  }

  /** Emptying the lists of killed entities keeps the used lists valid. */
  lemma UsedValidCleared<T>(used: map<Entity, seq<Storage<T>>>, stores: map<TypeId, Storage<T>>, size: nat,
                            killed: set<Entity>)
    requires UsedValid(used, stores, size)
    ensures UsedValid(Cleared(used, killed), stores, size)
  {
  }

  /** A new storage that shares nothing with a valid registry keeps it
      valid. */
  lemma StoresExtend<T>(stores: map<TypeId, Storage<T>>, t: TypeId, st: Storage<T>,
                        alive: BitSet, size: nat, zeroOf: TypeId -> T)
    requires StoresShape(stores, alive, size, zeroOf) && StoresValid(stores) && t !in stores
    requires st.b !in BitsetsOf(stores) && st.components !in ArraysOf(stores) && st.b != alive
    requires st.Valid() && st.components.Length == size && st.zero == zeroOf(t)
    ensures StoresShape(stores[t := st], alive, size, zeroOf) && StoresValid(stores[t := st])
  {
    var s' := stores[t := st];
    forall u, w | u in s' && w in s' && u != w
      ensures s'[u].b != s'[w].b && s'[u].components != s'[w].components
    {
      if u == t {
        assert s'[w].b in BitsetsOf(stores) && s'[w].components in ArraysOf(stores);
      } else if w == t {
        assert s'[u].b in BitsetsOf(stores) && s'[u].components in ArraysOf(stores);
      }
    }
  }

  /** Used lists stay valid when the registry only grows. */
  lemma UsedValidGrow<T>(used: map<Entity, seq<Storage<T>>>, stores: map<TypeId, Storage<T>>,
                         stores': map<TypeId, Storage<T>>, size: nat)
    requires UsedValid(used, stores, size)
    requires forall u :: u in stores ==> u in stores' && stores'[u] == stores[u]
    ensures UsedValid(used, stores', size)
  {
    forall e, st | e in used && st in used[e] ensures st in stores'.Values {
      var u :| u in stores && stores[u] == st;
      assert stores'[u] == st;
    }
  }

  /** `store.delete(e)` on the storage `st` of type `t` in a registry: the
      entity leaves its bitset and its slot is zeroed; no other storage
      changes. */
  method DeleteIn<T>(stores: map<TypeId, Storage<T>>, ghost t: TypeId, st: Storage<T>, e: Entity)
    requires t in stores && stores[t] == st && e < st.components.Length
    requires StoresDistinct(stores) && StoresValid(stores)
    modifies st.b, st.components
    ensures StoresValid(stores)
    ensures forall u :: u in stores && u != t ==> stores[u].b.Elems() == old(stores[u].b.Elems())
    ensures forall u, i :: u in stores && u != t && 0 <= i < stores[u].components.Length ==>
      stores[u].components[i] == old(stores[u].components[i])
    ensures st.b.Elems() == old(st.b.Elems()) - {e}
    ensures forall i :: 0 <= i < st.components.Length ==>
      st.components[i] == if i == e then st.zero else old(st.components[i])
  {
    st.Delete(e);
  }

  /** The write half of `Add` on the storage `st` of type `t` in a
      registry: the entity joins its bitset and its slot holds `c`; no
      other storage changes. */
  method PutIn<T>(stores: map<TypeId, Storage<T>>, ghost t: TypeId, st: Storage<T>, e: Entity, c: T,
                  ghost used0: map<Entity, seq<Storage<T>>>)
    requires t in stores && stores[t] == st && e < st.components.Length && e !in st.b.Elems()
    requires StoresDistinct(stores) && StoresValid(stores) && Recorded(stores, used0)
    modifies st.b, st.components
    ensures StoresValid(stores) && Recorded(stores, used0[e := Used(used0, e) + [st]])
    ensures forall u :: u in stores && u != t ==>
      stores[u].b.Elems() == old(stores[u].b.Elems()) && stores[u].components[..] == old(stores[u].components[..])
    ensures st.b.Elems() == old(st.b.Elems()) + {e}
    ensures st.components[..] == old(st.components[..])[e := c]
  {
    ghost var rows0 := PresentIn(stores);
    RecordedRows(stores, used0);
    st.b.Set(e);
    var _ := st.Update(e, c);
    RecordedAdd(stores, rows0, used0, t, e);
  }

  /** The inner loop of `Kill`: `store.delete(e)` for each storage `ss`
      names; every storage of the registry it names loses the entity. */
  method DeleteAll<T>(stores: map<TypeId, Storage<T>>, e: Entity, ss: seq<Storage<T>>)
    requires StoresDistinct(stores) && StoresValid(stores)
    requires forall j :: 0 <= j < |ss| ==> ss[j] in stores.Values && e < ss[j].components.Length
    modifies BitsetsOf(stores), ArraysOf(stores)
    ensures StoresValid(stores)
    ensures forall u :: u in stores ==>
      stores[u].b.Elems() == old(stores[u].b.Elems()) - (if stores[u] in ss then {e} else {})
    ensures forall u, i :: u in stores && 0 <= i < stores[u].components.Length ==>
      stores[u].components[i] == if i == e && stores[u] in ss then stores[u].zero else old(stores[u].components[i])
  {
    ghost var done: set<Storage<T>> := {};
    for j := 0 to |ss|
      invariant StoresValid(stores)
      invariant done == set i | 0 <= i < j :: ss[i]
      invariant forall u :: u in stores ==>
        stores[u].b.Elems() == old(stores[u].b.Elems()) - (if stores[u] in done then {e} else {})
      invariant forall u, i :: u in stores && 0 <= i < stores[u].components.Length ==>
        stores[u].components[i] == if i == e && stores[u] in done then stores[u].zero else old(stores[u].components[i])
    {
      var st := ss[j];
      ghost var t :| t in stores && stores[t] == st;
      DeleteIn(stores, t, st, e);
      done := done + {st};
    }
    assert forall x :: x in done <==> x in ss;
  }

  /** The rows and slots of a registry once the entities `killed` are
      killed, against its rows `rows0` and slots `slots0` from before: each
      storage loses, from its row and its slots, the killed entities whose
      used lists in `used0` name it. */
  ghost predicate KilledFrom<T>(stores: map<TypeId, Storage<T>>, rows0: map<TypeId, set<nat>>,
                                slots0: map<TypeId, seq<T>>, used0: map<Entity, seq<Storage<T>>>,
                                killed: set<Entity>)
    reads BitsetsOf(stores), ArraysOf(stores)
  {
    forall u :: u in stores ==>
      u in rows0 && u in slots0 && |slots0[u]| == stores[u].components.Length &&
      stores[u].b.Elems() == rows0[u] - Killed(used0, killed, stores[u]) &&
      forall i :: 0 <= i < |slots0[u]| ==>
        stores[u].components[i] == if i in Killed(used0, killed, stores[u]) then stores[u].zero else slots0[u][i]
  }

  /** Before any kill, every storage is `KilledFrom` its own rows and
      slots. */
  lemma KilledFromNone<T>(stores: map<TypeId, Storage<T>>, used0: map<Entity, seq<Storage<T>>>)
    ensures KilledFrom(stores, PresentIn(stores), SlotsIn(stores), used0, {})
  {
  }

  /** The objects `Kill` changes, once the entities `killed` are killed:
      the storages stay valid, the alive set lost the killed entities, and
      the rows and slots are `KilledFrom` their values before. */
  ghost predicate KillState<T>(stores: map<TypeId, Storage<T>>, alive: BitSet, alive0: set<nat>,
                               rows0: map<TypeId, set<nat>>, slots0: map<TypeId, seq<T>>,
                               used0: map<Entity, seq<Storage<T>>>, killed: set<Entity>)
    reads alive, BitsetsOf(stores), ArraysOf(stores)
  {
    StoresValid(stores) && alive.Elems() == alive0 - killed &&
    KilledFrom(stores, rows0, slots0, used0, killed)
  }

  /** The loop of `Kill`, over the parts of a pool: its registry, its alive
      set, its free list `free0` and its used lists `used0`. Returns the new
      free list and used lists. */
  method KillAll<T>(stores: map<TypeId, Storage<T>>, alive: BitSet, size: nat,
                    free0: seq<Entity>, used0: map<Entity, seq<Storage<T>>>, entities: seq<Entity>)
    returns (free: seq<Entity>, used: map<Entity, seq<Storage<T>>>)
    requires StoresDistinct(stores) && StoresValid(stores) && alive !in BitsetsOf(stores)
    requires forall t :: t in stores ==> stores[t].components.Length == size
    requires UsedValid(used0, stores, size)
    modifies alive, BitsetsOf(stores), ArraysOf(stores)
    ensures UsedValid(used, stores, size)
    ensures free == free0 + entities
    ensures used == Cleared(used0, EntitySet(entities))
    ensures KillState(stores, alive, old(alive.Elems()), old(PresentIn(stores)), old(SlotsIn(stores)),
                      used0, EntitySet(entities))
  {
    ghost var alive0, rows0, slots0 := alive.Elems(), PresentIn(stores), SlotsIn(stores);
    free, used := free0, used0;
    ghost var gone: set<Entity> := {};
    KilledFromNone(stores, used0);
    for k := 0 to |entities|
      invariant free == free0 + entities[..k]
      invariant gone == EntitySet(entities[..k])
      invariant used == Cleared(used0, gone)
      invariant KillState(stores, alive, alive0, rows0, slots0, used0, gone)
    {
      var e := entities[k];
      assert entities[..k + 1] == entities[..k] + [e];
      assert free0 + entities[..k + 1] == free + [e];
      var storagesUsed := Used(used, e);
      UsedValidCleared(used0, stores, size, gone);
      UsedRegistered(used, stores, size, e);
      KillOne(stores, alive, e, storagesUsed, alive0, rows0, slots0, used0, gone);
      free := free + [e];
      used := used[e := []];
      ClearedAdd(used0, gone, e);
      gone := gone + {e};
    }
    assert entities[..|entities|] == entities;
    UsedValidCleared(used0, stores, size, gone);
  }

  /** `KillAll` on a registry whose rows are recorded in `used0`: the rows
      stay recorded in the new lists, and no killed entity is left in any
      row. */
  method KillRecorded<T>(stores: map<TypeId, Storage<T>>, alive: BitSet, size: nat, ghost length: nat,
                         ghost zeroOf: TypeId -> T,
                         free0: seq<Entity>, used0: map<Entity, seq<Storage<T>>>, entities: seq<Entity>)
    returns (free: seq<Entity>, used: map<Entity, seq<Storage<T>>>)
    requires PoolInv(stores, used0, alive, size, length, zeroOf)
    modifies alive, BitsetsOf(stores), ArraysOf(stores)
    ensures PoolInv(stores, used, alive, size, length, zeroOf)
    ensures forall t, x :: t in stores && x in entities ==> x !in stores[t].b.Elems()
    ensures free == free0 + entities
    ensures used == Cleared(used0, EntitySet(entities))
    ensures KillState(stores, alive, old(alive.Elems()), old(PresentIn(stores)), old(SlotsIn(stores)),
                      used0, EntitySet(entities))
  {
    ghost var rows0, slots0 := PresentIn(stores), SlotsIn(stores);
    RecordedRows(stores, used0);
    free, used := KillAll(stores, alive, size, free0, used0, entities);
    KilledRecorded(stores, rows0, slots0, used0, EntitySet(entities));
    forall t, x | t in stores && x in entities
      ensures x !in stores[t].b.Elems()
    {
      assert x in EntitySet(entities);
    }
  }

  /** One turn of the loop of `Kill`, on the objects it changes: the alive
      bit of `e` is unset and `e` is deleted from every storage `ss` names.
      With `ss` the list the earlier kills of `killed` left, the objects
      move on from the `KillState` of those kills to that of them and `e`. */
  method KillOne<T>(stores: map<TypeId, Storage<T>>, alive: BitSet, e: Entity, ss: seq<Storage<T>>,
                    ghost alive0: set<nat>, ghost rows0: map<TypeId, set<nat>>, ghost slots0: map<TypeId, seq<T>>,
                    ghost used0: map<Entity, seq<Storage<T>>>, ghost killed: set<Entity>)
    requires StoresDistinct(stores) && alive !in BitsetsOf(stores)
    requires forall j :: 0 <= j < |ss| ==> ss[j] in stores.Values && e < ss[j].components.Length
    requires ss == Used(Cleared(used0, killed), e)
    requires KillState(stores, alive, alive0, rows0, slots0, used0, killed)
    modifies alive, BitsetsOf(stores), ArraysOf(stores)
    ensures KillState(stores, alive, alive0, rows0, slots0, used0, killed + {e})
  {
    alive.Unset(e);
    DeleteAll(stores, e, ss);
    forall u | u in stores
      ensures Killed(used0, killed + {e}, stores[u]) ==
        Killed(used0, killed, stores[u]) + (if stores[u] in ss then {e} else {})
    {
      KilledAdd(used0, killed, e, stores[u]);
    }
  }

  /** The pool (Go: `Pool`; its mutexes are not modelled). */
  class Pool<T> {
    /** The registry of storages by component type. */
    var stores: map<TypeId, Storage<T>>
    /** The storages each entity was given a component in. */
    var componentsUsed: map<Entity, seq<Storage<T>>>
    /** The entities handed out fresh and not killed since. */
    const aliveEntities: BitSet
    /** Killed entities, oldest first, for reuse. */
    var freeList: seq<Entity>
    /** Slots per storage; the bound on fresh entity ids. */
    const size: nat
    /** Fresh entity ids handed out so far. */
    var length: nat
    /** Go's global `AutoRegisterComponents`. */
    const autoRegister: bool
    /** The zero value of each component type. */
    const zeroOf: TypeId -> T

    ghost function Bitsets(): set<object>
      reads this
    {
      BitsetsOf(stores)
    }

    ghost function Arrays(): set<object>
      reads this
    {
      ArraysOf(stores)
    }

    /** The entities present in each storage. */
    ghost function Present(): map<TypeId, set<nat>>
      reads this, Bitsets()
    {
      PresentIn(stores)
    }

    /** The slots of each storage. */
    ghost function Slots(): map<TypeId, seq<T>>
      reads this, Arrays()
    {
      SlotsIn(stores)
    }

    ghost function Alive(): set<nat>
      reads this, aliveEntities
    {
      aliveEntities.Elems()
    }

    /** The entities with component `t`; none before `t` is registered. */
    ghost function Row(t: TypeId): set<nat>
      reads this, Bitsets()
    {
      if t in stores then stores[t].b.Elems() else {}
    }

    /** The slots of component `t`; all zero before `t` is registered, as a
        newly registered storage has them. */
    ghost function Column(t: TypeId): seq<T>
      reads this, Arrays()
    {
      if t in stores then stores[t].components[..] else Fill(size, zeroOf(t))
    }

    /** The bookkeeping the operations keep: fresh ids stay below `size`
        and the alive ones below `length`; the registry and the used lists
        are well formed, and every component an entity has is recorded in
        its used list. */
    ghost predicate Valid()
      reads this, aliveEntities, Bitsets()
    {
      PoolInv(stores, componentsUsed, aliveEntities, size, length, zeroOf)
    }

    /** `New(size)`: an empty pool. */
    constructor (size: nat, autoRegister: bool, zeroOf: TypeId -> T)
      ensures Valid() && fresh(aliveEntities)
      ensures this.size == size && this.autoRegister == autoRegister && this.zeroOf == zeroOf
      ensures stores == map[] && componentsUsed == map[] && freeList == [] && length == 0
      ensures Alive() == {}
    {
      this.size := size;
      this.autoRegister := autoRegister;
      this.zeroOf := zeroOf;
      stores := map[];
      componentsUsed := map[];
      aliveEntities := new BitSet();
      freeList := [];
      length := 0;
    }

    /** `NewEntity(p)`: the oldest killed id when the free list is not
        empty (its alive bit is not set again); otherwise the next fresh id
        `Entity(length)`, marked alive, or a panic once `size` fresh ids have
        been handed out. */
    method NewEntity() returns (r: Result<Entity>)
      requires Valid()
      modifies this, aliveEntities
      ensures Valid()
      ensures stores == old(stores) && componentsUsed == old(componentsUsed)
      ensures unchanged(Bitsets()) && unchanged(Arrays())
      ensures old(freeList) == [] && old(length) >= size ==>
        r == Panic(EntityLimitExceeded) && length == old(length) && freeList == [] && Alive() == old(Alive())
      ensures old(freeList) == [] && old(length) < size ==>
        r == Ok(old(length) % 0x1_0000_0000) && length == old(length) + 1 && freeList == [] &&
        Alive() == old(Alive()) + {r.value}
      ensures old(freeList) != [] ==>
        r == Ok(old(freeList)[0]) && freeList == old(freeList)[1..] && length == old(length) &&
        Alive() == old(Alive())
    {
      if |freeList| == 0 {
        if length >= size {
          return Panic(EntityLimitExceeded);
        }
        var e: Entity := length % 0x1_0000_0000;
        aliveEntities.Set(e);
        length := length + 1;
        return Ok(e);
      }
      var newEntity := freeList[0];
      freeList := freeList[1..];
      return Ok(newEntity);
    }

    /** The allocation shared by `Register` and `registerAndGetStorage`:
        `pool.stores[r] = newStorage[T](pool.size)`. */
    method Install(t: TypeId) returns (st: Storage<T>)
      requires Valid() && t !in stores
      modifies this
      ensures Valid()
      ensures componentsUsed == old(componentsUsed) && freeList == old(freeList) && length == old(length)
      ensures stores == old(stores)[t := st] && fresh(st.b) && fresh(st.components)
      ensures forall u :: Row(u) == old(Row(u)) && Column(u) == old(Column(u))
    {
      st := new Storage(size, zeroOf(t));
      StoresExtend(stores, t, st, aliveEntities, size, zeroOf);
      UsedValidGrow(componentsUsed, stores, stores[t := st], size);
      stores := stores[t := st];
      forall u ensures Row(u) == old(Row(u)) && Column(u) == old(Column(u)) {
        if u != t && u in stores {
          assert stores[u] == old(stores[u]);
        }
      }
    }

    /** `registerAndGetStorage[T](pool)`: the registered storage of `t`;
        else, with auto-registration, a new storage of `size` zero slots
        under `t`; else a panic. The views do not change. */
    method RegisterAndGetStorage(t: TypeId) returns (r: Result<Storage<T>>)
      requires Valid()
      modifies this
      ensures Valid()
      ensures componentsUsed == old(componentsUsed) && freeList == old(freeList) && length == old(length)
      ensures r.Panic? <==> t !in old(stores) && !autoRegister
      ensures r.Panic? ==> r.reason == NotRegistered && stores == old(stores)
      ensures r.Ok? ==> t in stores && r.value == stores[t] && stores == WithStore(old(stores), t, r.value)
      ensures r.Ok? && t !in old(stores) ==> fresh(r.value.b) && fresh(r.value.components)
      ensures forall u :: Row(u) == old(Row(u)) && Column(u) == old(Column(u))
    {
      if t in stores {
        return Ok(stores[t]);
      } else if autoRegister {
        var st := Install(t);
        return Ok(st);
      }
      return Panic(NotRegistered);
    }

    /** `Register[T](pool)`: a new storage under `t`; a panic when `t` is
        already registered. */
    method Register(t: TypeId) returns (r: Result<()>)
      requires Valid()
      modifies this
      ensures Valid()
      ensures componentsUsed == old(componentsUsed) && freeList == old(freeList) && length == old(length)
      ensures r.Panic? <==> t in old(stores)
      ensures r.Panic? ==> r.reason == AlreadyRegistered && stores == old(stores)
      ensures r.Ok? ==> stores.Keys == old(stores).Keys + {t} && fresh(stores[t].b) && fresh(stores[t].components)
      ensures forall u :: u in old(stores) ==> u in stores && stores[u] == old(stores)[u]
      ensures forall u :: Row(u) == old(Row(u)) && Column(u) == old(Column(u))
    {
      if t !in stores {
        var st := Install(t);
        return Ok(());
      }
      return Panic(AlreadyRegistered);
    }

    /** `Add[T](pool, e, c)`: gives `e` component `t` with value `c` unless
        it already has one (the first value stays), recording the storage
        in `e`'s used list. Looking up `t` may register it, or panic. */
    method Add(t: TypeId, e: Entity, c: T) returns (r: Result<()>)
      requires Valid() && e < size
      modifies this, Bitsets(), Arrays()
      ensures Valid()
      ensures freeList == old(freeList) && length == old(length)
      ensures r.Panic? <==> t !in old(stores) && !autoRegister
      ensures r.Panic? ==> r.reason == NotRegistered && stores == old(stores) && componentsUsed == old(componentsUsed)
      ensures r.Ok? ==> t in stores && stores == WithStore(old(stores), t, stores[t])
      ensures forall u :: u in old(stores) ==> u in stores && stores[u] == old(stores)[u]
      ensures forall u :: u != t ==> Row(u) == old(Row(u)) && Column(u) == old(Column(u))
      ensures r.Panic? ==> Row(t) == old(Row(t)) && Column(t) == old(Column(t))
      ensures r.Ok? ==> Row(t) == old(Row(t)) + {e}
      ensures r.Ok? && e in old(Row(t)) ==>
        Column(t) == old(Column(t)) && componentsUsed == old(componentsUsed)
      ensures r.Ok? && e !in old(Row(t)) ==>
        Column(t) == old(Column(t))[e := c] &&
        componentsUsed == old(componentsUsed)[e := Used(old(componentsUsed), e) + [stores[t]]]
    {
      var got := RegisterAndGetStorage(t);
      if got.Panic? {
        return Panic(got.reason);
      }
      var st := got.value;
      if st.EntityHasComponent(e) {
        return Ok(());
      }
      Put(t, st, e, c);
      return Ok(());
    }

    /** The write half of `Add`, once the entity is known not to have the
        component: set its bit, store the value, record the storage. */
    method Put(t: TypeId, st: Storage<T>, e: Entity, c: T)
      requires Valid() && t in stores && stores[t] == st && e < size && e !in st.b.Elems()
      modifies this, st.b, st.components
      ensures Valid()
      ensures stores == old(stores) && freeList == old(freeList) && length == old(length)
      ensures forall u :: u != t ==> Row(u) == old(Row(u)) && Column(u) == old(Column(u))
      ensures Row(t) == old(Row(t)) + {e} && Column(t) == old(Column(t))[e := c]
      ensures componentsUsed == old(componentsUsed)[e := Used(old(componentsUsed), e) + [st]]
    {
      assert this !in Bitsets() && this !in Arrays();
      PutIn(stores, t, st, e, c, componentsUsed);
      componentsUsed := componentsUsed[e := Used(componentsUsed, e) + [st]];
    }

    /** `Remove[T](pool, e)`: takes component `t` from `e`, zeroing its
        slot. The used list is searched from the back for the storage, but
        `slices.Delete(s, i, i)` deletes the empty range, so the list stays
        as it was. Looking up `t` may register it, or panic. */
    method Remove(t: TypeId, e: Entity) returns (r: Result<()>)
      requires Valid()
      modifies this, Bitsets(), Arrays()
      ensures Valid()
      ensures freeList == old(freeList) && length == old(length) && componentsUsed == old(componentsUsed)
      ensures r.Panic? <==> t !in old(stores) && !autoRegister
      ensures r.Panic? ==> r.reason == NotRegistered && stores == old(stores)
      ensures r.Ok? ==> t in stores && stores == WithStore(old(stores), t, stores[t])
      ensures forall u :: u in old(stores) ==> u in stores && stores[u] == old(stores)[u]
      ensures forall u :: u != t ==> Row(u) == old(Row(u)) && Column(u) == old(Column(u))
      ensures r.Panic? ==> Row(t) == old(Row(t)) && Column(t) == old(Column(t))
      ensures r.Ok? ==> Row(t) == old(Row(t)) - {e}
      ensures r.Ok? && e !in old(Row(t)) ==> Column(t) == old(Column(t))
      ensures r.Ok? && e in old(Row(t)) ==> e < size && Column(t) == old(Column(t))[e := zeroOf(t)]
    {
      var got := RegisterAndGetStorage(t);
      if got.Panic? {
        return Panic(got.reason);
      }
      RemoveFrom(t, got.value, e);
      return Ok(());
    }

    /** The part of `Remove` after the lookup: nothing happens unless the
        entity has the component; then its slot is zeroed, its bit unset,
        and its used list searched. */
    method RemoveFrom(t: TypeId, st: Storage<T>, e: Entity)
      requires Valid() && t in stores && stores[t] == st
      modifies this, st.b, st.components
      ensures Valid()
      ensures stores == old(stores) && freeList == old(freeList) && length == old(length)
      ensures componentsUsed == old(componentsUsed)
      ensures forall u :: u != t ==> Row(u) == old(Row(u)) && Column(u) == old(Column(u))
      ensures Row(t) == old(Row(t)) - {e}
      ensures e !in old(Row(t)) ==> Column(t) == old(Column(t))
      ensures e in old(Row(t)) ==> e < size && Column(t) == old(Column(t))[e := zeroOf(t)]
    {
      if !st.EntityHasComponent(e) {
        return;
      }
      assert e < st.components.Length;
      assert this !in Bitsets() && this !in Arrays();
      Take(t, st, e);
      Unrecord(st, e);
    }

    /** `storage.delete(e)` on the storage of type `t`: the entity leaves
        its row and its slot is zeroed; no other storage changes. */
    method Take(ghost t: TypeId, st: Storage<T>, e: Entity)
      requires Valid() && t in stores && stores[t] == st && e < size
      modifies st.b, st.components
      ensures Valid()
      ensures forall u :: u != t ==> Row(u) == old(Row(u)) && Column(u) == old(Column(u))
      ensures Row(t) == old(Row(t)) - {e} && Column(t) == old(Column(t))[e := zeroOf(t)]
    {
      st.Delete(e);
    }

    /** The used-list update of `Remove`: the list is searched from the back
        for the storage and `slices.Delete(s, i, i)` is applied where it is
        found, which deletes the empty range and so leaves the list as it
        was. */
    method Unrecord(st: Storage<T>, e: Entity)
      modifies this
      ensures stores == old(stores) && componentsUsed == old(componentsUsed)
      ensures freeList == old(freeList) && length == old(length)
    {
      var s := Used(componentsUsed, e);
      var i := |s| - 1;
      while i >= 0
        invariant -1 <= i < |s|
        invariant stores == old(stores) && componentsUsed == old(componentsUsed)
        invariant freeList == old(freeList) && length == old(length)
      {
        if s[i] == st {
          assert s[..i] + s[i..] == s;
          componentsUsed := componentsUsed[e := s[..i] + s[i..]];
          return;
        }
        i := i - 1;
      }
    }

    /** `Kill(pool, entities...)`: for each entity in turn, unset its alive
        bit, append it to the free list, delete it from every storage its
        used list names (as that list is when its turn comes), and empty
        the list. */
    method Kill(entities: seq<Entity>)
      requires Valid()
      modifies this, aliveEntities, Bitsets(), Arrays()
      ensures Valid()
      ensures stores == old(stores) && length == old(length)
      ensures freeList == old(freeList) + entities
      ensures componentsUsed == Cleared(old(componentsUsed), EntitySet(entities))
      ensures KillState(stores, aliveEntities, old(aliveEntities.Elems()), old(PresentIn(stores)), old(SlotsIn(stores)),
                        old(componentsUsed), EntitySet(entities))
      ensures forall t, x :: x in entities ==> x !in Row(t)
    {
      assert this !in Bitsets() && this !in Arrays();
      var free, used := KillRecorded(stores, aliveEntities, size, length, zeroOf, freeList, componentsUsed, entities);
      ghost var inv := PoolInv(stores, used, aliveEntities, size, length, zeroOf);
      ghost var killed := KillState(stores, aliveEntities, old(aliveEntities.Elems()), old(PresentIn(stores)),
                                    old(SlotsIn(stores)), old(componentsUsed), EntitySet(entities));
      assert inv && killed;
      freeList := free;
      componentsUsed := used;
      assert inv == PoolInv(stores, componentsUsed, aliveEntities, size, length, zeroOf);
      assert killed == KillState(stores, aliveEntities, old(aliveEntities.Elems()), old(PresentIn(stores)),
                                 old(SlotsIn(stores)), old(componentsUsed), EntitySet(entities));
    }

    /** `Has[T](pool, e)`: whether `e` has component `t`. Looking up `t` may
        register it, or panic. */
    method Has(t: TypeId, e: Entity) returns (r: Result<bool>)
      requires Valid()
      modifies this
      ensures Valid()
      ensures componentsUsed == old(componentsUsed) && freeList == old(freeList) && length == old(length)
      ensures r.Panic? <==> t !in old(stores) && !autoRegister
      ensures r.Panic? ==> r.reason == NotRegistered && stores == old(stores)
      ensures r.Ok? ==> t in stores && stores == WithStore(old(stores), t, stores[t])
      ensures r.Ok? ==> (r.value <==> e in old(Row(t)))
      ensures forall u :: u in old(stores) ==> u in stores && stores[u] == old(stores)[u]
      ensures forall u :: Row(u) == old(Row(u)) && Column(u) == old(Column(u))
    {
      var got := RegisterAndGetStorage(t);
      if got.Panic? {
        return Panic(got.reason);
      }
      return Ok(got.value.EntityHasComponent(e));
    }

    /** `EntitiesOf[A](pool)`: the entities with component `t`, ascending.
        Looking up `t` may register it, or panic. */
    method EntitiesOf(t: TypeId) returns (r: Result<seq<Entity>>)
      requires Valid()
      modifies this
      ensures Valid()
      ensures componentsUsed == old(componentsUsed) && freeList == old(freeList) && length == old(length)
      ensures r.Panic? <==> t !in old(stores) && !autoRegister
      ensures r.Panic? ==> r.reason == NotRegistered && stores == old(stores)
      ensures r.Ok? ==> t in stores && stores == WithStore(old(stores), t, stores[t])
      ensures r.Ok? ==> Ascending(r.value) && forall x: nat :: x in r.value <==> x in old(Row(t))
      ensures forall u :: u in old(stores) ==> u in stores && stores[u] == old(stores)[u]
      ensures forall u :: Row(u) == old(Row(u)) && Column(u) == old(Column(u))
    {
      var got := RegisterAndGetStorage(t);
      if got.Panic? {
        return Panic(got.reason);
      }
      var ids := ActiveIndices(got.value.b);
      return Ok(ids);
    }
  }
}
