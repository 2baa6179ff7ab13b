/**
 The checkpoint arena's bookkeeping (crates/rocket-surgeon-worker/src/checkpoint.rs,
 `CheckpointArena`): a free list, an append-only descriptor table, an index by (checkpoint,
 layer), the slots each checkpoint owns and the order checkpoints arrived in. Memory is a
 sequence of slots here; `ArenaObject` lays it out flat.
 */
module Arenas {
  import opened Prelude
  import opened Bits
  import opened Sorting
  import opened SlotFormat

  /** No mapping is larger than a five-level page table's user address space. */
  const MAX_MAPPING: nat := 0x200_0000_0000_0000

  type Key = (string, U32)

  /** A descriptor's byte offset is `slot * slot_size`. */
  datatype Descriptor = Descriptor(slot: nat, id: string, layer: U32)

  datatype Arena = Arena(
    slotSize: nat,
    mem: seq<seq<Byte>>,
    free: seq<nat>,
    slots: seq<Descriptor>,
    index: Index,
    owned: Ownership,
    order: seq<string>)

  // ----- the operations -----

  /** A fresh arena hands out slot 0 first. */
  function New(slotSize: nat, numSlots: nat): Arena {
    Arena(slotSize, seq(numSlots, _ => Zeros(slotSize)),
          seq(numSlots, i requires 0 <= i < numSlots => numSlots - 1 - i), [], map[], map[], [])
  }

  /** The slot bytes with `s` written at their start. */
  function Overwrite(slot: seq<Byte>, s: seq<Byte>): (r: seq<Byte>)
    requires |s| <= |slot|
    ensures |r| == |slot| && r[..|s|] == s
  {
    s + slot[|s|..]
  }

  function BlankHeader(slotSize: nat): SlotHeader
    requires slotSize >= SLOT_HEADER_SIZE
  {
    SlotHeader(Float32, 0, [0, 0, 0, 0, 0, 0], slotSize - SLOT_HEADER_SIZE)
  }

  function OwnedBy(a: Arena, id: string): seq<nat> {
    if id in a.owned then a.owned[id] else []
  }

  /** `alloc_slot`: the arena after it and the slot handed out, `None` when exhausted. */
  function Alloc(a: Arena, id: string, layer: U32): Option<(Arena, nat)>
    requires Geometry(a) && forall i :: 0 <= i < |a.free| ==> a.free[i] < |a.mem|
  {
    if a.free == [] then None
    else
      var slot := a.free[|a.free| - 1];
      Some((Arena(
              a.slotSize,
              a.mem[slot := Overwrite(a.mem[slot], HeaderBytes(BlankHeader(a.slotSize)))],
              a.free[..|a.free| - 1],
              a.slots + [Descriptor(slot, id, layer)],
              a.index[(id, layer) := |a.slots|],
              a.owned[id := OwnedBy(a, id) + [slot]],
              if id in a.owned then a.order else a.order + [id]), slot))
  }

  /** `free_checkpoint`, which `rollback` is too; descriptors stay behind. */
  function Free(a: Arena, id: string): Arena {
    if id !in a.owned then a
    else
      a.(free := a.free + a.owned[id],
         owned := a.owned - {id},
         index := map k | k in a.index && k.0 != id :: a.index[k],
         order := Filter(a.order, (x: string) => x != id))
  }

  /** Bytes written at the address `alloc_slot` returned: a header and a payload behind it. */
  function Store(a: Arena, slot: nat, bytes: seq<Byte>): Arena
    requires slot < |a.mem| && |bytes| <= |a.mem[slot]|
  {
    a.(mem := a.mem[slot := Overwrite(a.mem[slot], bytes)])
  }

  /** `get_slot`: where a layer is and what its header says. */
  function GetSlot(a: Arena, id: string, layer: U32): Option<(nat, SlotHeader)>
    requires Geometry(a) && Indexed(|a.mem|, a.slots, a.index, a.owned)
  {
    if (id, layer) !in a.index then None
    else
      var slot := SlotOf(a.slots, a.index, (id, layer));
      var header := ReadHeader(a.mem[slot][..SLOT_HEADER_SIZE]);
      if header.None? then None else Some((slot, header.value))
  }

  // ----- the invariant -----

  predicate Geometry(a: Arena) {
    && a.slotSize >= SLOT_HEADER_SIZE
    && forall s :: 0 <= s < |a.mem| ==> |a.mem[s]| == a.slotSize
  }

  predicate Bounded(n: nat, size: nat) {
    n * size <= MAX_MAPPING
  }

  type Ownership = map<string, seq<nat>>

  ghost predicate Holds(owned: Ownership, id: string, s: nat) {
    id in owned && s in owned[id]
  }

  /** The free slots and every checkpoint's slots: no overlap, nothing missing of the `n`. */
  ghost predicate Partition(n: nat, free: seq<nat>, owned: Ownership) {
    && Distinct(free) && (forall i :: 0 <= i < |free| ==> free[i] < n)
    && (forall id :: id in owned ==> owned[id] != [] && Distinct(owned[id]))
    && (forall id, s: nat :: Holds(owned, id, s) ==> s < n && s !in free)
    && (forall id, id', s: nat :: Holds(owned, id, s) && Holds(owned, id', s) ==> id == id')
    && (forall s: nat :: s < n ==> s in free || exists id :: Holds(owned, id, s))
  }

  type Index = map<Key, nat>

  function SlotOf(slots: seq<Descriptor>, index: Index, k: Key): nat
    requires k in index && index[k] < |slots|
  {
    slots[index[k]].slot
  }

  /** Index entry `k` points at a slot of its own checkpoint, whatever stale descriptors say. */
  ghost predicate Points(n: nat, slots: seq<Descriptor>, index: Index, owned: Ownership, k: Key) {
    && k in index && index[k] < |slots| && slots[index[k]].id == k.0 && slots[index[k]].layer == k.1
    && Holds(owned, k.0, slots[index[k]].slot) && slots[index[k]].slot < n
  }

  /** Every entry points so, and no two at the same slot. */
  ghost predicate Indexed(n: nat, slots: seq<Descriptor>, index: Index, owned: Ownership) {
    && (forall k :: k in index ==> Points(n, slots, index, owned, k))
    && (forall k, k' :: k in index && k' in index && SlotOf(slots, index, k) == SlotOf(slots, index, k') ==> k == k')
  }

  /** Every checkpoint can be found by some layer. */
  ghost predicate Reachable(index: Index, owned: Ownership) {
    forall id :: id in owned ==> exists layer: U32 :: (id, layer) in index
  }

  ghost predicate Ordered(order: seq<string>, owned: Ownership) {
    Distinct(order) && forall id :: id in order <==> id in owned
  }

  ghost predicate Inv(a: Arena) {
    && Geometry(a) && Bounded(|a.mem|, a.slotSize)
    && Partition(|a.mem|, a.free, a.owned) && Indexed(|a.mem|, a.slots, a.index, a.owned)
    && Reachable(a.index, a.owned) && Ordered(a.order, a.owned)
  }

  lemma NewInv(slotSize: nat, numSlots: nat)
    requires slotSize >= SLOT_HEADER_SIZE && numSlots * slotSize <= MAX_MAPPING
    ensures Inv(New(slotSize, numSlots))
  {
    var a := New(slotSize, numSlots);
    forall s | 0 <= s < numSlots ensures s in a.free {
      assert a.free[numSlots - 1 - s] == s;
    }
  }

  // ----- allocation keeps it -----

  /** The last free slot moves to checkpoint `id`. */
  lemma AllocPartition(n: nat, free: seq<nat>, owned: Ownership, id: string)
    requires Partition(n, free, owned) && free != []
    ensures var slot := free[|free| - 1];
            Partition(n, free[..|free| - 1], owned[id := (if id in owned then owned[id] else []) + [slot]])
  {
    var slot, free' := free[|free| - 1], free[..|free| - 1];
    var owned' := owned[id := (if id in owned then owned[id] else []) + [slot]];
    assert free == free' + [slot] && slot in free && slot !in free';
    forall id', s: nat ensures Holds(owned', id', s) <==> Holds(owned, id', s) || (id' == id && s == slot) {}
    assert forall id' :: !Holds(owned, id', slot);
    forall s: nat | s < n ensures s in free' || exists id' :: Holds(owned', id', s) {
      if s == slot {
        assert Holds(owned', id, s);
      } else if s !in free {
        var id' :| Holds(owned, id', s);
        assert Holds(owned', id', s);
      }
    }
    assert id in owned ==> !Holds(owned, id, slot);
  }

  /** A new entry for a slot that was free, possibly taking the place of an older one. */
  lemma AllocIndexed(n: nat, slots: seq<Descriptor>, index: Index, owned: Ownership, k: Key, slot: nat)
    requires Indexed(n, slots, index, owned) && slot < n && forall id :: !Holds(owned, id, slot)
    ensures var slots', index' := slots + [Descriptor(slot, k.0, k.1)], index[k := |slots|];
            && Indexed(n, slots', index', owned[k.0 := (if k.0 in owned then owned[k.0] else []) + [slot]])
            && SlotOf(slots', index', k) == slot
            && forall k' :: k' in index && k' != k ==>
                              k' in index' && SlotOf(slots', index', k') == SlotOf(slots, index, k')
  {
    var slots', index' := slots + [Descriptor(slot, k.0, k.1)], index[k := |slots|];
    var owned' := owned[k.0 := (if k.0 in owned then owned[k.0] else []) + [slot]];
    forall k' | k' in index ensures SlotOf(slots, index, k') != slot && Points(n, slots', index', owned', k') {
      assert Points(n, slots, index, owned, k');
      assert k' != k ==> index'[k'] == index[k'];
    }
  }

  lemma AllocReachable(index: Index, owned: Ownership, k: Key, d: nat, mine: seq<nat>)
    requires Reachable(index, owned)
    ensures Reachable(index[k := d], owned[k.0 := mine])
  {
    var index', owned' := index[k := d], owned[k.0 := mine];
    forall id | id in owned' ensures exists l: U32 :: (id, l) in index' {
      if id == k.0 {
        assert (id, k.1) in index';
      } else {
        var l: U32 :| (id, l) in index;
        assert (id, l) in index';
      }
    }
  }

  lemma AllocGeometry(a: Arena, id: string, layer: U32)
    requires Geometry(a) && Ordered(a.order, a.owned) && a.free != []
    requires forall i :: 0 <= i < |a.free| ==> a.free[i] < |a.mem|
    ensures var (b, slot) := Alloc(a, id, layer).value;
            && |b.mem| == |a.mem| && b.slotSize == a.slotSize && slot < |b.mem|
            && Geometry(b) && Ordered(b.order, b.owned)
  {
  }

  lemma FreeUnheld(n: nat, free: seq<nat>, owned: Ownership, slot: nat)
    requires Partition(n, free, owned) && slot in free
    ensures slot < n && forall id :: !Holds(owned, id, slot)
  {
  }

  lemma AllocKeeps(a: Arena, id: string, layer: U32)
    requires Inv(a) && a.free != []
    ensures Inv(Alloc(a, id, layer).value.0)
  {
    var slot := a.free[|a.free| - 1];
    var b := Alloc(a, id, layer).value.0;
    assert Geometry(b) && Ordered(b.order, b.owned) && |b.mem| == |a.mem| by {
      AllocGeometry(a, id, layer);
    }
    assert Partition(|a.mem|, b.free, b.owned) by {
      AllocPartition(|a.mem|, a.free, a.owned, id);
    }
    assert Indexed(|a.mem|, b.slots, b.index, b.owned) by {
      FreeUnheld(|a.mem|, a.free, a.owned, slot);
      AllocIndexed(|a.mem|, a.slots, a.index, a.owned, (id, layer), slot);
    }
    AllocReachable(a.index, a.owned, (id, layer), |a.slots|, OwnedBy(a, id) + [slot]);
  }

  // ----- so does freeing -----

  lemma DistinctConcat(x: seq<nat>, y: seq<nat>)
    requires Distinct(x) && Distinct(y) && forall s :: s in y ==> s !in x
    ensures Distinct(x + y)
  {
    forall i, j | 0 <= i < j < |x + y| ensures (x + y)[i] != (x + y)[j] {
      if i < |x| <= j {
        assert y[j - |x|] in y && x[i] in x;
      }
    }
  }

  /** The slots of checkpoint `id` move back to the free list. */
  lemma FreePartition(n: nat, free: seq<nat>, owned: Ownership, id: string)
    requires Partition(n, free, owned) && id in owned
    ensures Partition(n, free + owned[id], owned - {id})
  {
    var free', owned' := free + owned[id], owned - {id};
    forall id', s: nat ensures Holds(owned', id', s) <==> Holds(owned, id', s) && id' != id {}
    forall s: nat | s in owned[id] ensures s !in free && s < n {
      assert Holds(owned, id, s);
    }
    DistinctConcat(free, owned[id]);
    forall i | 0 <= i < |free'| ensures free'[i] < n {
      if i >= |free| {
        assert owned[id][i - |free|] in owned[id];
      }
    }
    forall id', s: nat | Holds(owned', id', s) ensures s < n && s !in free' {
      assert s in owned[id] ==> Holds(owned, id, s);
    }
    forall s: nat | s < n ensures s in free' || exists id' :: Holds(owned', id', s) {
      if s !in free' {
        var id' :| Holds(owned, id', s);
        assert Holds(owned', id', s);
      }
    }
  }

  lemma FreeIndexed(n: nat, slots: seq<Descriptor>, index: Index, owned: Ownership, id: string)
    requires Indexed(n, slots, index, owned)
    ensures Indexed(n, slots, map k | k in index && k.0 != id :: index[k], owned - {id})
  {
    var index' := map k | k in index && k.0 != id :: index[k];
    forall k | k in index' ensures Points(n, slots, index', owned - {id}, k) {
      assert Points(n, slots, index, owned, k);
    }
  }

  lemma FreeReachable(index: Index, owned: Ownership, id: string)
    requires Reachable(index, owned)
    ensures Reachable(map k | k in index && k.0 != id :: index[k], owned - {id})
  {
    var index' := map k | k in index && k.0 != id :: index[k];
    forall id' | id' in owned - {id} ensures exists l: U32 :: (id', l) in index' {
      var l: U32 :| (id', l) in index;
      assert (id', l) in index';
    }
  }

  lemma FreeKeeps(a: Arena, id: string)
    requires Inv(a)
    ensures Inv(Free(a, id))
  {
    if id in a.owned {
      FreePartition(|a.mem|, a.free, a.owned, id);
      FreeIndexed(|a.mem|, a.slots, a.index, a.owned, id);
      FreeReachable(a.index, a.owned, id);
      FilterDistinct(a.order, (x: string) => x != id);
    }
  }

  /** Writing into a slot leaves all bookkeeping alone. */
  lemma StoreKeeps(a: Arena, slot: nat, bytes: seq<Byte>)
    requires Inv(a) && slot < |a.mem| && |bytes| <= a.slotSize
    ensures Inv(Store(a, slot, bytes))
  {
  }

  // ----- any run of operations -----

  datatype Operation =
    | AllocSlot(id: string, layer: U32)
    | FreeCheckpoint(id: string)
    | WriteSlot(slot: nat, bytes: seq<Byte>)

  /** One operation; an allocation that finds the arena exhausted changes nothing. */
  ghost function Apply(a: Arena, op: Operation): Arena
    requires Inv(a)
  {
    match op
    case AllocSlot(id, layer) =>
      var r := Alloc(a, id, layer);
      if r.None? then a else r.value.0
    case FreeCheckpoint(id) => Free(a, id)
    case WriteSlot(slot, bytes) => if slot < |a.mem| && |bytes| <= a.slotSize then Store(a, slot, bytes) else a
  }

  lemma ApplyKeeps(a: Arena, op: Operation)
    requires Inv(a)
    ensures Inv(Apply(a, op))
  {
    match op {
      case AllocSlot(id, layer) =>
        if a.free != [] {
          AllocKeeps(a, id, layer);
        }
      case FreeCheckpoint(id) => FreeKeeps(a, id);
      case WriteSlot(slot, bytes) =>
        if slot < |a.mem| && |bytes| <= a.slotSize {
          StoreKeeps(a, slot, bytes);
        }
    }
  }

  /** The arena after any run of allocations, frees and writes, duplicates included. */
  ghost function AfterRun(slotSize: nat, numSlots: nat, ops: seq<Operation>): (a: Arena)
    requires slotSize >= SLOT_HEADER_SIZE && numSlots * slotSize <= MAX_MAPPING
    ensures Inv(a)
  {
    if ops == [] then
      NewInv(slotSize, numSlots);
      New(slotSize, numSlots)
    else
      var before := AfterRun(slotSize, numSlots, ops[..|ops| - 1]);
      ApplyKeeps(before, ops[|ops| - 1]);
      Apply(before, ops[|ops| - 1])
  }

  // ----- what a checkpoint holds -----

  datatype Info = Info(layer: U32, slot: nat, header: SlotHeader)

  /** An order in which a hash map may present its keys. */
  ghost predicate IterationOrder(index: Index, keys: seq<Key>) {
    forall k :: k in keys <==> k in index
  }

  /** `index.iter().find(..)`: the first key whose descriptor names the slot. */
  function Find(slots: seq<Descriptor>, index: Index, keys: seq<Key>, slot: nat): (r: Option<Key>)
    requires forall k :: k in keys ==> k in index && index[k] < |slots|
    ensures r.Some? ==> r.value in keys
  {
    if keys == [] then None
    else if SlotOf(slots, index, keys[0]) == slot then Some(keys[0])
    else Find(slots, index, keys[1..], slot)
  }

  lemma {:induction false} FindHolds(slots: seq<Descriptor>, index: Index, keys: seq<Key>, slot: nat)
    requires forall k :: k in keys ==> k in index && index[k] < |slots|
    ensures match Find(slots, index, keys, slot)
            case None => forall k :: k in keys ==> SlotOf(slots, index, k) != slot
            case Some(k) => k in keys && SlotOf(slots, index, k) == slot
  {
    if keys != [] && SlotOf(slots, index, keys[0]) != slot {
      FindHolds(slots, index, keys[1..], slot);
    }
  }

  /** The slots of one checkpoint in the order it acquired them, shadowed and unreadable ones left out. */
  function Infos(a: Arena, keys: seq<Key>, mine: seq<nat>): seq<Info>
    requires Geometry(a) && forall k :: k in keys ==> k in a.index && a.index[k] < |a.slots|
    requires forall i :: 0 <= i < |mine| ==> mine[i] < |a.mem|
  {
    if mine == [] then []
    else Infos(a, keys, mine[..|mine| - 1]) + InfoOf(a, keys, mine[|mine| - 1])
  }

  lemma OwnedInRange(a: Arena, id: string)
    requires Inv(a)
    ensures forall i :: 0 <= i < |OwnedBy(a, id)| ==> OwnedBy(a, id)[i] < |a.mem|
    ensures forall k :: k in a.index ==> a.index[k] < |a.slots|
  {
    forall i | 0 <= i < |OwnedBy(a, id)| ensures OwnedBy(a, id)[i] < |a.mem| {
      assert Holds(a.owned, id, OwnedBy(a, id)[i]);
    }
    forall k | k in a.index ensures a.index[k] < |a.slots| {
      assert Points(|a.mem|, a.slots, a.index, a.owned, k);
    }
  }

  /** `slot_info_for_checkpoint`. */
  ghost function SlotInfo(a: Arena, keys: seq<Key>, id: string): seq<Info>
    requires Inv(a) && IterationOrder(a.index, keys)
  {
    OwnedInRange(a, id);
    Infos(a, keys, OwnedBy(a, id))
  }

  /** `x` is the record of slot `x.slot` under checkpoint `id`. */
  ghost predicate Records(a: Arena, id: string, x: Info)
    requires Inv(a)
  {
    GetSlot(a, id, x.layer) == Some((x.slot, x.header))
  }

  /** An entry of the index for a slot of `id` is an entry of `id`. */
  lemma KeyOfOwned(a: Arena, id: string, k: Key, slot: nat)
    requires Inv(a) && slot in OwnedBy(a, id) && k in a.index
    ensures a.index[k] < |a.slots|
    ensures SlotOf(a.slots, a.index, k) == slot ==> k.0 == id && a.slots[a.index[k]].layer == k.1
  {
    assert Points(|a.mem|, a.slots, a.index, a.owned, k);
    assert Holds(a.owned, id, slot);
  }

  lemma {:induction false} InfosDistinct(a: Arena, keys: seq<Key>, mine: seq<nat>)
    requires Geometry(a) && forall k :: k in keys ==> k in a.index && a.index[k] < |a.slots|
    requires Distinct(mine) && forall i :: 0 <= i < |mine| ==> mine[i] < |a.mem|
    ensures var r := Infos(a, keys, mine);
            && |r| <= |mine| && (forall i :: 0 <= i < |r| ==> r[i].slot in mine)
            && (forall i, j :: 0 <= i < j < |r| ==> r[i].slot != r[j].slot)
  {
    if mine != [] {
      var rest := mine[..|mine| - 1];
      InfosDistinct(a, keys, rest);
      assert mine[|mine| - 1] !in rest;
    }
  }

  lemma {:induction false} InfosHold(a: Arena, keys: seq<Key>, id: string, mine: seq<nat>, x: Info)
    requires Inv(a) && IterationOrder(a.index, keys)
    requires forall k :: k in keys ==> k in a.index && a.index[k] < |a.slots|
    requires forall i :: 0 <= i < |mine| ==> mine[i] in OwnedBy(a, id) && mine[i] < |a.mem|
    ensures x in Infos(a, keys, mine) <==> x.slot in mine && Records(a, id, x)
  {
    if mine != [] {
      var rest, slot := mine[..|mine| - 1], mine[|mine| - 1];
      InfosHold(a, keys, id, rest, x);
      assert mine == rest + [slot];
      InfosHead(a, keys, id, slot, x);
    }
  }

  /** What one slot contributes. */
  function InfoOf(a: Arena, keys: seq<Key>, slot: nat): seq<Info>
    requires Geometry(a) && (forall k :: k in keys ==> k in a.index && a.index[k] < |a.slots|) && slot < |a.mem|
  {
    var key := Find(a.slots, a.index, keys, slot);
    var header := ReadHeader(a.mem[slot][..SLOT_HEADER_SIZE]);
    if key.None? || header.None? then [] else [Info(a.slots[a.index[key.value]].layer, slot, header.value)]
  }

  lemma KeyFound(a: Arena, keys: seq<Key>, id: string, slot: nat)
    requires Inv(a) && IterationOrder(a.index, keys) && slot in OwnedBy(a, id)
    requires forall k :: k in keys ==> k in a.index && a.index[k] < |a.slots|
    requires Find(a.slots, a.index, keys, slot).Some?
    ensures var k := Find(a.slots, a.index, keys, slot).value;
            && k in a.index && k == (id, a.slots[a.index[k]].layer) && SlotOf(a.slots, a.index, k) == slot
            && forall k' :: k' in a.index && SlotOf(a.slots, a.index, k') == slot ==> k' == k
  {
    FindHolds(a.slots, a.index, keys, slot);
    KeyOfOwned(a, id, Find(a.slots, a.index, keys, slot).value, slot);
  }

  lemma NoKeyFound(a: Arena, keys: seq<Key>, id: string, slot: nat, x: Info)
    requires Inv(a) && IterationOrder(a.index, keys) && x.slot == slot
    requires forall k :: k in keys ==> k in a.index && a.index[k] < |a.slots|
    requires Find(a.slots, a.index, keys, slot).None?
    ensures !Records(a, id, x)
  {
    FindHolds(a.slots, a.index, keys, slot);
  }

  /** The one record of a slot that an index entry leads to. */
  lemma RecordOfKey(a: Arena, id: string, layer: U32, slot: nat, x: Info)
    requires Inv(a) && (id, layer) in a.index && a.index[(id, layer)] < |a.slots| && slot < |a.mem|
    requires SlotOf(a.slots, a.index, (id, layer)) == slot
    requires forall k :: k in a.index ==> a.index[k] < |a.slots|
    requires forall k :: k in a.index && SlotOf(a.slots, a.index, k) == slot ==> k == (id, layer)
    ensures var header := ReadHeader(a.mem[slot][..SLOT_HEADER_SIZE]);
            x.slot == slot && Records(a, id, x) <==> header.Some? && x == Info(layer, slot, header.value)
  {
  }

  lemma InfosHead(a: Arena, keys: seq<Key>, id: string, slot: nat, x: Info)
    requires Inv(a) && IterationOrder(a.index, keys) && slot in OwnedBy(a, id) && slot < |a.mem|
    requires forall k :: k in keys ==> k in a.index && a.index[k] < |a.slots|
    ensures x in InfoOf(a, keys, slot) <==> x.slot == slot && Records(a, id, x)
  {
    var key := Find(a.slots, a.index, keys, slot);
    if key.Some? {
      KeyFound(a, keys, id, slot);
      RecordOfKey(a, id, key.value.1, slot, x);
    } else if x.slot == slot {
      NoKeyFound(a, keys, id, slot, x);
    }
  }

  /**
   `slot_info_for_checkpoint` lists exactly the checkpoint's readable indexed layers, each once,
   at the slots `get_slot` finds them in; shadowed slots are left out.
   */
  lemma SlotInfoExact(a: Arena, keys: seq<Key>, id: string)
    requires Inv(a) && IterationOrder(a.index, keys)
    ensures var r := SlotInfo(a, keys, id);
            && |r| <= |OwnedBy(a, id)|
            && (forall x :: x in r <==> Records(a, id, x))
            && (forall i, j :: 0 <= i < j < |r| ==> r[i].slot != r[j].slot && r[i].layer != r[j].layer)
  {
    OwnedInRange(a, id);
    InfosDistinct(a, keys, OwnedBy(a, id));
    var r := SlotInfo(a, keys, id);
    forall x: Info ensures x in r <==> Records(a, id, x) {
      InfosHold(a, keys, id, OwnedBy(a, id), x);
      if Records(a, id, x) {
        assert Points(|a.mem|, a.slots, a.index, a.owned, (id, x.layer));
      }
    }
    forall i, j | 0 <= i < j < |r| ensures r[i].layer != r[j].layer {
      assert r[i] in r && r[j] in r;
    }
  }

  lemma {:induction false} InfosOrderFree(a: Arena, keys: seq<Key>, keys': seq<Key>, mine: seq<nat>)
    requires Inv(a) && IterationOrder(a.index, keys) && IterationOrder(a.index, keys')
    requires forall k :: k in a.index ==> a.index[k] < |a.slots|
    requires forall i :: 0 <= i < |mine| ==> mine[i] < |a.mem|
    ensures Infos(a, keys, mine) == Infos(a, keys', mine)
  {
    if mine != [] {
      var slot := mine[|mine| - 1];
      FindHolds(a.slots, a.index, keys, slot);
      FindHolds(a.slots, a.index, keys', slot);
      assert Find(a.slots, a.index, keys, slot) == Find(a.slots, a.index, keys', slot);
      InfosOrderFree(a, keys, keys', mine[..|mine| - 1]);
    }
  }

  /** The answer does not depend on the hash map's iteration order. */
  lemma SlotInfoOrderFree(a: Arena, keys: seq<Key>, keys': seq<Key>, id: string)
    requires Inv(a) && IterationOrder(a.index, keys) && IterationOrder(a.index, keys')
    ensures SlotInfo(a, keys, id) == SlotInfo(a, keys', id)
  {
    OwnedInRange(a, id);
    InfosOrderFree(a, keys, keys', OwnedBy(a, id));
  }
}
