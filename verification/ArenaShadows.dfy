/**
 Slots a checkpoint owns and nobody can find: allocating a (checkpoint, layer) again moves the
 index entry to the new slot and leaves the old one owned (checkpoint.rs, `alloc_slot`).
 */
module ArenaShadows {
  import opened Bits
  import opened SlotFormat
  import opened Arenas

  /** Index entry `k` leads to slot `s`. */
  ghost predicate Leads(a: Arena, k: Key, s: nat) {
    k in a.index && a.index[k] < |a.slots| && SlotOf(a.slots, a.index, k) == s
  }

  /** Checkpoint `id` owns slot `s` and no index entry leads there. */
  ghost predicate Shadowed(a: Arena, id: string, s: nat) {
    Holds(a.owned, id, s) && forall k :: k in a.index ==> !Leads(a, k, s)
  }

  ghost predicate NoneShadowed(a: Arena, id: string) {
    forall s: nat :: Holds(a.owned, id, s) ==> !Shadowed(a, id, s)
  }

  // ----- one operation -----

  /** What an index entry leads to belongs to the entry's own checkpoint, and is not free. */
  lemma LeadsHome(a: Arena, k: Key, s: nat)
    requires Inv(a) && Leads(a, k, s)
    ensures Holds(a.owned, k.0, s) && s !in a.free
    ensures forall id :: Holds(a.owned, id, s) ==> id == k.0
  {
    assert Points(|a.mem|, a.slots, a.index, a.owned, k);
  }

  lemma AllocHolds(a: Arena, id: string, layer: U32, id': string, s: nat)
    requires Geometry(a) && a.free != [] && forall i :: 0 <= i < |a.free| ==> a.free[i] < |a.mem|
    ensures var (b, slot) := Alloc(a, id, layer).value;
            Holds(b.owned, id', s) <==> Holds(a.owned, id', s) || (id' == id && s == slot)
  {
  }

  lemma AllocLeads(a: Arena, id: string, layer: U32, k: Key, s: nat)
    requires Inv(a) && a.free != []
    ensures var (b, slot) := Alloc(a, id, layer).value;
            Leads(b, k, s) <==> if k == (id, layer) then s == slot else Leads(a, k, s)
  {
    if k != (id, layer) && k in a.index {
      assert Points(|a.mem|, a.slots, a.index, a.owned, k);
    }
  }

  /** What an allocation changes in ownership and index. */
  lemma AllocEffect(a: Arena, id: string, layer: U32)
    requires Inv(a) && a.free != []
    ensures var (b, slot) := Alloc(a, id, layer).value;
            && (forall id', s: nat :: Holds(b.owned, id', s) <==> Holds(a.owned, id', s) || (id' == id && s == slot))
            && (forall k, s: nat :: Leads(b, k, s) <==> if k == (id, layer) then s == slot else Leads(a, k, s))
            && slot in a.free && forall id' :: !Holds(a.owned, id', slot)
  {
    var (b, slot) := Alloc(a, id, layer).value;
    assert slot in a.free;
    FreeUnheld(|a.mem|, a.free, a.owned, slot);
    forall id', s: nat ensures Holds(b.owned, id', s) <==> Holds(a.owned, id', s) || (id' == id && s == slot) {
      AllocHolds(a, id, layer, id', s);
    }
    forall k, s: nat ensures Leads(b, k, s) <==> if k == (id, layer) then s == slot else Leads(a, k, s) {
      AllocLeads(a, id, layer, k, s);
    }
  }

  /** No two index entries lead to one slot. */
  lemma LeadsOnce(a: Arena, k: Key, k': Key, s: nat)
    requires Inv(a) && Leads(a, k, s) && Leads(a, k', s)
    ensures k == k'
  {
  }

  /** Allocating a layer again shadows the slot it had: still owned, and found by no one. */
  lemma Shadows(a: Arena, id: string, layer: U32)
    requires Inv(a) && a.free != [] && (id, layer) in a.index
    ensures a.index[(id, layer)] < |a.slots|
    ensures Shadowed(Alloc(a, id, layer).value.0, id, SlotOf(a.slots, a.index, (id, layer)))
  {
    assert Points(|a.mem|, a.slots, a.index, a.owned, (id, layer));
    var b, s := Alloc(a, id, layer).value.0, SlotOf(a.slots, a.index, (id, layer));
    AllocEffect(a, id, layer);
    assert Leads(a, (id, layer), s);
    LeadsHome(a, (id, layer), s);
    forall k | k in b.index && k != (id, layer) ensures !Leads(b, k, s) {
      if Leads(b, k, s) {
        LeadsOnce(a, k, (id, layer), s);
      }
    }
  }

  /** A slot found before an allocation is found after it, unless it was the one of that very layer. */
  lemma StaysFound(a: Arena, id: string, layer: U32, id': string, s: nat)
    requires Inv(a) && a.free != [] && Holds(a.owned, id', s) && !Shadowed(a, id', s)
    requires id' != id || (id, layer) !in a.index
    ensures !Shadowed(Alloc(a, id, layer).value.0, id', s)
  {
    AllocEffect(a, id, layer);
    var k :| k in a.index && Leads(a, k, s);
    LeadsHome(a, k, s);
    assert Leads(Alloc(a, id, layer).value.0, k, s);
  }

  /** A slot found after an allocation is the new one, or was found before. */
  lemma WasFound(a: Arena, id: string, layer: U32, id': string, s: nat)
    requires Inv(a) && a.free != [] && Holds(a.owned, id', s)
    requires !Shadowed(Alloc(a, id, layer).value.0, id', s)
    ensures !Shadowed(a, id', s)
  {
    AllocEffect(a, id, layer);
    var b := Alloc(a, id, layer).value.0;
    var k :| k in b.index && Leads(b, k, s);
    assert Leads(a, k, s);
  }

  /** An allocation shadows a slot of a checkpoint exactly when that checkpoint has the layer already. */
  lemma AllocShadows(a: Arena, id: string, layer: U32, id': string)
    requires Inv(a) && a.free != []
    ensures NoneShadowed(Alloc(a, id, layer).value.0, id')
       <==> NoneShadowed(a, id') && !(id' == id && (id, layer) in a.index)
  {
    var (b, slot) := Alloc(a, id, layer).value;
    AllocEffect(a, id, layer);
    if id' == id && (id, layer) in a.index {
      Shadows(a, id, layer);
    } else {
      forall s: nat | Holds(a.owned, id', s) && !Shadowed(a, id', s) ensures !Shadowed(b, id', s) {
        StaysFound(a, id, layer, id', s);
      }
      forall s: nat | Holds(a.owned, id', s) && !Shadowed(b, id', s) ensures !Shadowed(a, id', s) {
        WasFound(a, id, layer, id', s);
      }
      assert Leads(b, (id, layer), slot);
    }
  }

  lemma FreeEffect(a: Arena, id: string)
    requires Inv(a) && id in a.owned
    ensures var b := Free(a, id);
            && (forall id', s: nat :: Holds(b.owned, id', s) <==> Holds(a.owned, id', s) && id' != id)
            && (forall k, s: nat :: Leads(b, k, s) <==> Leads(a, k, s) && k.0 != id)
  {
  }

  /** Freeing a checkpoint gives its shadowed slots back, and touches no other checkpoint's. */
  lemma FreeShadows(a: Arena, id: string, id': string)
    requires Inv(a)
    ensures NoneShadowed(Free(a, id), id') <==> id' == id || NoneShadowed(a, id')
  {
    if id in a.owned {
      FreeEffect(a, id);
      forall s: nat | Holds(a.owned, id', s) && id' != id ensures Shadowed(Free(a, id), id', s) <==> Shadowed(a, id', s) {
        forall k | Leads(a, k, s) ensures k.0 != id {
          LeadsHome(a, k, s);
        }
      }
    }
  }

  /** A shadowed slot is not listed, so spilling the checkpoint leaves it out. */
  lemma ShadowedUnlisted(a: Arena, keys: seq<Key>, id: string, s: nat)
    requires Inv(a) && IterationOrder(a.index, keys) && Shadowed(a, id, s)
    ensures forall x :: x in SlotInfo(a, keys, id) ==> x.slot != s
  {
    SlotInfoExact(a, keys, id);
    forall x | x in SlotInfo(a, keys, id) ensures x.slot != s {
      assert Records(a, id, x);
      assert Points(|a.mem|, a.slots, a.index, a.owned, (id, x.layer));
      assert !Leads(a, (id, x.layer), s);
    }
  }

  // ----- what a run did -----

  datatype Event = Took(id: string, layer: U32) | Freed(id: string) | Nothing

  /** What an operation does to the bookkeeping; an allocation that finds nothing free does nothing. */
  function EventOf(a: Arena, op: Operation): Event {
    match op
    case AllocSlot(id, layer) => if a.free != [] then Took(id, layer) else Nothing
    case FreeCheckpoint(id) => Freed(id)
    case WriteSlot(_, _) => Nothing
  }

  /** Event `i` took a slot for that layer, and the checkpoint was not freed since. */
  predicate TakenAt(log: seq<Event>, i: nat, id: string, layer: U32) {
    i < |log| && log[i] == Took(id, layer) && forall j :: i < j < |log| ==> log[j] != Freed(id)
  }

  ghost predicate Taken(log: seq<Event>, id: string, layer: U32) {
    exists i: nat :: TakenAt(log, i, id, layer)
  }

  /** Events `i` and `j` took two slots for that layer, and the checkpoint was not freed since the first. */
  predicate TakenAgain(log: seq<Event>, i: nat, j: nat, id: string, layer: U32) {
    i < j && TakenAt(log, i, id, layer) && TakenAt(log, j, id, layer)
  }

  ghost predicate Doubled(log: seq<Event>, id: string) {
    exists i: nat, j: nat, layer: U32 :: TakenAgain(log, i, j, id, layer)
  }

  lemma TakenAtNext(log: seq<Event>, e: Event, i: nat, id: string, layer: U32)
    ensures i < |log| ==> (TakenAt(log + [e], i, id, layer) <==> TakenAt(log, i, id, layer) && e != Freed(id))
    ensures i == |log| ==> (TakenAt(log + [e], i, id, layer) <==> e == Took(id, layer))
  {
    var more := log + [e];
    if i < |log| && TakenAt(more, i, id, layer) {
      assert more[|log|] != Freed(id);
      assert forall j :: i < j < |log| ==> log[j] == more[j];
    }
  }

  lemma TakenNext(log: seq<Event>, e: Event, id: string, layer: U32)
    ensures Taken(log + [e], id, layer) <==> e == Took(id, layer) || (Taken(log, id, layer) && e != Freed(id))
  {
    if Taken(log + [e], id, layer) {
      var i: nat :| TakenAt(log + [e], i, id, layer);
      TakenAtNext(log, e, i, id, layer);
    }
    if Taken(log, id, layer) && e != Freed(id) {
      var i: nat :| TakenAt(log, i, id, layer);
      TakenAtNext(log, e, i, id, layer);
      assert TakenAt(log + [e], i, id, layer);
    }
    TakenAtNext(log, e, |log|, id, layer);
  }

  lemma DoubledNext(log: seq<Event>, e: Event, id: string)
    ensures Doubled(log + [e], id)
       <==> || (Doubled(log, id) && e != Freed(id))
            || (e.Took? && e.id == id && Taken(log, id, e.layer))
  {
    if Doubled(log + [e], id) {
      var i: nat, j: nat, layer: U32 :| TakenAgain(log + [e], i, j, id, layer);
      TakenAtNext(log, e, i, id, layer);
      TakenAtNext(log, e, j, id, layer);
      if j < |log| {
        assert TakenAgain(log, i, j, id, layer);
      } else {
        assert TakenAt(log, i, id, layer);
      }
    }
    if Doubled(log, id) && e != Freed(id) {
      var i: nat, j: nat, layer: U32 :| TakenAgain(log, i, j, id, layer);
      TakenAtNext(log, e, i, id, layer);
      TakenAtNext(log, e, j, id, layer);
      assert TakenAgain(log + [e], i, j, id, layer);
    }
    if e.Took? && e.id == id && Taken(log, id, e.layer) {
      var i: nat :| TakenAt(log, i, id, e.layer);
      TakenAtNext(log, e, i, id, e.layer);
      TakenAtNext(log, e, |log|, id, e.layer);
      assert TakenAgain(log + [e], i, |log|, id, e.layer);
    }
  }

  // ----- any run -----

  lemma ApplyIndex(a: Arena, op: Operation, id: string, layer: U32)
    requires Inv(a)
    ensures var e := EventOf(a, op);
            (id, layer) in Apply(a, op).index <==> e == Took(id, layer) || ((id, layer) in a.index && e != Freed(id))
  {
    ApplyIs(a, op);
    if (id, layer) in a.index {
      OwnerOf(a, id, layer);
    }
  }

  lemma OwnerOf(a: Arena, id: string, layer: U32)
    requires Inv(a) && (id, layer) in a.index
    ensures id in a.owned
  {
    assert Points(|a.mem|, a.slots, a.index, a.owned, (id, layer));
  }

  lemma WriteShadows(a: Arena, b: Arena, id: string)
    requires b.index == a.index && b.slots == a.slots && b.owned == a.owned
    ensures NoneShadowed(b, id) <==> NoneShadowed(a, id)
  {
    assert forall k, s: nat :: Leads(b, k, s) <==> Leads(a, k, s);
    assert forall s: nat :: Shadowed(b, id, s) <==> Shadowed(a, id, s);
  }

  /** The event takes a slot for a layer of `id` that the index has already. */
  predicate Repeats(a: Arena, e: Event, id: string) {
    e.Took? && e.id == id && (id, e.layer) in a.index
  }

  lemma ApplyIs(a: Arena, op: Operation)
    requires Inv(a)
    ensures var e, b := EventOf(a, op), Apply(a, op);
            match e
            case Took(id, layer) => a.free != [] && b == Alloc(a, id, layer).value.0
            case Freed(id) => b == Free(a, id)
            case Nothing => b.index == a.index && b.slots == a.slots && b.owned == a.owned
  {
  }

  lemma ApplyShadows(a: Arena, op: Operation, id: string)
    requires Inv(a)
    ensures var e := EventOf(a, op);
            NoneShadowed(Apply(a, op), id) <==> e == Freed(id) || (NoneShadowed(a, id) && !Repeats(a, e, id))
  {
    ApplyIs(a, op);
    var e, b := EventOf(a, op), Apply(a, op);
    EventShadows(a, b, e, id);
  }

  lemma EventShadows(a: Arena, b: Arena, e: Event, id: string)
    requires Inv(a)
    requires match e
             case Took(id', layer) => a.free != [] && b == Alloc(a, id', layer).value.0
             case Freed(id') => b == Free(a, id')
             case Nothing => b.index == a.index && b.slots == a.slots && b.owned == a.owned
    ensures NoneShadowed(b, id) <==> e == Freed(id) || (NoneShadowed(a, id) && !Repeats(a, e, id))
  {
    match e {
      case Took(id', layer) => AllocShadows(a, id', layer, id);
      case Freed(id') => FreeShadows(a, id', id);
      case Nothing => WriteShadows(a, b, id);
    }
  }

  /** What each operation of a run did. */
  ghost function Log(slotSize: nat, numSlots: nat, ops: seq<Operation>): (log: seq<Event>)
    requires slotSize >= SLOT_HEADER_SIZE && numSlots * slotSize <= MAX_MAPPING
    ensures |log| == |ops|
  {
    if ops == [] then []
    else
      var front := ops[..|ops| - 1];
      Log(slotSize, numSlots, front) + [EventOf(AfterRun(slotSize, numSlots, front), ops[|ops| - 1])]
  }

  /** The index after a run holds the layers taken and not freed since. */
  lemma {:induction false} IndexOfRun(slotSize: nat, numSlots: nat, ops: seq<Operation>, id: string, layer: U32)
    requires slotSize >= SLOT_HEADER_SIZE && numSlots * slotSize <= MAX_MAPPING
    ensures (id, layer) in AfterRun(slotSize, numSlots, ops).index <==> Taken(Log(slotSize, numSlots, ops), id, layer)
  {
    if ops != [] {
      var front, op := ops[..|ops| - 1], ops[|ops| - 1];
      var before := AfterRun(slotSize, numSlots, front);
      IndexOfRun(slotSize, numSlots, front, id, layer);
      ApplyIndex(before, op, id, layer);
      TakenNext(Log(slotSize, numSlots, front), EventOf(before, op), id, layer);
    }
  }

  /**
   After any run a checkpoint has a shadowed slot if and only if one of its layers was taken
   twice since the checkpoint was last freed.
   */
  lemma {:induction false} ShadowsOfRun(slotSize: nat, numSlots: nat, ops: seq<Operation>, id: string)
    requires slotSize >= SLOT_HEADER_SIZE && numSlots * slotSize <= MAX_MAPPING
    ensures NoneShadowed(AfterRun(slotSize, numSlots, ops), id) <==> !Doubled(Log(slotSize, numSlots, ops), id)
  {
    if ops != [] {
      var front, op := ops[..|ops| - 1], ops[|ops| - 1];
      var before, log := AfterRun(slotSize, numSlots, front), Log(slotSize, numSlots, front);
      ShadowsOfRun(slotSize, numSlots, front, id);
      ApplyShadows(before, op, id);
      DoubledNext(log, EventOf(before, op), id);
      if op.AllocSlot? {
        IndexOfRun(slotSize, numSlots, front, id, op.layer);
      }
    }
  }

  lemma LogTwice(id: string, layer: U32)
    ensures Log(64, 2, [AllocSlot(id, layer), AllocSlot(id, layer)]) == [Took(id, layer), Took(id, layer)]
  {
    var ops := [AllocSlot(id, layer), AllocSlot(id, layer)];
    assert ops[..1] == [AllocSlot(id, layer)] && ops[..1][..0] == [];
    assert |AfterRun(64, 2, []).free| == 2;
    assert |AfterRun(64, 2, ops[..1]).free| == 1;
  }

  /** The smallest run that does: one layer, twice. */
  lemma TwiceShadows(id: string, layer: U32)
    ensures !NoneShadowed(AfterRun(64, 2, [AllocSlot(id, layer), AllocSlot(id, layer)]), id)
  {
    var ops := [AllocSlot(id, layer), AllocSlot(id, layer)];
    LogTwice(id, layer);
    assert TakenAgain(Log(64, 2, ops), 0, 1, id, layer);
    ShadowsOfRun(64, 2, ops, id);
  }
}
