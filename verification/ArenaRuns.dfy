/**
 What a run of arena operations comes to, told from the operations alone: which allocations are
 served, how many slots each checkpoint has, the order checkpoints arrived in and so the oldest of
 them, and what a slot says when it is read (crates/rocket-surgeon-worker/src/checkpoint.rs,
 `alloc_slot`, `free_checkpoint`, `get_slot`, `oldest_checkpoint`).
 */
module ArenaRuns {
  import opened Prelude
  import opened Bits
  import opened Sorting
  import opened SlotFormat
  import opened Arenas
  import opened ArenaShadows

  // ----- which allocations are served -----

  predicate TakesFor(e: Event, id: string) {
    e.Took? && e.id == id
  }

  /** The slots a checkpoint has taken since it was last freed. */
  function TakesOf(log: seq<Event>, id: string): nat {
    if log == [] then 0
    else
      var front, e := log[..|log| - 1], log[|log| - 1];
      if e == Freed(id) then 0 else TakesOf(front, id) + (if TakesFor(e, id) then 1 else 0)
  }

  /** The slots in use. */
  function InUse(log: seq<Event>): int {
    if log == [] then 0
    else
      var front, e := log[..|log| - 1], log[|log| - 1];
      match e
      case Took(_, _) => InUse(front) + 1
      case Freed(id) => InUse(front) - TakesOf(front, id)
      case Nothing => InUse(front)
  }

  /** What each operation of a run does: an allocation is served while a slot is not in use. */
  function EventsOf(numSlots: nat, ops: seq<Operation>): (log: seq<Event>)
    ensures |log| == |ops|
  {
    if ops == [] then []
    else
      var log := EventsOf(numSlots, ops[..|ops| - 1]);
      log + [match ops[|ops| - 1]
             case AllocSlot(id, layer) => if InUse(log) < numSlots then Took(id, layer) else Nothing
             case FreeCheckpoint(id) => Freed(id)
             case WriteSlot(_, _) => Nothing]
  }

  lemma TakesNext(log: seq<Event>, e: Event, id: string)
    ensures TakesOf(log + [e], id) == if e == Freed(id) then 0 else TakesOf(log, id) + (if TakesFor(e, id) then 1 else 0)
    ensures InUse(log + [e])
         == if e.Took? then InUse(log) + 1 else if e.Freed? then InUse(log) - TakesOf(log, e.id) else InUse(log)
  {
    assert (log + [e])[..|log|] == log;
  }

  /** How the number of free slots and of a checkpoint's slots changes with an event. */
  predicate CountsMove(a: Arena, b: Arena, e: Event, id: string) {
    && |OwnedBy(b, id)| == (if e == Freed(id) then 0 else |OwnedBy(a, id)| + if TakesFor(e, id) then 1 else 0)
    && |b.free| == |a.free| + if e.Took? then -1 else if e.Freed? then |OwnedBy(a, e.id)| else 0
  }

  lemma AllocCounts(a: Arena, x: string, layer: U32, id: string)
    requires Geometry(a) && a.free != [] && forall i :: 0 <= i < |a.free| ==> a.free[i] < |a.mem|
    ensures CountsMove(a, Alloc(a, x, layer).value.0, Took(x, layer), id)
  {
  }

  lemma FreeCounts(a: Arena, x: string, id: string)
    ensures CountsMove(a, Free(a, x), Freed(x), id)
  {
  }

  lemma SameCounts(a: Arena, b: Arena, id: string)
    requires b.owned == a.owned && b.free == a.free
    ensures CountsMove(a, b, Nothing, id)
  {
  }

  lemma EventCounts(a: Arena, op: Operation, b: Arena, id: string)
    requires Inv(a) && b == Apply(a, op)
    ensures CountsMove(a, b, EventOf(a, op), id)
  {
    if op.AllocSlot? && a.free != [] {
      AllocCounts(a, op.id, op.layer, id);
    } else if op.FreeCheckpoint? {
      FreeCounts(a, op.id, id);
    } else {
      SameCounts(a, b, id);
    }
  }

  /** The log of a run is a function of the operations; free slots and slots owned are what it says. */
  lemma {:induction false} RunCounts(slotSize: nat, numSlots: nat, ops: seq<Operation>, id: string)
    requires slotSize >= SLOT_HEADER_SIZE && numSlots * slotSize <= MAX_MAPPING
    ensures var a, log := AfterRun(slotSize, numSlots, ops), EventsOf(numSlots, ops);
            && Log(slotSize, numSlots, ops) == log
            && |OwnedBy(a, id)| == TakesOf(log, id) && |a.free| + InUse(log) == numSlots
  {
    if ops != [] {
      var front, op := ops[..|ops| - 1], ops[|ops| - 1];
      var before, log := AfterRun(slotSize, numSlots, front), EventsOf(numSlots, front);
      RunCounts(slotSize, numSlots, front, id);
      var e := EventOf(before, op);
      assert EventsOf(numSlots, ops) == log + [e];
      EventCounts(before, op, Apply(before, op), id);
      TakesNext(log, e, id);
      if e.Freed? {
        RunCounts(slotSize, numSlots, front, e.id);
      }
    }
  }

  // ----- the order of arrival -----

  /** Event `i` is the checkpoint's first allocation since it was last freed. */
  ghost predicate Arrived(log: seq<Event>, i: nat, id: string) {
    && i < |log| && TakesFor(log[i], id) && (forall j :: i < j < |log| ==> log[j] != Freed(id))
    && (forall j :: 0 <= j < i && TakesFor(log[j], id) ==> FreedBetween(log, j, i, id))
  }

  ghost predicate FreedBetween(log: seq<Event>, j: nat, i: nat, id: string)
    requires i <= |log|
  {
    exists k :: j < k < i && log[k] == Freed(id)
  }

  ghost predicate Before(log: seq<Event>, x: string, y: string) {
    exists i: nat, j: nat :: i < j && Arrived(log, i, x) && Arrived(log, j, y)
  }

  ghost predicate Present(log: seq<Event>, id: string) {
    exists i: nat :: Arrived(log, i, id)
  }

  /** The checkpoints there are, each before all that arrived after it. */
  ghost predicate ByArrival(order: seq<string>, log: seq<Event>) {
    && (forall id :: id in order <==> Present(log, id))
    && (forall p, q :: 0 <= p < q < |order| ==> Before(log, order[p], order[q]))
  }

  lemma NotLater(log: seq<Event>, i: nat, j: nat, id: string)
    requires i < j < |log|
    ensures Arrived(log, i, id) ==> !Arrived(log, j, id)
  {
    if Arrived(log, i, id) {
      assert !FreedBetween(log, i, j, id);
    }
  }

  /** A checkpoint arrives once. */
  lemma ArrivedOnce(log: seq<Event>, i: nat, j: nat, id: string)
    requires Arrived(log, i, id)
    ensures Arrived(log, j, id) <==> i == j
  {
    if i < j < |log| {
      NotLater(log, i, j, id);
    } else if j < i {
      NotLater(log, j, i, id);
    }
  }

  lemma NotBoth(log: seq<Event>, x: string, y: string)
    ensures Before(log, x, y) ==> x != y && !Before(log, y, x)
  {
    if Before(log, x, y) {
      var i: nat, j: nat :| i < j && Arrived(log, i, x) && Arrived(log, j, y);
      forall k: nat ensures (Arrived(log, k, x) <==> k == i) && (Arrived(log, k, y) <==> k == j) {
        ArrivedOnce(log, i, k, x);
        ArrivedOnce(log, j, k, y);
      }
    }
  }

  /** No two lists are by arrival: the log decides the order. */
  lemma {:induction false} ArrivalDecides(s: seq<string>, t: seq<string>, log: seq<Event>)
    requires forall id :: id in s <==> id in t
    requires forall p, q :: 0 <= p < q < |s| ==> Before(log, s[p], s[q])
    requires forall p, q :: 0 <= p < q < |t| ==> Before(log, t[p], t[q])
    ensures s == t
  {
    assert (s == [] || s[0] in t) && (t == [] || t[0] in s);
    if s != [] && t != [] {
      var p :| 0 <= p < |s| && s[p] == t[0];
      var q :| 0 <= q < |t| && t[q] == s[0];
      NotBoth(log, s[0], t[0]);
      assert s[0] == t[0];
      forall id ensures id in s[1..] <==> id in t[1..] {
        InTail(s, log, id);
        InTail(t, log, id);
      }
      ArrivalDecides(s[1..], t[1..], log);
    }
  }

  lemma InTail(s: seq<string>, log: seq<Event>, id: string)
    requires s != [] && forall p, q :: 0 <= p < q < |s| ==> Before(log, s[p], s[q])
    ensures id in s[1..] <==> id in s && id != s[0]
  {
    if id in s[1..] {
      var p :| 0 <= p < |s[1..]| && s[1..][p] == id;
      NotBoth(log, s[0], s[p + 1]);
    }
    if id in s && id != s[0] {
      var p :| 0 <= p < |s| && s[p] == id;
      assert s[1..][p - 1] == id;
    }
  }

  /** A checkpoint that took a slot and was not freed since has arrived. */
  lemma {:induction false} TookPresent(log: seq<Event>, i: nat, id: string)
    requires i < |log| && TakesFor(log[i], id) && forall j :: i < j < |log| ==> log[j] != Freed(id)
    ensures Present(log, id)
  {
    if j :| 0 <= j < i && TakesFor(log[j], id) && !FreedBetween(log, j, i, id) {
      forall k | j < k < |log| ensures log[k] != Freed(id) {
        if k <= i {
          assert k < i ==> !(j < k < i && log[k] == Freed(id));
        }
      }
      TookPresent(log, j, id);
    } else {
      assert Arrived(log, i, id);
    }
  }

  /** One more event leaves arrivals alone, but for the checkpoint it frees. */
  lemma ArrivedNext(log: seq<Event>, e: Event, i: nat, id: string)
    requires i < |log|
    ensures Arrived(log + [e], i, id) <==> Arrived(log, i, id) && e != Freed(id)
  {
    var more := log + [e];
    if Arrived(more, i, id) {
      assert more[|log|] != Freed(id);
      assert forall j :: i < j < |log| ==> log[j] == more[j];
    }
    forall j | 0 <= j < i ensures FreedBetween(more, j, i, id) <==> FreedBetween(log, j, i, id) {
      if k :| j < k < i && log[k] == Freed(id) {
        assert more[k] == Freed(id);
      }
      if k :| j < k < i && more[k] == Freed(id) {
        assert log[k] == Freed(id);
      }
    }
  }

  /** The event is an arrival exactly if it takes a slot for a checkpoint that was not there. */
  lemma ArrivesNow(log: seq<Event>, e: Event, id: string)
    ensures Arrived(log + [e], |log|, id) <==> TakesFor(e, id) && !Present(log, id)
  {
    var more, n := log + [e], |log|;
    if TakesFor(e, id) && !Present(log, id) {
      forall j | 0 <= j < n && TakesFor(more[j], id) ensures FreedBetween(more, j, n, id) {
        if forall k :: j < k < n ==> log[k] != Freed(id) {
          TookPresent(log, j, id);
        } else {
          var k :| j < k < n && log[k] == Freed(id);
          assert more[k] == Freed(id);
        }
      }
    }
    if Present(log, id) {
      var i: nat :| Arrived(log, i, id);
      assert TakesFor(more[i], id) && forall k :: i < k < n ==> more[k] == log[k];
      assert !FreedBetween(more, i, n, id);
    }
  }

  lemma PresentNext(log: seq<Event>, e: Event, id: string)
    ensures Present(log + [e], id) <==> TakesFor(e, id) || (Present(log, id) && e != Freed(id))
  {
    if Present(log + [e], id) {
      var i: nat :| Arrived(log + [e], i, id);
      if i < |log| {
        ArrivedNext(log, e, i, id);
      }
    }
    if Present(log, id) && e != Freed(id) {
      var i: nat :| Arrived(log, i, id);
      ArrivedNext(log, e, i, id);
      assert Arrived(log + [e], i, id);
    } else if TakesFor(e, id) {
      ArrivesNow(log, e, id);
      assert Arrived(log + [e], |log|, id);
    }
  }

  lemma BeforeStays(log: seq<Event>, e: Event, x: string, y: string)
    requires Before(log, x, y) && e != Freed(x) && e != Freed(y)
    ensures Before(log + [e], x, y)
  {
    var i: nat, j: nat :| i < j && Arrived(log, i, x) && Arrived(log, j, y);
    ArrivedNext(log, e, i, x);
    ArrivedNext(log, e, j, y);
    assert Arrived(log + [e], i, x) && Arrived(log + [e], j, y);
  }

  lemma BeforeNew(log: seq<Event>, e: Event, x: string, y: string)
    requires Present(log, x) && TakesFor(e, y) && !Present(log, y)
    ensures Before(log + [e], x, y)
  {
    var i: nat :| Arrived(log, i, x);
    ArrivedNext(log, e, i, x);
    ArrivesNow(log, e, y);
    assert Arrived(log + [e], i, x) && Arrived(log + [e], |log|, y);
  }

  /** What is left of a list keeps its order. */
  lemma {:induction false} FilterKeepsOrder<T(!new)>(s: seq<T>, keep: T -> bool, p: nat, q: nat)
      returns (i: nat, j: nat)
    requires p < q < |Filter(s, keep)|
    ensures i < j < |s| && s[i] == Filter(s, keep)[p] && s[j] == Filter(s, keep)[q]
  {
    var rest := Filter(s[1..], keep);
    if !keep(s[0]) {
      i, j := FilterKeepsOrder(s[1..], keep, p, q);
      i, j := i + 1, j + 1;
    } else if p > 0 {
      i, j := FilterKeepsOrder(s[1..], keep, p - 1, q - 1);
      i, j := i + 1, j + 1;
    } else {
      assert rest[q - 1] in rest;
      var k :| 0 <= k < |s[1..]| && s[1..][k] == rest[q - 1];
      i, j := 0, k + 1;
    }
  }

  /** How the list of checkpoints changes with an event. */
  ghost predicate OrderMoves(order: seq<string>, after: seq<string>, e: Event) {
    match e
    case Took(id, _) => after == if id in order then order else order + [id]
    case Freed(id) => after == Filter(order, (x: string) => x != id)
    case Nothing => after == order
  }

  lemma {:induction false} FilterAll(s: seq<string>, id: string)
    requires id !in s
    ensures Filter(s, (x: string) => x != id) == s
  {
    if s != [] {
      FilterAll(s[1..], id);
    }
  }

  lemma ApplyOrder(a: Arena, op: Operation)
    requires Inv(a)
    ensures OrderMoves(a.order, Apply(a, op).order, EventOf(a, op))
  {
    if op.FreeCheckpoint? && op.id !in a.owned {
      FilterAll(a.order, op.id);
    }
  }

  lemma OrderNext(order: seq<string>, after: seq<string>, log: seq<Event>, e: Event)
    requires ByArrival(order, log) && OrderMoves(order, after, e)
    ensures ByArrival(after, log + [e])
  {
    forall id ensures id in after <==> Present(log + [e], id) {
      PresentNext(log, e, id);
    }
    forall p, q | 0 <= p < q < |after| ensures Before(log + [e], after[p], after[q]) {
      if e.Freed? {
        var i, j := FilterKeepsOrder(order, (x: string) => x != e.id, p, q);
        assert after[p] in after && after[q] in after;
        BeforeStays(log, e, order[i], order[j]);
      } else if q < |order| {
        BeforeStays(log, e, order[p], order[q]);
      } else {
        assert order[p] in order;
        BeforeNew(log, e, order[p], after[q]);
      }
    }
  }

  /**
   After any run the list of checkpoints is by arrival: each checkpoint that took a slot and was
   not freed since, before all whose first allocation since they were last freed came later.
   */
  lemma {:induction false} OrderOfRun(slotSize: nat, numSlots: nat, ops: seq<Operation>)
    requires slotSize >= SLOT_HEADER_SIZE && numSlots * slotSize <= MAX_MAPPING
    ensures ByArrival(AfterRun(slotSize, numSlots, ops).order, EventsOf(numSlots, ops))
  {
    RunCounts(slotSize, numSlots, ops, "");
    if ops != [] {
      var front, op := ops[..|ops| - 1], ops[|ops| - 1];
      var before, log := AfterRun(slotSize, numSlots, front), EventsOf(numSlots, front);
      OrderOfRun(slotSize, numSlots, front);
      RunCounts(slotSize, numSlots, front, "");
      ApplyOrder(before, op);
      OrderNext(before.order, Apply(before, op).order, log, EventOf(before, op));
    }
  }

  ghost predicate ArrivedFirst(log: seq<Event>, id: string) {
    Present(log, id) && forall other :: Present(log, other) && other != id ==> Before(log, id, other)
  }

  /** `oldest_checkpoint`. */
  function OldestCheckpoint(a: Arena): Option<string> {
    if a.order == [] then None else Some(a.order[0])
  }

  /** It is the one that arrived first of those there are. */
  lemma OldestOfRun(slotSize: nat, numSlots: nat, ops: seq<Operation>, id: string)
    requires slotSize >= SLOT_HEADER_SIZE && numSlots * slotSize <= MAX_MAPPING
    ensures OldestCheckpoint(AfterRun(slotSize, numSlots, ops)) == Some(id)
       <==> ArrivedFirst(EventsOf(numSlots, ops), id)
  {
    var order, log := AfterRun(slotSize, numSlots, ops).order, EventsOf(numSlots, ops);
    OrderOfRun(slotSize, numSlots, ops);
    if order != [] {
      assert order[0] in order;
      if id != order[0] && Present(log, id) {
        var p :| 0 <= p < |order| && order[p] == id;
        NotBoth(log, order[0], order[p]);
      }
    }
  }

  // ----- which slot -----

  /** `alloc_slot` takes the last free slot, and it becomes the checkpoint's last. */
  lemma AllocLists(a: Arena, op: Operation)
    requires Inv(a) && op.AllocSlot? && a.free != []
    ensures var b := Apply(a, op);
            && b.free == a.free[..|a.free| - 1]
            && b.slots == a.slots + [Descriptor(a.free[|a.free| - 1], op.id, op.layer)]
            && OwnedBy(b, op.id) == OwnedBy(a, op.id) + [a.free[|a.free| - 1]]
  {
  }

  lemma FreeLists(a: Arena, id: string)
    requires Inv(a) && id in a.owned
    ensures Inv(Free(a, id)) && a.owned[id] != [] && Free(a, id).free == a.free + a.owned[id]
  {
    FreeKeeps(a, id);
  }

  /** A slot given back is the first to be handed out again: of a freed checkpoint's, the last it took. */
  lemma ReusesLast(a: Arena, id: string, op: Operation)
    requires Inv(a) && id in a.owned && op.AllocSlot?
    ensures Inv(Free(a, id)) && a.owned[id] != []
    ensures Apply(Free(a, id), op).slots
         == Free(a, id).slots + [Descriptor(a.owned[id][|a.owned[id]| - 1], op.id, op.layer)]
  {
    FreeLists(a, id);
    AllocLists(Free(a, id), op);
  }

  /** The `n` slots from the last one down, but for the first `k`. */
  predicate CountsDown(free: seq<nat>, n: nat, k: nat) {
    |free| + k == n && forall i :: 0 <= i < |free| ==> free[i] == n - 1 - i
  }

  /** Slot `i` went to the `i`th allocation. */
  predicate GoInOrder(slots: seq<Descriptor>, ops: seq<Operation>) {
    && |slots| == |ops|
    && forall i :: 0 <= i < |ops| ==> ops[i].AllocSlot? && slots[i] == Descriptor(i, ops[i].id, ops[i].layer)
  }

  lemma NextSlot(free: seq<nat>, slots: seq<Descriptor>, n: nat, ops: seq<Operation>, op: Operation)
    requires CountsDown(free, n, |ops|) && GoInOrder(slots, ops) && free != [] && op.AllocSlot?
    ensures CountsDown(free[..|free| - 1], n, |ops| + 1)
    ensures GoInOrder(slots + [Descriptor(free[|free| - 1], op.id, op.layer)], ops + [op])
  {
  }

  lemma FirstInv(slotSize: nat, numSlots: nat)
    requires slotSize >= SLOT_HEADER_SIZE && numSlots * slotSize <= MAX_MAPPING
    ensures CountsDown(AfterRun(slotSize, numSlots, []).free, numSlots, 0) && AfterRun(slotSize, numSlots, []).slots == []
  {
  }

  /** A fresh arena hands out its slots from the first on. */
  lemma {:induction false} FirstSlots(slotSize: nat, numSlots: nat, ops: seq<Operation>)
    requires slotSize >= SLOT_HEADER_SIZE && numSlots * slotSize <= MAX_MAPPING
    requires |ops| <= numSlots && forall i :: 0 <= i < |ops| ==> ops[i].AllocSlot?
    ensures var a := AfterRun(slotSize, numSlots, ops); CountsDown(a.free, numSlots, |ops|) && GoInOrder(a.slots, ops)
  {
    if ops == [] {
      FirstInv(slotSize, numSlots);
    } else {
      var front, op := ops[..|ops| - 1], ops[|ops| - 1];
      FirstSlots(slotSize, numSlots, front);
      var a := AfterRun(slotSize, numSlots, front);
      AllocLists(a, op);
      NextSlot(a.free, a.slots, numSlots, front, op);
      assert ops == front + [op];
    }
  }

  // ----- the order of a listing -----

  /** Slot `s` comes before slot `t` in the list. */
  ghost predicate Precedes(mine: seq<nat>, s: nat, t: nat) {
    exists p, q :: 0 <= p < q < |mine| && mine[p] == s && mine[q] == t
  }

  ghost predicate InOrderOf(mine: seq<nat>, r: seq<Info>) {
    forall i, j :: 0 <= i < j < |r| ==> Precedes(mine, r[i].slot, r[j].slot)
  }

  lemma PrecedesMore(mine: seq<nat>, last: nat, s: nat, t: nat)
    requires Precedes(mine, s, t) || (s in mine && t == last)
    ensures Precedes(mine + [last], s, t)
  {
    var more := mine + [last];
    if s in mine && t == last {
      var p :| 0 <= p < |mine| && mine[p] == s;
      assert more[p] == s && more[|mine|] == t;
    } else {
      var p, q :| 0 <= p < q < |mine| && mine[p] == s && mine[q] == t;
      assert more[p] == s && more[q] == t;
    }
  }

  lemma {:induction false} InfosInOrder(a: Arena, keys: seq<Key>, mine: seq<nat>)
    requires Geometry(a) && forall k :: k in keys ==> k in a.index && a.index[k] < |a.slots|
    requires Distinct(mine) && forall i :: 0 <= i < |mine| ==> mine[i] < |a.mem|
    ensures InOrderOf(mine, Infos(a, keys, mine))
  {
    if mine != [] {
      var rest, last := mine[..|mine| - 1], mine[|mine| - 1];
      InfosInOrder(a, keys, rest);
      InfosDistinct(a, keys, rest);
      assert mine == rest + [last];
      var r, before := Infos(a, keys, mine), Infos(a, keys, rest);
      forall i, j | 0 <= i < j < |r| ensures Precedes(mine, r[i].slot, r[j].slot) {
        PrecedesMore(rest, last, r[i].slot, r[j].slot);
      }
    }
  }

  /** The listing goes through the checkpoint's slots in the order it took them. */
  lemma SlotInfoInOrder(a: Arena, keys: seq<Key>, id: string)
    requires Inv(a) && IterationOrder(a.index, keys)
    ensures InOrderOf(OwnedBy(a, id), SlotInfo(a, keys, id))
  {
    OwnedInRange(a, id);
    InfosInOrder(a, keys, OwnedBy(a, id));
  }

  // ----- what a slot says -----

  /** Index entry `k` leads to the same bytes in both arenas, if it leads anywhere. */
  ghost predicate SameEntry(a: Arena, b: Arena, k: Key) {
    && (k in a.index <==> k in b.index)
    && (k in a.index ==>
          && a.index[k] < |a.slots| && b.index[k] < |b.slots|
          && SlotOf(a.slots, a.index, k) == SlotOf(b.slots, b.index, k) < |a.mem| == |b.mem|
          && b.mem[SlotOf(a.slots, a.index, k)] == a.mem[SlotOf(a.slots, a.index, k)])
  }

  lemma SameGet(a: Arena, b: Arena, id: string, layer: U32)
    requires Geometry(a) && Geometry(b)
    requires Indexed(|a.mem|, a.slots, a.index, a.owned) && Indexed(|b.mem|, b.slots, b.index, b.owned)
    requires SameEntry(a, b, (id, layer))
    ensures GetSlot(b, id, layer) == GetSlot(a, id, layer)
  {
  }

  /** A slot whose bytes begin with a header says what the header says. */
  lemma GetHeader(a: Arena, id: string, layer: U32, slot: nat, header: SlotHeader)
    requires Geometry(a) && Indexed(|a.mem|, a.slots, a.index, a.owned) && Leads(a, (id, layer), slot)
    requires slot < |a.mem| && Storable(header) && a.mem[slot][..SLOT_HEADER_SIZE] == HeaderBytes(header)
    ensures GetSlot(a, id, layer) == Some((slot, header))
  {
    HeaderRoundTrip(header);
  }

  lemma AllocSame(a: Arena, b: Arena, slot: nat, id: string, layer: U32, k: Key)
    requires Inv(a) && a.free != [] && Alloc(a, id, layer) == Some((b, slot)) && k != (id, layer)
    ensures SameEntry(a, b, k)
  {
    if k in a.index {
      assert Points(|a.mem|, a.slots, a.index, a.owned, k);
      assert slot in a.free;
    }
  }

  lemma AllocNew(a: Arena, b: Arena, slot: nat, id: string, layer: U32)
    requires Inv(a) && a.free != [] && Alloc(a, id, layer) == Some((b, slot))
    ensures Leads(b, (id, layer), slot) && slot < |b.mem| && Storable(BlankHeader(a.slotSize))
    ensures |b.mem[slot]| >= 64 && b.mem[slot][..64] == HeaderBytes(BlankHeader(a.slotSize))
  {
    SlotSizeFits(|a.mem|, a.slotSize);
  }

  /** A slot just allocated reads as an empty single-precision tensor of all the slot can hold; no other changes. */
  lemma AllocThenGet(a: Arena, id: string, layer: U32, b: Arena, slot: nat, id': string, layer': U32)
    requires Inv(a) && Alloc(a, id, layer) == Some((b, slot))
    ensures Inv(b)
    ensures GetSlot(b, id', layer') ==
            if (id', layer') == (id, layer) then
              Some((slot, SlotHeader(Float32, 0, [0, 0, 0, 0, 0, 0], a.slotSize - 64)))
            else GetSlot(a, id', layer')
  {
    AllocKeeps(a, id, layer);
    if (id', layer') == (id, layer) {
      AllocNew(a, b, slot, id, layer);
      GetHeader(b, id, layer, slot, BlankHeader(a.slotSize));
    } else {
      AllocSame(a, b, slot, id, layer, (id', layer'));
      SameGet(a, b, id', layer');
    }
  }

  lemma SlotSizeFits(n: nat, size: nat)
    requires n > 0 && Bounded(n, size)
    ensures size <= MAX_MAPPING
  {
    MulMono(1, n, size);
  }

  lemma FreeSame(a: Arena, id: string, k: Key)
    requires Inv(a) && k.0 != id
    ensures SameEntry(a, Free(a, id), k)
  {
    if k in a.index {
      assert Points(|a.mem|, a.slots, a.index, a.owned, k);
    }
  }

  /** A freed checkpoint's layers cannot be found; every other one's stay as they are. */
  lemma FreeThenGet(a: Arena, id: string, id': string, layer: U32)
    requires Inv(a)
    ensures Inv(Free(a, id))
    ensures GetSlot(Free(a, id), id', layer) == if id' == id then None else GetSlot(a, id', layer)
  {
    FreeKeeps(a, id);
    if id' != id {
      FreeSame(a, id, (id', layer));
      SameGet(a, Free(a, id), id', layer);
    } else if (id, layer) in a.index {
      OwnerOf(a, id, layer);
    }
  }

  /** The bytes of a slot after a header and data are written to it. */
  lemma StoreBytes(a: Arena, slot: nat, header: seq<Byte>, data: seq<Byte>)
    requires slot < |a.mem| && |header| == 64 && 64 + |data| <= |a.mem[slot]|
    ensures var b := Store(a, slot, header + data);
            b.mem[slot][..64] == header && b.mem[slot][64..64 + |data|] == data
  {
  }

  lemma StoreSame(a: Arena, slot: nat, bytes: seq<Byte>, k: Key)
    requires Inv(a) && slot < |a.mem| && |bytes| <= |a.mem[slot]| && !Leads(a, k, slot)
    ensures SameEntry(a, Store(a, slot, bytes), k)
  {
    if k in a.index {
      assert Points(|a.mem|, a.slots, a.index, a.owned, k);
    }
  }

  /** A header written to a layer's slot is what it says from then on; no other layer changes. */
  lemma StoreThenGet(a: Arena, id: string, layer: U32, slot: nat, header: SlotHeader, data: seq<Byte>, id': string,
                     layer': U32)
    requires Inv(a) && Leads(a, (id, layer), slot) && Storable(header) && 64 + |data| <= a.slotSize
    ensures slot < |a.mem| && |a.mem[slot]| == a.slotSize
    ensures var b := Store(a, slot, HeaderBytes(header) + data);
            && Inv(b) && b.mem[slot][64..64 + |data|] == data
            && GetSlot(b, id', layer') ==
               if (id', layer') == (id, layer) then Some((slot, header)) else GetSlot(a, id', layer')
  {
    assert Points(|a.mem|, a.slots, a.index, a.owned, (id, layer));
    var b := Store(a, slot, HeaderBytes(header) + data);
    StoreKeeps(a, slot, HeaderBytes(header) + data);
    StoreBytes(a, slot, HeaderBytes(header), data);
    if (id', layer') == (id, layer) {
      GetHeader(b, id, layer, slot, header);
    } else {
      OtherSlot(a, (id, layer), (id', layer'), slot);
      StoreSame(a, slot, HeaderBytes(header) + data, (id', layer'));
      SameGet(a, b, id', layer');
    }
  }

  lemma OtherSlot(a: Arena, k: Key, k': Key, slot: nat)
    requires Inv(a) && Leads(a, k, slot) && k' != k
    ensures !Leads(a, k', slot)
  {
  }
}
