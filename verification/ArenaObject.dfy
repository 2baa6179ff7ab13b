/**
 The checkpoint arena as the object it is: one flat mapping and five tables updated in place
 (crates/rocket-surgeon-worker/src/checkpoint.rs). Every method computes the matching function
 of `Arenas` or `SpillFile`.
 */
module ArenaObject {
  import opened Prelude
  import opened Bits
  import opened SlotFormat
  import opened Arenas
  import opened ArenaRuns
  import opened SpillFile

  // ----- flat memory -----

  lemma SlotEnd(slot: nat, n: nat, size: nat)
    requires slot < n
    ensures 0 <= slot * size && slot * size + size <= n * size
  {
    MulMono(slot + 1, n, size);
    assert (slot + 1) * size == slot * size + size;
  }

  /** Slot number `s` of a flat mapping. */
  function Chunk(flat: Bytes, n: nat, size: nat, s: nat): (c: Bytes)
    requires |flat| == n * size && s < n
    ensures |c| == size
  {
    SlotEnd(s, n, size);
    flat[s * size..s * size + size]
  }

  /** A flat mapping cut into slots. */
  function Chunks(flat: Bytes, n: nat, size: nat): (cs: seq<Bytes>)
    requires |flat| == n * size
    ensures |cs| == n && forall s :: 0 <= s < n ==> cs[s] == Chunk(flat, n, size, s)
  {
    seq(n, s requires 0 <= s < n => Chunk(flat, n, size, s))
  }

  /** The mapping with `bytes` copied to the start of a slot. */
  predicate Written(flat: Bytes, flat': Bytes, at: nat, bytes: Bytes) {
    && |flat'| == |flat| && at + |bytes| <= |flat|
    && flat'[at..at + |bytes|] == bytes
    && (forall i :: 0 <= i < |flat| && (i < at || at + |bytes| <= i) ==> flat'[i] == flat[i])
  }

  lemma WrittenSlot(flat: Bytes, flat': Bytes, n: nat, size: nat, slot: nat, bytes: Bytes)
    requires |flat| == n * size && slot < n && |bytes| <= size && Written(flat, flat', slot * size, bytes)
    ensures Chunk(flat', n, size, slot) == Overwrite(Chunk(flat, n, size, slot), bytes)
  {
    SlotEnd(slot, n, size);
    var at := slot * size;
    var c, c' := Chunk(flat, n, size, slot), Chunk(flat', n, size, slot);
    assert c'[..|bytes|] == flat'[at..at + |bytes|];
    assert c'[|bytes|..] == c[|bytes|..];
  }

  lemma OtherSlot(flat: Bytes, flat': Bytes, n: nat, size: nat, slot: nat, bytes: Bytes, s: nat)
    requires |flat| == n * size && slot < n && |bytes| <= size && Written(flat, flat', slot * size, bytes)
    requires s < n && s != slot
    ensures Chunk(flat', n, size, s) == Chunk(flat, n, size, s)
  {
    SlotEnd(s, n, size);
    if s < slot {
      SlotEnd(s, slot, size);
    } else {
      SlotEnd(slot, s, size);
    }
    var c, c' := Chunk(flat, n, size, s), Chunk(flat', n, size, s);
    forall i | 0 <= i < size ensures c'[i] == c[i] {}
  }

  lemma WrittenChunks(flat: Bytes, flat': Bytes, n: nat, size: nat, slot: nat, bytes: Bytes)
    requires |flat| == n * size && slot < n && |bytes| <= size && Written(flat, flat', slot * size, bytes)
    ensures Chunks(flat', n, size)
         == Chunks(flat, n, size)[slot := Overwrite(Chunks(flat, n, size)[slot], bytes)]
  {
    WrittenSlot(flat, flat', n, size, slot, bytes);
    forall s | 0 <= s < n && s != slot ensures Chunk(flat', n, size, s) == Chunk(flat, n, size, s) {
      OtherSlot(flat, flat', n, size, slot, bytes, s);
    }
  }

  /** The index entries and running offsets of the first loop of `spill_checkpoint`. */
  method BuildEntries(ghost a: Arena, infos: seq<Info>, data: seq<Bytes>, crc: Checksum, start: nat)
    returns (entries: seq<Entry>)
    requires InRange(a, infos) && data == Payloads(a, infos)
    ensures entries == Entries(a, crc, infos, start)
  {
    var offset := start;
    entries := [];
    for i := 0 to |infos|
      invariant offset == OffsetAt(a, infos, start, i)
      invariant entries == EntriesUpTo(a, crc, infos, start, i)
    {
      var x, payload := infos[i], data[i];
      entries := entries
                 + [Entry(x.layer, x.header.dtype, x.header.ndim, x.header.shape, offset, |payload|, crc(payload))];
      var step := Align(|payload|);
      offset := offset + step;
    }
  }

  class CheckpointArena {
    const slotSize: nat
    const numSlots: nat
    const mem: array<Byte>
    var freeList: seq<nat>
    var slots: seq<Descriptor>
    var index: Index
    var owned: Ownership
    var order: seq<string>

    ghost predicate Mapped()
      reads this
    {
      mem.Length == numSlots * slotSize
    }

    ghost function Value(): Arena
      requires Mapped()
      reads this, mem
    {
      Arena(slotSize, Chunks(mem[..], numSlots, slotSize), freeList, slots, index, owned, order)
    }

    ghost predicate Valid()
      reads this, mem
    {
      Mapped() && Inv(Value())
    }

    constructor (slotSize: nat, numSlots: nat)
      requires slotSize >= SLOT_HEADER_SIZE && 0 < numSlots * slotSize <= MAX_MAPPING
      ensures Valid() && fresh(mem) && Value() == New(slotSize, numSlots)
    {
      this.slotSize, this.numSlots := slotSize, numSlots;
      mem := new Byte[numSlots * slotSize](_ => 0);
      freeList := seq(numSlots, i requires 0 <= i < numSlots => numSlots - 1 - i);
      slots, index, owned, order := [], map[], map[], [];
      new;
      NewInv(slotSize, numSlots);
      assert Chunks(mem[..], numSlots, slotSize) == New(slotSize, numSlots).mem by {
        forall s | 0 <= s < numSlots ensures Chunk(mem[..], numSlots, slotSize, s) == Zeros(slotSize) {
          SlotEnd(s, numSlots, slotSize);
        }
      }
    }

    /** A copy to the start of a slot. */
    method CopyToSlot(slot: nat, bytes: Bytes)
      requires Mapped() && slot < numSlots && |bytes| <= slotSize
      modifies mem
      ensures Value() == Store(old(Value()), slot, bytes)
    {
      SlotEnd(slot, numSlots, slotSize);
      var at := slot * slotSize;
      for i := 0 to |bytes|
        invariant mem[at..at + i] == bytes[..i]
        invariant forall j :: 0 <= j < mem.Length && (j < at || at + i <= j) ==> mem[j] == old(mem[j])
      {
        mem[at + i] := bytes[i];
        assert mem[at..at + i + 1] == mem[at..at + i] + [mem[at + i]];
      }
      assert Written(old(mem[..]), mem[..], at, bytes);
      WrittenChunks(old(mem[..]), mem[..], numSlots, slotSize, slot, bytes);
    }

    /** `CheckpointArena::new`: refuses an empty arena, and one too large to map. */
    static method Create(slotSize: nat, numSlots: nat) returns (r: Option<CheckpointArena>)
      requires slotSize >= SLOT_HEADER_SIZE
      ensures r.Some? <==> 0 < numSlots * slotSize <= MAX_MAPPING
      ensures r.Some? ==> fresh(r.value) && fresh(r.value.mem) && r.value.Valid()
                          && r.value.Value() == New(slotSize, numSlots)
    {
      var capacity := numSlots * slotSize;
      if capacity == 0 || capacity > MAX_MAPPING {
        return None;
      }
      var arena := new CheckpointArena(slotSize, numSlots);
      return Some(arena);
    }

    /** The body of `alloc_slot` once a free slot is known to be there. */
    method TakeSlot(id: string, layer: U32) returns (slot: nat)
      requires Mapped() && Geometry(Value()) && freeList != []
      requires forall i :: 0 <= i < |freeList| ==> freeList[i] < numSlots
      modifies this, mem
      ensures Mapped() && Alloc(old(Value()), id, layer) == Some((Value(), slot))
    {
      slot := freeList[|freeList| - 1];
      freeList := freeList[..|freeList| - 1];
      CopyToSlot(slot, HeaderBytes(BlankHeader(slotSize)));
      var descriptor := |slots|;
      slots := slots + [Descriptor(slot, id, layer)];
      index := index[(id, layer) := descriptor];
      var isNew := id !in owned;
      owned := owned[id := (if id in owned then owned[id] else []) + [slot]];
      if isNew {
        order := order + [id];
      }
    }

    /** `alloc_slot`: the slot handed out, `None` when the arena is exhausted. */
    method AllocSlot(id: string, layer: U32) returns (r: Option<nat>)
      requires Valid()
      modifies this, mem
      ensures Valid()
      ensures match Alloc(old(Value()), id, layer)
              case None => r == None && Value() == old(Value())
              case Some((a, slot)) => r == Some(slot) && Value() == a
      ensures r == if old(freeList) == [] then None else Some(old(freeList)[|old(freeList)| - 1])
      ensures order == if r.None? || id in old(owned) then old(order) else old(order) + [id]
    {
      if freeList == [] {
        return None;
      }
      AllocKeeps(Value(), id, layer);
      var slot := TakeSlot(id, layer);
      return Some(slot);
    }

    /** The body of `free_checkpoint` for a checkpoint that is there. */
    method ReturnSlots(id: string)
      requires Mapped() && id in owned
      modifies this
      ensures Mapped() && Value() == Free(old(Value()), id)
    {
      var mine := owned[id];
      owned := owned - {id};
      for i := 0 to |mine|
        invariant freeList == old(freeList) + mine[..i]
        invariant slots == old(slots) && index == old(index) && order == old(order) && owned == old(owned) - {id}
      {
        freeList := freeList + [mine[i]];
      }
      assert mine[..|mine|] == mine;
      index := map k | k in index && k.0 != id :: index[k];
      order := Filter(order, (x: string) => x != id);
    }

    /** `free_checkpoint`; `rollback` is the same call. */
    method FreeCheckpoint(id: string)
      requires Valid()
      modifies this
      ensures Valid() && Value() == Free(old(Value()), id)
    {
      FreeKeeps(Value(), id);
      if id in owned {
        ReturnSlots(id);
      }
    }

    /** `oldest_checkpoint`. */
    method FirstCheckpoint() returns (r: Option<string>)
      requires Valid()
      ensures r == OldestCheckpoint(Value())
    {
      r := if order == [] then None else Some(order[0]);
    }

    /** `update_header` and the copy of the payload behind it. */
    method WriteSlot(slot: nat, bytes: Bytes)
      requires Valid() && slot < numSlots && |bytes| <= slotSize
      modifies mem
      ensures Valid() && Value() == Store(old(Value()), slot, bytes)
    {
      StoreKeeps(Value(), slot, bytes);
      CopyToSlot(slot, bytes);
    }

    /** The bytes of a slot from its start. */
    method ReadSlot(slot: nat, n: nat) returns (bytes: Bytes)
      requires Mapped() && slot < numSlots && n <= slotSize
      ensures bytes == Value().mem[slot][..n]
    {
      SlotEnd(slot, numSlots, slotSize);
      bytes := mem[slot * slotSize..slot * slotSize + n];
      assert bytes == Chunk(mem[..], numSlots, slotSize, slot)[..n];
    }

    method FindKey(keys: seq<Key>, slot: nat) returns (r: Option<Key>)
      requires forall k :: k in keys ==> k in index && index[k] < |slots|
      ensures r == Find(slots, index, keys, slot)
    {
      for i := 0 to |keys|
        invariant Find(slots, index, keys, slot) == Find(slots, index, keys[i..], slot)
      {
        assert keys[i] in keys;
        if slots[index[keys[i]]].slot == slot {
          return Some(keys[i]);
        }
      }
      return None;
    }

    /** What one slot contributes, nothing if it is shadowed or unreadable. */
    method RecordOf(keys: seq<Key>, slot: nat) returns (record: seq<Info>)
      requires Mapped() && Geometry(Value()) && forall k :: k in keys ==> k in index && index[k] < |slots|
      requires slot < numSlots
      ensures record == InfoOf(Value(), keys, slot)
    {
      var key := FindKey(keys, slot);
      var bytes := ReadSlot(slot, SLOT_HEADER_SIZE);
      var header := ReadHeader(bytes);
      if key.None? || header.None? {
        return [];
      }
      return [Info(slots[index[key.value]].layer, slot, header.value)];
    }

    /** The loop of `slot_info_for_checkpoint`. */
    method CollectInfos(keys: seq<Key>, mine: seq<nat>) returns (infos: seq<Info>)
      requires Mapped() && Geometry(Value()) && forall k :: k in keys ==> k in index && index[k] < |slots|
      requires forall i :: 0 <= i < |mine| ==> mine[i] < numSlots
      ensures infos == Infos(Value(), keys, mine)
    {
      infos := [];
      ghost var a := Value();
      for i := 0 to |mine|
        invariant infos == Infos(a, keys, mine[..i])
      {
        var record := RecordOf(keys, mine[i]);
        assert mine[..i + 1][..i] == mine[..i];
        infos := infos + record;
      }
      assert mine[..|mine|] == mine;
    }

    /** `slot_info_for_checkpoint`, with the index presented in the order `keys`. */
    method SlotInfoForCheckpoint(id: string, keys: seq<Key>) returns (infos: seq<Info>)
      requires Valid() && IterationOrder(index, keys)
      ensures infos == SlotInfo(Value(), keys, id)
    {
      OwnedInRange(Value(), id);
      if id !in owned {
        return [];
      }
      assert OwnedBy(Value(), id) == owned[id];
      infos := CollectInfos(keys, owned[id]);
    }

    // ----- loading -----

    /** Allocate, then write header and data. */
    method FillSlot(id: string, layer: U32, bytes: Bytes)
      requires Mapped() && Geometry(Value()) && freeList != []
      requires forall i :: 0 <= i < |freeList| ==> freeList[i] < numSlots
      requires |bytes| <= slotSize
      modifies this, mem
      ensures Mapped() && Value() == Place(old(Value()), id, layer, bytes)
    {
      var slot := TakeSlot(id, layer);
      CopyToSlot(slot, bytes);
    }

    /** The slot an index entry describes. */
    method FillFrom(file: Bytes, e: Entry, id: string)
      requires Mapped() && Geometry(Value()) && freeList != []
      requires forall i :: 0 <= i < |freeList| ==> freeList[i] < numSlots
      requires Usable(e) && e.offset + e.length <= |file| && e.length <= slotSize - SLOT_HEADER_SIZE
      modifies this, mem
      ensures Mapped() && Value() == LoadOne(old(Value()), file, e, id)
    {
      FillSlot(id, e.layer, SlotImage(file, e));
    }

    /** One pass of the load loop, its checks having passed. */
    method LoadEntry(file: Bytes, e: Entry, id: string)
      requires Valid() && freeList != [] && Usable(e)
      requires e.offset + e.length <= |file| && e.length <= slotSize - SLOT_HEADER_SIZE
      modifies this, mem
      ensures Valid() && Value() == LoadOne(old(Value()), file, e, id)
    {
      LoadOneKeeps(Value(), file, e, id);
      FillFrom(file, e, id);
    }

    /** The load loop; what was loaded before a failure stays. */
    method LoadAll(file: Bytes, entries: seq<Entry>, id: string, crc: Checksum) returns (r: Option<LoadError>)
      requires Valid() && forall i :: 0 <= i < |entries| ==> Usable(entries[i])
      modifies this, mem
      ensures Valid() && LoadEntries(old(Value()), file, entries, id, crc) == (Value(), r)
    {
      assert entries[0..] == entries;
      for i := 0 to |entries|
        invariant Valid()
        invariant LoadEntries(Value(), file, entries[i..], id, crc) == LoadEntries(old(Value()), file, entries, id, crc)
      {
        var e := entries[i];
        assert entries[i..][0] == e && entries[i..][1..] == entries[i + 1..];
        var bad := Check(slotSize, file, e, crc);
        if bad.Some? {
          return bad;
        }
        if freeList == [] {
          return Some(Exhausted);
        }
        LoadEntry(file, e, id);
      }
      return None;
    }

    /** `load_spilled_checkpoint`. */
    method LoadSpilled(file: Bytes, id: string, crc: Checksum) returns (r: Option<LoadError>)
      requires Valid()
      modifies this, mem
      ensures Valid() && Load(old(Value()), file, id, crc) == (Value(), r)
    {
      if |file| < 16 {
        return Some(TooShort);
      }
      if file[0..8] != SPILL_MAGIC {
        return Some(BadMagic);
      }
      if FromLe(file[8..12]) != SPILL_VERSION {
        return Some(BadVersion);
      }
      var n := FromLe(file[12..16]);
      if |file| < 16 + n * ENTRY_SIZE {
        return Some(TruncatedIndex);
      }
      var entries := ReadIndex(file, n);
      if entries.None? {
        return Some(BadDtype);
      }
      r := LoadAll(file, entries.value, id, crc);
    }

    // ----- spilling -----

    /** The payload of a record, read out of its slot. */
    method ReadPayload(x: Info) returns (data: Bytes)
      requires Mapped() && Geometry(Value()) && x.slot < numSlots
      ensures data == Payload(Value(), x)
    {
      var n := Min(x.header.byteLen, slotSize - SLOT_HEADER_SIZE);
      var bytes := ReadSlot(x.slot, SLOT_HEADER_SIZE + n);
      data := bytes[SLOT_HEADER_SIZE..];
    }

    /** The payloads the first loop of `spill_checkpoint` collects. */
    method ReadPayloads(infos: seq<Info>) returns (data: seq<Bytes>)
      requires Mapped() && InRange(Value(), infos)
      ensures data == Payloads(Value(), infos)
    {
      data := [];
      for i := 0 to |infos|
        invariant |data| == i && forall j :: 0 <= j < i ==> data[j] == Payload(Value(), infos[j])
      {
        var payload := ReadPayload(infos[i]);
        data := data + [payload];
      }
    }

    /** The bytes `spill_checkpoint` writes. */
    method BuildFile(infos: seq<Info>, crc: Checksum) returns (file: Bytes)
      requires Mapped() && InRange(Value(), infos)
      ensures file == SpillBytes(Value(), crc, infos)
    {
      var start := Align(HeaderSize(|infos|));
      var data := ReadPayloads(infos);
      var entries := BuildEntries(Value(), infos, data, crc, start);
      file := WriteFile(entries, data);
    }

    /** `spill_checkpoint` up to the file it writes. */
    method SpillCheckpoint(id: string, keys: seq<Key>, crc: Checksum) returns (r: Result<Bytes, SpillError>)
      requires Valid() && IterationOrder(index, keys)
      modifies this
      ensures Valid()
      ensures match Spill(old(Value()), keys, id, crc)
              case Err(e) => r == Err(e) && Value() == old(Value())
              case Ok((file, a)) => r == Ok(file) && Value() == a
    {
      var infos := SlotInfoForCheckpoint(id, keys);
      if infos == [] {
        return Err(CheckpointNotFound);
      }
      if |infos| >= 0x1_0000_0000 {
        return Err(TooManySlots);
      }
      InfosInRange(Value(), keys, id);
      var file := BuildFile(infos, crc);
      FreeCheckpoint(id);
      return Ok(file);
    }
  }

  /** `align_up(n, 64)`. */
  method Align(n: nat) returns (r: nat)
    ensures r == Padded(n)
  {
    AlignUpPads(n);
    r := AlignUp(n, 64);
  }

  method WriteIndex(head: Bytes, entries: seq<Entry>) returns (file: Bytes)
    requires forall i :: 0 <= i < |entries| ==> |entries[i].shape| == 6
    ensures file == head + EntriesBytes(entries)
  {
    file := head;
    assert entries[0..] == entries;
    for i := 0 to |entries|
      invariant file + EntriesBytes(entries[i..]) == head + EntriesBytes(entries)
    {
      assert entries[i..][1..] == entries[i + 1..];
      file := file + EntryBytes(entries[i]);
    }
  }

  method WriteData(front: Bytes, data: seq<Bytes>) returns (file: Bytes)
    ensures file == front + Block(data)
  {
    file := front;
    assert data[0..] == data;
    for i := 0 to |data|
      invariant file + Block(data[i..]) == front + Block(data)
    {
      assert data[i..][1..] == data[i + 1..];
      var padded := Align(|data[i]|);
      file := file + data[i];
      file := file + Zeros(padded - |data[i]|);
    }
  }

  /** The second half of `spill_checkpoint`: header, index, padding, padded payloads. */
  method WriteFile(entries: seq<Entry>, data: seq<Bytes>) returns (file: Bytes)
    requires |entries| == |data| && forall i :: 0 <= i < |entries| ==> |entries[i].shape| == 6
    ensures file == SPILL_MAGIC + ToLe(SPILL_VERSION, 4) + ToLe(|entries|, 4) + EntriesBytes(entries)
                    + Zeros(DataStart(|entries|) - HeaderSize(|entries|)) + Block(data)
  {
    file := SPILL_MAGIC + ToLe(SPILL_VERSION, 4) + ToLe(|entries|, 4);
    file := WriteIndex(file, entries);
    var pos := 16 + |entries| * ENTRY_SIZE;
    var start := Align(pos);
    file := file + Zeros(start - pos);
    file := WriteData(file, data);
  }

  // ----- loading -----

  /** The index loop of `load_spilled_checkpoint`. */
  method ReadIndex(file: Bytes, n: nat) returns (r: Option<seq<Entry>>)
    requires HeaderSize(n) <= |file|
    ensures r == ReadEntries(file, 0, n)
  {
    var entries: seq<Entry> := [];
    for i := 0 to n
      invariant |entries| == i && forall j :: 0 <= j < i ==> NthEntry(file, n, j) == Some(entries[j])
    {
      var at := 16 + i * ENTRY_SIZE;
      var e := ReadEntry(file[at..at + ENTRY_SIZE]);
      if e.None? {
        NoEntry(file, 0, n, i);
        return None;
      }
      entries := entries + [e.value];
    }
    AllEntries(file, 0, n, entries);
    return Some(entries);
  }
}
