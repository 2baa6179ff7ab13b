/**
 Spilling a checkpoint to a file and loading it back
 (crates/rocket-surgeon-worker/src/checkpoint.rs, `spill_checkpoint` and
 `load_spilled_checkpoint`). CRC32 is any function of the bytes.
 */
module SpillFile {
  import opened Prelude
  import opened Bits
  import opened Sorting
  import opened SlotFormat
  import opened Arenas

  type Bytes = seq<Byte>
  type Checksum = Bytes -> U32

  /** "CKPTSPIL". */
  const SPILL_MAGIC: Bytes := [0x43, 0x4B, 0x50, 0x54, 0x53, 0x50, 0x49, 0x4C]
  const SPILL_VERSION: nat := 1

  /** `align_up` for a power of two. */
  function AlignUp(val: nat, align: nat): nat
    requires align > 0
  {
    AndNot(val + align - 1, align - 1)
  }

  lemma AlignUpHolds(val: nat, k: nat)
    ensures var r := AlignUp(val, Pow2(k)); val <= r < val + Pow2(k) && r % Pow2(k) == 0
  {
    var p := Pow2(k);
    ClearIsRound(val + p - 1, k);
    RoundDown(val + p - 1, p);
  }

  /** The next multiple of 64. */
  function Padded(n: nat): nat { (n + 63) / 64 * 64 }

  lemma SixthPower()
    ensures Pow2(6) == 64
  {
    assert Pow2(3) == 8;
    assert Pow2(6) == 8 * Pow2(3);
  }

  lemma OneMultiple(n: nat, r: nat)
    requires n <= r < n + 64 && r % 64 == 0
    ensures r == Padded(n)
  {
  }

  /** The bit mask of `align_up(n, 64)` rounds up to a multiple of 64. */
  lemma AlignUpPads(n: nat)
    ensures AlignUp(n, 64) == Padded(n) && n <= Padded(n) < n + 64 && Padded(n) % 64 == 0
  {
    SixthPower();
    AlignUpHolds(n, 6);
    OneMultiple(n, AlignUp(n, 64));
  }

  // ----- the file -----

  /** The bytes of a slot's tensor, at most what the slot can hold. */
  function Length(a: Arena, x: Info): nat
    requires a.slotSize >= SLOT_HEADER_SIZE
  {
    Min(x.header.byteLen, a.slotSize - SLOT_HEADER_SIZE)
  }

  function Payload(a: Arena, x: Info): (s: Bytes)
    requires Geometry(a) && x.slot < |a.mem|
    ensures |s| == Length(a, x)
  {
    a.mem[x.slot][SLOT_HEADER_SIZE..SLOT_HEADER_SIZE + Length(a, x)]
  }

  predicate InRange(a: Arena, infos: seq<Info>) {
    Geometry(a) && forall i :: 0 <= i < |infos| ==> infos[i].slot < |a.mem| && Storable(infos[i].header)
  }

  function EntryFor(a: Arena, crc: Checksum, x: Info, offset: nat): Entry
    requires Geometry(a) && x.slot < |a.mem|
  {
    Entry(x.layer, x.header.dtype, x.header.ndim, x.header.shape, offset, Length(a, x), crc(Payload(a, x)))
  }

  /** Where the data of entry `i` goes when the first goes to `offset`. */
  function OffsetAt(a: Arena, infos: seq<Info>, offset: nat, i: nat): nat
    requires InRange(a, infos) && i <= |infos|
  {
    if i == 0 then offset else OffsetAt(a, infos, offset, i - 1) + Padded(Length(a, infos[i - 1]))
  }

  /** The first `n` index entries, data starting at `offset`. */
  function EntriesUpTo(a: Arena, crc: Checksum, infos: seq<Info>, offset: nat, n: nat): (es: seq<Entry>)
    requires InRange(a, infos) && n <= |infos|
    ensures |es| == n
  {
    if n == 0 then []
    else EntriesUpTo(a, crc, infos, offset, n - 1) + [EntryFor(a, crc, infos[n - 1], OffsetAt(a, infos, offset, n - 1))]
  }

  lemma {:induction false} EntryUpToIs(a: Arena, crc: Checksum, infos: seq<Info>, offset: nat, n: nat, i: nat)
    requires InRange(a, infos) && i < n <= |infos|
    ensures EntriesUpTo(a, crc, infos, offset, n)[i] == EntryFor(a, crc, infos[i], OffsetAt(a, infos, offset, i))
  {
    if i < n - 1 {
      EntryUpToIs(a, crc, infos, offset, n - 1, i);
    }
  }

  /** The index entries, data starting at `offset`. */
  function Entries(a: Arena, crc: Checksum, infos: seq<Info>, offset: nat): (es: seq<Entry>)
    requires InRange(a, infos)
    ensures |es| == |infos| && forall i :: 0 <= i < |es| ==> |es[i].shape| == 6
  {
    var es := EntriesUpTo(a, crc, infos, offset, |infos|);
    assert forall i :: 0 <= i < |es| ==> |es[i].shape| == 6 by {
      forall i | 0 <= i < |es| ensures |es[i].shape| == 6 {
        EntryUpToIs(a, crc, infos, offset, |infos|, i);
      }
    }
    es
  }

  lemma EntryIs(a: Arena, crc: Checksum, infos: seq<Info>, offset: nat, i: nat)
    requires InRange(a, infos) && i < |infos|
    ensures Entries(a, crc, infos, offset)[i] == EntryFor(a, crc, infos[i], OffsetAt(a, infos, offset, i))
  {
    EntryUpToIs(a, crc, infos, offset, |infos|, i);
  }

  function EntriesBytes(es: seq<Entry>): (s: Bytes)
    requires forall i :: 0 <= i < |es| ==> |es[i].shape| == 6
    ensures |s| == ENTRY_SIZE * |es|
  {
    if es == [] then [] else EntryBytes(es[0]) + EntriesBytes(es[1..])
  }

  function Payloads(a: Arena, infos: seq<Info>): seq<Bytes>
    requires InRange(a, infos)
  {
    seq(|infos|, i requires 0 <= i < |infos| => Payload(a, infos[i]))
  }

  /** Byte strings padded and laid end to end. */
  function Block(data: seq<Bytes>): Bytes {
    if data == [] then [] else data[0] + Zeros(Padded(|data[0]|) - |data[0]|) + Block(data[1..])
  }

  function HeaderSize(n: nat): nat { 16 + ENTRY_SIZE * n }

  function DataStart(n: nat): nat { Padded(HeaderSize(n)) }

  function SpillBytes(a: Arena, crc: Checksum, infos: seq<Info>): Bytes
    requires InRange(a, infos)
  {
    SPILL_MAGIC + ToLe(SPILL_VERSION, 4) + ToLe(|infos|, 4)
    + EntriesBytes(Entries(a, crc, infos, DataStart(|infos|)))
    + Zeros(DataStart(|infos|) - HeaderSize(|infos|)) + Block(Payloads(a, infos))
  }

  datatype SpillError = CheckpointNotFound | TooManySlots

  /** `spill_checkpoint`: the file's bytes and the arena with the checkpoint freed. */
  ghost function Spill(a: Arena, keys: seq<Key>, id: string, crc: Checksum): Result<(Bytes, Arena), SpillError>
    requires Inv(a) && IterationOrder(a.index, keys)
  {
    var infos := SlotInfo(a, keys, id);
    if infos == [] then Err(CheckpointNotFound)
    else if |infos| >= 0x1_0000_0000 then Err(TooManySlots)
    else
      InfosInRange(a, keys, id);
      Ok((SpillBytes(a, crc, infos), Free(a, id)))
  }

  lemma InfosInRange(a: Arena, keys: seq<Key>, id: string)
    requires Inv(a) && IterationOrder(a.index, keys)
    ensures InRange(a, SlotInfo(a, keys, id))
  {
    var infos := SlotInfo(a, keys, id);
    SlotInfoExact(a, keys, id);
    forall i | 0 <= i < |infos| ensures infos[i].slot < |a.mem| && Storable(infos[i].header) {
      assert infos[i] in infos;
      assert Records(a, id, infos[i]);
      assert Points(|a.mem|, a.slots, a.index, a.owned, (id, infos[i].layer));
      ReadHeaderStorable(a.mem[infos[i].slot][..SLOT_HEADER_SIZE]);
    }
  }

  // ----- loading -----

  datatype LoadError =
    | TooShort | BadMagic | BadVersion | TruncatedIndex | BadDtype | TruncatedData | TooLarge | BadCrc | Exhausted

  predicate Usable(e: Entry) { |e.shape| == 6 && e.layer < 0x1_0000_0000 }

  lemma ReadEntryUsable(s: Bytes)
    requires |s| == ENTRY_SIZE && ReadEntry(s).Some?
    ensures Usable(ReadEntry(s).value)
  {
    Widths();
    FromLeBound(s[0..4]);
  }

  /** Index entry number `i` of `n`. */
  function NthEntry(file: Bytes, n: nat, i: nat): (r: Option<Entry>)
    requires i < n && HeaderSize(n) <= |file|
    ensures r.Some? ==> Usable(r.value)
  {
    var s := file[HeaderSize(i)..HeaderSize(i + 1)];
    assert ReadEntry(s).Some? ==> Usable(ReadEntry(s).value) by {
      if ReadEntry(s).Some? {
        ReadEntryUsable(s);
      }
    }
    ReadEntry(s)
  }

  /** The `n` index entries from number `i` on. */
  function ReadEntries(file: Bytes, i: nat, n: nat): (r: Option<seq<Entry>>)
    requires i <= n && HeaderSize(n) <= |file|
    ensures r.Some? ==> |r.value| == n - i && forall j :: 0 <= j < |r.value| ==> Usable(r.value[j])
    decreases n - i
  {
    if i == n then Some([])
    else
      var e := NthEntry(file, n, i);
      var more := ReadEntries(file, i + 1, n);
      if e.None? || more.None? then None else Some([e.value] + more.value)
  }

  lemma {:induction false} NoEntry(file: Bytes, i: nat, n: nat, k: nat)
    requires i <= k < n && HeaderSize(n) <= |file| && NthEntry(file, n, k).None?
    ensures ReadEntries(file, i, n).None?
    decreases n - i
  {
    if i < k {
      NoEntry(file, i + 1, n, k);
    }
  }

  lemma {:induction false} AllEntries(file: Bytes, i: nat, n: nat, es: seq<Entry>)
    requires i <= n == |es| && HeaderSize(n) <= |file| && forall j :: 0 <= j < n ==> NthEntry(file, n, j) == Some(es[j])
    ensures ReadEntries(file, i, n) == Some(es[i..])
    decreases n - i
  {
    if i < n {
      AllEntries(file, i + 1, n, es);
      assert es[i..] == [es[i]] + es[i + 1..];
    } else {
      assert es[i..] == [];
    }
  }

  function HeaderOf(e: Entry): SlotHeader {
    SlotHeader(e.dtype, e.ndim, e.shape, e.length)
  }

  /** The checks on one entry, in the order they are made. */
  function Check(slotSize: nat, file: Bytes, e: Entry, crc: Checksum): Option<LoadError>
    requires slotSize >= SLOT_HEADER_SIZE
  {
    if e.offset + e.length > |file| then Some(TruncatedData)
    else if e.length > slotSize - SLOT_HEADER_SIZE then Some(TooLarge)
    else if crc(file[e.offset..e.offset + e.length]) != e.crc then Some(BadCrc)
    else None
  }

  /** Entry by entry; a failure leaves what was loaded before it in place. */
  ghost function LoadEntries(a: Arena, file: Bytes, es: seq<Entry>, id: string, crc: Checksum): (Arena, Option<LoadError>)
    requires Inv(a) && forall i :: 0 <= i < |es| ==> Usable(es[i])
    decreases |es|
  {
    if es == [] then (a, None)
    else
      var e := es[0];
      var bad := Check(a.slotSize, file, e, crc);
      if bad.Some? then (a, bad)
      else if a.free == [] then (a, Some(Exhausted))
      else
        LoadOneKeeps(a, file, e, id);
        LoadEntries(LoadOne(a, file, e, id), file, es[1..], id, crc)
  }

  /** Allocate, then write header and data. */
  function LoadOne(a: Arena, file: Bytes, e: Entry, id: string): Arena
    requires Geometry(a) && a.free != [] && (forall i :: 0 <= i < |a.free| ==> a.free[i] < |a.mem|) && Usable(e)
    requires e.offset + e.length <= |file| && e.length <= a.slotSize - SLOT_HEADER_SIZE
  {
    Place(a, id, e.layer, SlotImage(file, e))
  }

  /** The header and data an entry describes. */
  function SlotImage(file: Bytes, e: Entry): (bytes: Bytes)
    requires Usable(e) && e.offset + e.length <= |file|
    ensures |bytes| == SLOT_HEADER_SIZE + e.length
  {
    HeaderBytes(HeaderOf(e)) + file[e.offset..e.offset + e.length]
  }

  /** Allocate a slot and write it. */
  function Place(a: Arena, id: string, layer: U32, bytes: Bytes): Arena
    requires Geometry(a) && a.free != [] && (forall i :: 0 <= i < |a.free| ==> a.free[i] < |a.mem|)
    requires |bytes| <= a.slotSize
  {
    var (b, slot) := Alloc(a, id, layer).value;
    Store(b, slot, bytes)
  }

  lemma PlaceKeeps(a: Arena, id: string, layer: U32, bytes: Bytes)
    requires Inv(a) && a.free != [] && |bytes| <= a.slotSize
    ensures Inv(Place(a, id, layer, bytes))
  {
    AllocKeeps(a, id, layer);
    AllocGeometry(a, id, layer);
    var r := Alloc(a, id, layer).value;
    StoreKeeps(r.0, r.1, bytes);
  }

  lemma LoadOneKeeps(a: Arena, file: Bytes, e: Entry, id: string)
    requires Inv(a) && a.free != [] && Usable(e)
    requires e.offset + e.length <= |file| && e.length <= a.slotSize - SLOT_HEADER_SIZE
    ensures Inv(LoadOne(a, file, e, id))
  {
    PlaceKeeps(a, id, e.layer, SlotImage(file, e));
  }

  /** `load_spilled_checkpoint`. */
  ghost function Load(a: Arena, file: Bytes, id: string, crc: Checksum): (Arena, Option<LoadError>)
    requires Inv(a)
  {
    if |file| < 16 then (a, Some(TooShort))
    else if file[0..8] != SPILL_MAGIC then (a, Some(BadMagic))
    else if FromLe(file[8..12]) != SPILL_VERSION then (a, Some(BadVersion))
    else
      var n := FromLe(file[12..16]);
      if |file| < HeaderSize(n) then (a, Some(TruncatedIndex))
      else
        var es := ReadEntries(file, 0, n);
        if es.None? then (a, Some(BadDtype)) else LoadEntries(a, file, es.value, id, crc)
  }

  // ----- where everything is in the file -----

  /** The length of the first `i` padded byte strings. */
  function BlockOffset(data: seq<Bytes>, i: nat): nat
    requires i <= |data|
  {
    if i == 0 then 0 else BlockOffset(data, i - 1) + Padded(|data[i - 1]|)
  }

  lemma {:induction false} BlockShift(data: seq<Bytes>, i: nat)
    requires 0 < i <= |data|
    ensures BlockOffset(data, i) == Padded(|data[0]|) + BlockOffset(data[1..], i - 1)
  {
    if i > 1 {
      BlockShift(data, i - 1);
    }
  }

  lemma Behind(x: Bytes, rest: Bytes, at: nat, k: nat, n: nat)
    requires at == |x| + k && k + n <= |rest|
    ensures (x + rest)[at..at + n] == rest[k..k + n]
  {
  }

  /** A block is its first byte string, padded, and the block of the others. */
  lemma FirstOfBlock(data: seq<Bytes>) returns (x: Bytes)
    requires data != []
    ensures Block(data) == x + Block(data[1..])
    ensures |data[0]| <= |x| == Padded(|data[0]|) && x[..|data[0]|] == data[0]
  {
    x := data[0] + Zeros(Padded(|data[0]|) - |data[0]|);
  }

  /** Each byte string stands at its offset in the block. */
  lemma {:induction false} BlockAt(data: seq<Bytes>, i: nat)
    requires i < |data|
    ensures BlockOffset(data, i) + |data[i]| <= |Block(data)|
    ensures Block(data)[BlockOffset(data, i)..BlockOffset(data, i) + |data[i]|] == data[i]
  {
    var x := FirstOfBlock(data);
    var rest := Block(data[1..]);
    if i == 0 {
      assert (x + rest)[0..|data[0]|] == x[..|data[0]|];
    } else {
      BlockAt(data[1..], i - 1);
      BlockShift(data, i);
      Behind(x, rest, BlockOffset(data, i), BlockOffset(data[1..], i - 1), |data[i]|);
    }
  }

  lemma {:induction false} OffsetIsBlockOffset(a: Arena, infos: seq<Info>, offset: nat, i: nat)
    requires InRange(a, infos) && i <= |infos|
    ensures OffsetAt(a, infos, offset, i) == offset + BlockOffset(Payloads(a, infos), i)
  {
    if i > 0 {
      OffsetIsBlockOffset(a, infos, offset, i - 1);
    }
  }

  lemma RowAt(x: Bytes, rest: Bytes, i: nat)
    requires |x| == ENTRY_SIZE && ENTRY_SIZE * i <= |rest|
    ensures (x + rest)[ENTRY_SIZE * i..ENTRY_SIZE * (i + 1)]
         == if i == 0 then x else rest[ENTRY_SIZE * (i - 1)..ENTRY_SIZE * i]
  {
  }

  lemma {:induction false} EntryAt(es: seq<Entry>, i: nat)
    requires i < |es| && forall j :: 0 <= j < |es| ==> |es[j].shape| == 6
    ensures EntriesBytes(es)[ENTRY_SIZE * i..ENTRY_SIZE * (i + 1)] == EntryBytes(es[i])
  {
    RowAt(EntryBytes(es[0]), EntriesBytes(es[1..]), i);
    if i > 0 {
      EntryAt(es[1..], i - 1);
    }
  }

  /** The five parts of a spill file. */
  lemma FileParts(a: Arena, crc: Checksum, infos: seq<Info>)
    requires InRange(a, infos) && |infos| < 0x1_0000_0000
    ensures var file, n := SpillBytes(a, crc, infos), |infos|;
            var es := Entries(a, crc, infos, DataStart(n));
            && HeaderSize(n) <= DataStart(n) < HeaderSize(n) + 64
            && |file| == DataStart(n) + |Block(Payloads(a, infos))|
            && file[0..8] == SPILL_MAGIC && FromLe(file[8..12]) == SPILL_VERSION && FromLe(file[12..16]) == n
            && file[16..HeaderSize(n)] == EntriesBytes(es)
            && file[DataStart(n)..] == Block(Payloads(a, infos))
  {
    var n := |infos|;
    var file, es := SpillBytes(a, crc, infos), EntriesBytes(Entries(a, crc, infos, DataStart(n)));
    var pad, data := Zeros(DataStart(n) - HeaderSize(n)), Block(Payloads(a, infos));
    var v, c := ToLe(SPILL_VERSION, 4), ToLe(n, 4);
    assert file == SPILL_MAGIC + v + c + es + pad + data;
    Slices(SPILL_MAGIC, v, c, es, pad, data);
    Le4(SPILL_VERSION);
    Le4(n);
  }

  lemma Slices(m: Bytes, v: Bytes, c: Bytes, es: Bytes, pad: Bytes, data: Bytes)
    requires |m| == 8 && |v| == |c| == 4
    ensures var f := m + v + c + es + pad + data;
            && |f| == 16 + |es| + |pad| + |data|
            && f[0..8] == m && f[8..12] == v && f[12..16] == c && f[16..16 + |es|] == es
            && f[16 + |es| + |pad|..] == data
  {
  }

  // ----- every number fits its field -----

  lemma StepFits(a: Arena, x: Info)
    requires Geometry(a) && x.slot < |a.mem|
    ensures Padded(Length(a, x)) <= a.slotSize
  {
  }

  lemma {:induction false} OffsetFits(a: Arena, infos: seq<Info>, offset: nat, i: nat)
    requires InRange(a, infos) && i <= |infos|
    ensures offset <= OffsetAt(a, infos, offset, i) <= offset + i * a.slotSize
  {
    if i > 0 {
      OffsetFits(a, infos, offset, i - 1);
      StepFits(a, infos[i - 1]);
      assert i * a.slotSize == (i - 1) * a.slotSize + a.slotSize;
    }
  }

  lemma SliceOfSlice(f: Bytes, lo: nat, hi: nat, i: nat, j: nat)
    requires lo <= hi <= |f| && i <= j <= hi - lo
    ensures f[lo..hi][i..j] == f[lo + i..lo + j]
  {
    assert forall k :: 0 <= k < j - i ==> f[lo..hi][i..j][k] == f[lo + i..lo + j][k];
  }

  lemma RowOfFile(file: Bytes, n: nat, rows: Bytes, i: nat)
    requires i < n && HeaderSize(n) <= |file| && |rows| == ENTRY_SIZE * n && file[16..HeaderSize(n)] == rows
    ensures file[HeaderSize(i)..HeaderSize(i + 1)] == rows[ENTRY_SIZE * i..ENTRY_SIZE * (i + 1)]
  {
    SliceOfSlice(file, 16, HeaderSize(n), ENTRY_SIZE * i, ENTRY_SIZE * (i + 1));
  }

  lemma EntrySlice(file: Bytes, es: seq<Entry>, i: nat)
    requires i < |es| && HeaderSize(|es|) <= |file| && forall j :: 0 <= j < |es| ==> |es[j].shape| == 6
    requires file[16..HeaderSize(|es|)] == EntriesBytes(es)
    ensures file[HeaderSize(i)..HeaderSize(i + 1)] == EntryBytes(es[i])
  {
    EntryAt(es, i);
    RowOfFile(file, |es|, EntriesBytes(es), i);
  }

  lemma EntryReadsBack(file: Bytes, es: seq<Entry>, i: nat)
    requires i < |es| && HeaderSize(|es|) <= |file| && (forall j :: 0 <= j < |es| ==> |es[j].shape| == 6)
    requires file[16..HeaderSize(|es|)] == EntriesBytes(es) && StorableEntry(es[i])
    ensures NthEntry(file, |es|, i) == Some(es[i])
  {
    EntrySlice(file, es, i);
    EntryRoundTrip(es[i]);
  }

  lemma ReadEntriesBack(file: Bytes, es: seq<Entry>)
    requires HeaderSize(|es|) <= |file|
    requires forall j :: 0 <= j < |es| ==> |es[j].shape| == 6 && StorableEntry(es[j])
    requires file[16..HeaderSize(|es|)] == EntriesBytes(es)
    ensures ReadEntries(file, 0, |es|) == Some(es)
  {
    forall i | 0 <= i < |es| ensures NthEntry(file, |es|, i) == Some(es[i]) {
      EntryReadsBack(file, es, i);
    }
    AllEntries(file, 0, |es|, es);
    assert es[0..] == es;
  }

  /** Distinct numbers below `n` are at most `n` many. */
  lemma {:induction false} Pigeonhole(s: seq<nat>, n: nat)
    requires Distinct(s) && forall i :: 0 <= i < |s| ==> s[i] < n
    ensures |s| <= n
  {
    if s != [] {
      assert s[0] < n;
      if n - 1 in s {
        var k :| 0 <= k < |s| && s[k] == n - 1;
        Pigeonhole(s[..k] + s[k + 1..], n - 1);
      } else {
        assert forall i :: 0 <= i < |s| ==> s[i] != n - 1;
        Pigeonhole(s, n - 1);
      }
    }
  }

  // ----- loading good entries -----

  /** Entry `k` is at the same slot in both arenas, and the slot's bytes are the same. */
  ghost predicate Kept(a: Arena, b: Arena, k: Key) {
    && k in a.index && k in b.index && a.index[k] < |a.slots| && b.index[k] < |b.slots|
    && SlotOf(a.slots, a.index, k) == SlotOf(b.slots, b.index, k) < |a.mem| == |b.mem|
    && a.mem[SlotOf(a.slots, a.index, k)] == b.mem[SlotOf(a.slots, a.index, k)]
  }

  /** Layer `e.layer` of `id` is retrievable with `e`'s header and the file's bytes. */
  ghost predicate Loaded(b: Arena, id: string, e: Entry, file: Bytes) {
    && Inv(b) && Usable(e) && e.offset + e.length <= |file|
    && var r := GetSlot(b, id, e.layer);
    && r.Some? && r.value.1 == HeaderOf(e)
    && SLOT_HEADER_SIZE + e.length <= b.slotSize
    && b.mem[r.value.0][SLOT_HEADER_SIZE..SLOT_HEADER_SIZE + e.length] == file[e.offset..e.offset + e.length]
  }

  lemma KeptTransitive(a: Arena, b: Arena, c: Arena, k: Key)
    requires Kept(a, b, k) && Kept(b, c, k)
    ensures Kept(a, c, k)
  {
  }

  lemma KeptLoaded(a: Arena, b: Arena, id: string, e: Entry, file: Bytes)
    requires Inv(a) && Inv(b) && Usable(e) && e.offset + e.length <= |file| && a.slotSize == b.slotSize
    requires Loaded(a, id, e, file) && Kept(a, b, (id, e.layer))
    ensures Loaded(b, id, e, file)
  {
  }

  lemma OverwriteParts(slot: Bytes, header: Bytes, data: Bytes)
    requires |header| + |data| <= |slot|
    ensures var r := Overwrite(slot, header + data);
            r[..|header|] == header && r[|header|..|header| + |data|] == data
  {
  }

  /** What loading one entry does to the bookkeeping. */
  lemma LoadOneShape(a: Arena, file: Bytes, e: Entry, id: string)
    requires Inv(a) && a.free != [] && Usable(e)
    requires e.offset + e.length <= |file| && e.length <= a.slotSize - SLOT_HEADER_SIZE
    ensures var b, slot := LoadOne(a, file, e, id), a.free[|a.free| - 1];
            && b.slotSize == a.slotSize && b.free == a.free[..|a.free| - 1] && |b.mem| == |a.mem| && slot < |a.mem|
            && b.slots == a.slots + [Descriptor(slot, id, e.layer)] && b.index == a.index[(id, e.layer) := |a.slots|]
            && |b.mem[slot]| == a.slotSize
            && b.mem[slot][..SLOT_HEADER_SIZE] == HeaderBytes(HeaderOf(e))
            && b.mem[slot][SLOT_HEADER_SIZE..SLOT_HEADER_SIZE + e.length] == file[e.offset..e.offset + e.length]
            && forall s :: 0 <= s < |a.mem| && s != slot ==> b.mem[s] == a.mem[s]
  {
    var (b, slot) := Alloc(a, id, e.layer).value;
    OverwriteParts(b.mem[slot], HeaderBytes(HeaderOf(e)), file[e.offset..e.offset + e.length]);
  }

  /** An entry survives a change of another slot's bytes and another key's index entry. */
  lemma KeptIf(a: Arena, b: Arena, k: Key, slot: nat)
    requires k in a.index && a.index[k] < |a.slots| && SlotOf(a.slots, a.index, k) < |a.mem| == |b.mem|
    requires SlotOf(a.slots, a.index, k) != slot
    requires k in b.index && b.index[k] == a.index[k] && a.slots <= b.slots
    requires forall s :: 0 <= s < |a.mem| && s != slot ==> b.mem[s] == a.mem[s]
    ensures Kept(a, b, k)
  {
  }

  lemma LoadOneKept(a: Arena, file: Bytes, e: Entry, id: string, k: Key)
    requires Inv(a) && a.free != [] && Usable(e)
    requires e.offset + e.length <= |file| && e.length <= a.slotSize - SLOT_HEADER_SIZE
    requires k in a.index && k != (id, e.layer)
    ensures Kept(a, LoadOne(a, file, e, id), k)
  {
    var b, slot := LoadOne(a, file, e, id), a.free[|a.free| - 1];
    LoadOneShape(a, file, e, id);
    assert slot in a.free;
    assert Points(|a.mem|, a.slots, a.index, a.owned, k);
    KeptIf(a, b, k, slot);
  }

  lemma LoadedIf(b: Arena, id: string, e: Entry, file: Bytes, slot: nat)
    requires Inv(b) && Usable(e) && StorableEntry(e) && e.offset + e.length <= |file|
    requires (id, e.layer) in b.index && b.index[(id, e.layer)] < |b.slots|
    requires SlotOf(b.slots, b.index, (id, e.layer)) == slot < |b.mem| && SLOT_HEADER_SIZE + e.length <= b.slotSize
    requires b.mem[slot][..SLOT_HEADER_SIZE] == HeaderBytes(HeaderOf(e))
    requires b.mem[slot][SLOT_HEADER_SIZE..SLOT_HEADER_SIZE + e.length] == file[e.offset..e.offset + e.length]
    ensures Loaded(b, id, e, file)
  {
    HeaderRoundTrip(HeaderOf(e));
  }

  lemma LoadOneHolds(a: Arena, file: Bytes, e: Entry, id: string)
    requires Inv(a) && a.free != [] && Usable(e) && StorableEntry(e)
    requires e.offset + e.length <= |file| && e.length <= a.slotSize - SLOT_HEADER_SIZE
    ensures Inv(LoadOne(a, file, e, id)) && Loaded(LoadOne(a, file, e, id), id, e, file)
  {
    LoadOneKeeps(a, file, e, id);
    LoadOneShape(a, file, e, id);
    LoadedIf(LoadOne(a, file, e, id), id, e, file, a.free[|a.free| - 1]);
  }

  /** An entry for a layer not there yet that the checks pass. */
  ghost predicate Good(a: Arena, file: Bytes, id: string, e: Entry, crc: Checksum) {
    && Usable(e) && StorableEntry(e) && (id, e.layer) !in a.index
    && e.offset + e.length <= |file| && SLOT_HEADER_SIZE + e.length <= a.slotSize
    && crc(file[e.offset..e.offset + e.length]) == e.crc
  }

  ghost predicate EachGood(a: Arena, file: Bytes, es: seq<Entry>, id: string, crc: Checksum) {
    && (forall i :: 0 <= i < |es| ==> Good(a, file, id, es[i], crc))
    && (forall i, j :: 0 <= i < j < |es| ==> es[i].layer != es[j].layer)
  }

  /** Good entries, and room for all of them. */
  ghost predicate AllGood(a: Arena, file: Bytes, es: seq<Entry>, id: string, crc: Checksum) {
    Inv(a) && |es| <= |a.free| && EachGood(a, file, es, id, crc)
  }

  ghost predicate NewLayer(es: seq<Entry>, id: string, k: Key) {
    k.0 == id && exists i :: 0 <= i < |es| && es[i].layer == k.1
  }

  /** `b` is `a` with the layers of `es` added to checkpoint `id`, and nothing else touched. */
  ghost predicate AllLoaded(a: Arena, b: Arena, file: Bytes, es: seq<Entry>, id: string) {
    && Inv(b) && b.slotSize == a.slotSize
    && (forall i :: 0 <= i < |es| ==> Loaded(b, id, es[i], file))
    && (forall k :: k in a.index ==> Kept(a, b, k))
    && (forall k :: k in b.index ==> k in a.index || NewLayer(es, id, k))
  }

  lemma GoodStays(a: Arena, mid: Arena, file: Bytes, id: string, e: Entry, first: Entry, crc: Checksum, d: nat)
    requires Good(a, file, id, e, crc) && Usable(first) && e.layer != first.layer
    requires mid.slotSize == a.slotSize && mid.index == a.index[(id, first.layer) := d]
    ensures Good(mid, file, id, e, crc)
  {
  }

  lemma RestGood(a: Arena, mid: Arena, file: Bytes, es: seq<Entry>, id: string, crc: Checksum)
    requires EachGood(a, file, es, id, crc) && es != [] && Good(a, file, id, es[0], crc)
    requires mid.slotSize == a.slotSize && mid.index == a.index[(id, es[0].layer) := |a.slots|]
    ensures EachGood(mid, file, es[1..], id, crc)
  {
    forall i | 0 <= i < |es[1..]| ensures Good(mid, file, id, es[1..][i], crc) {
      GoodStays(a, mid, file, id, es[i + 1], es[0], crc, |a.slots|);
    }
  }

  lemma FirstGood(a: Arena, file: Bytes, es: seq<Entry>, id: string, crc: Checksum)
    requires Inv(a) && a.free != [] && EachGood(a, file, es, id, crc) && es != []
    ensures Good(a, file, id, es[0], crc)
    ensures var mid := LoadOne(a, file, es[0], id);
            && Inv(mid) && |mid.free| == |a.free| - 1 && EachGood(mid, file, es[1..], id, crc)
            && Loaded(mid, id, es[0], file)
  {
    assert Good(a, file, id, es[0], crc);
    var mid := LoadOne(a, file, es[0], id);
    LoadOneHolds(a, file, es[0], id);
    LoadOneShape(a, file, es[0], id);
    RestGood(a, mid, file, es, id, crc);
  }

  lemma NewLayerShift(es: seq<Entry>, id: string, k: Key)
    requires es != [] && (k == (id, es[0].layer) || NewLayer(es[1..], id, k))
    ensures NewLayer(es, id, k)
  {
    if k == (id, es[0].layer) {
      assert es[0].layer == k.1;
    } else {
      var i :| 0 <= i < |es[1..]| && es[1..][i].layer == k.1;
      assert es[i + 1].layer == k.1;
    }
  }

  lemma LoadedShift(mid: Arena, b: Arena, file: Bytes, es: seq<Entry>, id: string, i: nat)
    requires i < |es| && Loaded(mid, id, es[0], file) && Kept(mid, b, (id, es[0].layer))
    requires Inv(b) && b.slotSize == mid.slotSize && forall j :: 0 <= j < |es[1..]| ==> Loaded(b, id, es[1..][j], file)
    ensures Loaded(b, id, es[i], file)
  {
    if i == 0 {
      KeptLoaded(mid, b, id, es[0], file);
    } else {
      assert es[i] == es[1..][i - 1];
    }
  }

  lemma LoadedOneMore(a: Arena, mid: Arena, b: Arena, file: Bytes, es: seq<Entry>, id: string)
    requires es != [] && Loaded(mid, id, es[0], file) && mid.slotSize == a.slotSize
    requires forall k :: k in a.index ==> Kept(a, mid, k)
    requires forall k :: k in mid.index ==> k in a.index || k == (id, es[0].layer)
    requires (id, es[0].layer) in mid.index && AllLoaded(mid, b, file, es[1..], id)
    ensures AllLoaded(a, b, file, es, id)
  {
    forall k | k in a.index ensures Kept(a, b, k) {
      KeptTransitive(a, mid, b, k);
    }
    forall i | 0 <= i < |es| ensures Loaded(b, id, es[i], file) {
      LoadedShift(mid, b, file, es, id, i);
    }
    forall k | k in b.index ensures k in a.index || NewLayer(es, id, k) {
      if k !in a.index {
        NewLayerShift(es, id, k);
      }
    }
  }

  lemma GoodUsable(a: Arena, file: Bytes, es: seq<Entry>, id: string, crc: Checksum)
    requires EachGood(a, file, es, id, crc)
    ensures forall i :: 0 <= i < |es| ==> Usable(es[i])
  {
    forall i | 0 <= i < |es| ensures Usable(es[i]) {
      assert Good(a, file, id, es[i], crc);
    }
  }

  lemma NothingLoaded(a: Arena, file: Bytes, id: string)
    requires Inv(a)
    ensures AllLoaded(a, a, file, [], id)
  {
    forall k | k in a.index ensures Kept(a, a, k) {
      assert Points(|a.mem|, a.slots, a.index, a.owned, k);
    }
  }

  lemma FirstLoaded(a: Arena, mid: Arena, b: Arena, file: Bytes, es: seq<Entry>, id: string, crc: Checksum)
    requires Inv(a) && a.free != [] && es != [] && Good(a, file, id, es[0], crc) && mid == LoadOne(a, file, es[0], id)
    requires Inv(mid) && Loaded(mid, id, es[0], file) && AllLoaded(mid, b, file, es[1..], id)
    ensures AllLoaded(a, b, file, es, id)
  {
    forall k | k in a.index ensures Kept(a, mid, k) {
      LoadOneKept(a, file, es[0], id, k);
    }
    LoadOneShape(a, file, es[0], id);
    LoadedOneMore(a, mid, b, file, es, id);
  }

  /** Good entries all load, and disturb nothing. */
  lemma {:induction false} LoadEntriesHold(a: Arena, file: Bytes, es: seq<Entry>, id: string, crc: Checksum)
    requires AllGood(a, file, es, id, crc)
    ensures forall i :: 0 <= i < |es| ==> Usable(es[i])
    ensures LoadEntries(a, file, es, id, crc).1.None?
    ensures AllLoaded(a, LoadEntries(a, file, es, id, crc).0, file, es, id)
    decreases |es|
  {
    GoodUsable(a, file, es, id, crc);
    if es == [] {
      NothingLoaded(a, file, id);
    } else {
      FirstGood(a, file, es, id, crc);
      var mid := LoadOne(a, file, es[0], id);
      LoadEntriesHold(mid, file, es[1..], id, crc);
      LoadStep(a, file, es, id, crc);
      FirstLoaded(a, mid, LoadEntries(mid, file, es[1..], id, crc).0, file, es, id, crc);
    }
  }

  lemma GoodPrefix(a: Arena, file: Bytes, es: seq<Entry>, id: string, crc: Checksum, n: nat)
    requires EachGood(a, file, es, id, crc) && n <= |es|
    ensures EachGood(a, file, es[..n], id, crc)
  {
    forall i | 0 <= i < n ensures Good(a, file, id, es[..n][i], crc) {
      assert Good(a, file, id, es[i], crc);
    }
  }

  /** Good entries that pass the checks one by one. */
  lemma LoadStep(a: Arena, file: Bytes, es: seq<Entry>, id: string, crc: Checksum)
    requires Inv(a) && es != [] && Good(a, file, id, es[0], crc) && forall i :: 0 <= i < |es| ==> Usable(es[i])
    ensures a.free == [] ==> LoadEntries(a, file, es, id, crc) == (a, Some(Exhausted))
    ensures a.free != [] ==> Inv(LoadOne(a, file, es[0], id))
    ensures a.free != [] ==>
              LoadEntries(a, file, es, id, crc) == LoadEntries(LoadOne(a, file, es[0], id), file, es[1..], id, crc)
  {
    if a.free != [] {
      LoadOneKeeps(a, file, es[0], id);
    }
  }

  lemma FrontStep(a: Arena, file: Bytes, es: seq<Entry>, id: string, crc: Checksum, n: nat)
    requires Inv(a) && a.free != [] && 0 < n <= |es| && Good(a, file, id, es[0], crc)
    requires forall i :: 0 <= i < |es| ==> Usable(es[i])
    ensures Inv(LoadOne(a, file, es[0], id))
    ensures LoadEntries(a, file, es[..n], id, crc)
         == LoadEntries(LoadOne(a, file, es[0], id), file, es[1..][..n - 1], id, crc)
  {
    LoadStep(a, file, es[..n], id, crc);
    assert es[..n][1..] == es[1..][..n - 1];
  }

  lemma RunsOutNext(a: Arena, mid: Arena, file: Bytes, es: seq<Entry>, id: string, crc: Checksum)
    requires Inv(a) && a.free != [] && |es| > |a.free| && Good(a, file, id, es[0], crc)
    requires mid == LoadOne(a, file, es[0], id) && Inv(mid) && |mid.free| == |a.free| - 1
    requires forall i :: 0 <= i < |es| ==> Usable(es[i])
    requires LoadEntries(mid, file, es[1..], id, crc)
          == (LoadEntries(mid, file, es[1..][..|mid.free|], id, crc).0, Some(Exhausted))
    ensures LoadEntries(a, file, es, id, crc)
         == (LoadEntries(a, file, es[..|a.free|], id, crc).0, Some(Exhausted))
  {
    LoadStep(a, file, es, id, crc);
    FrontStep(a, file, es, id, crc, |a.free|);
  }

  /** With too little room, good entries load until it is used up. */
  lemma {:induction false} LoadRunsOut(a: Arena, file: Bytes, es: seq<Entry>, id: string, crc: Checksum)
    requires Inv(a) && EachGood(a, file, es, id, crc) && |es| > |a.free|
    requires forall i :: 0 <= i < |es| ==> Usable(es[i])
    ensures LoadEntries(a, file, es, id, crc)
         == (LoadEntries(a, file, es[..|a.free|], id, crc).0, Some(Exhausted))
    decreases |es|
  {
    assert Good(a, file, id, es[0], crc);
    if a.free == [] {
      LoadStep(a, file, es, id, crc);
    } else {
      FirstGood(a, file, es, id, crc);
      var mid := LoadOne(a, file, es[0], id);
      LoadRunsOut(mid, file, es[1..], id, crc);
      RunsOutNext(a, mid, file, es, id, crc);
    }
  }

  // ----- spilling, then loading -----

  lemma InfosFit(a: Arena, keys: seq<Key>, id: string)
    requires Inv(a) && IterationOrder(a.index, keys)
    ensures |SlotInfo(a, keys, id)| <= |OwnedBy(a, id)| <= |a.mem|
    ensures |SlotInfo(a, keys, id)| * a.slotSize <= MAX_MAPPING
  {
    SlotInfoExact(a, keys, id);
    OwnedInRange(a, id);
    Pigeonhole(OwnedBy(a, id), |a.mem|);
    MulMono(|SlotInfo(a, keys, id)|, |a.mem|, a.slotSize);
  }

  lemma SliceInFile(file: Bytes, start: nat, block: Bytes, k: nat, d: Bytes)
    requires |file| == start + |block| && file[start..] == block && k + |d| <= |block| && block[k..k + |d|] == d
    ensures file[start + k..start + k + |d|] == d
  {
    SliceOfSlice(file, start, |file|, k, k + |d|);
    assert file[start..|file|] == file[start..];
  }

  /** Entry `e` describes `x` and points at its data in the file. */
  predicate Locates(a: Arena, crc: Checksum, e: Entry, x: Info, file: Bytes)
    requires Geometry(a) && x.slot < |a.mem|
  {
    && e.layer == x.layer && HeaderOf(e) == x.header.(byteLen := Length(a, x)) && e.crc == crc(Payload(a, x))
    && e.offset + e.length <= |file| && file[e.offset..e.offset + e.length] == Payload(a, x)
  }

  lemma PayloadInFile(data: seq<Bytes>, i: nat, start: nat, file: Bytes)
    requires i < |data| && |file| == start + |Block(data)| && file[start..] == Block(data)
    ensures var at := start + BlockOffset(data, i);
            at + |data[i]| <= |file| && file[at..at + |data[i]|] == data[i]
  {
    BlockAt(data, i);
    SliceInFile(file, start, Block(data), BlockOffset(data, i), data[i]);
  }

  lemma LocatesIf(a: Arena, crc: Checksum, x: Info, at: nat, file: Bytes)
    requires Geometry(a) && x.slot < |a.mem| && Storable(x.header)
    requires at + Length(a, x) <= |file| && file[at..at + Length(a, x)] == Payload(a, x)
    ensures Locates(a, crc, EntryFor(a, crc, x, at), x, file)
  {
  }

  lemma EntryLocates(a: Arena, crc: Checksum, infos: seq<Info>, i: nat, start: nat, file: Bytes)
    requires InRange(a, infos) && i < |infos|
    requires |file| == start + |Block(Payloads(a, infos))| && file[start..] == Block(Payloads(a, infos))
    ensures Locates(a, crc, Entries(a, crc, infos, start)[i], infos[i], file)
  {
    var x, at := infos[i], OffsetAt(a, infos, start, i);
    assert at + Length(a, x) <= |file| && file[at..at + Length(a, x)] == Payload(a, x) by {
      PayloadInFile(Payloads(a, infos), i, start, file);
      OffsetIsBlockOffset(a, infos, start, i);
    }
    LocatesIf(a, crc, x, at, file);
    EntryIs(a, crc, infos, start, i);
  }

  /** The file's `i`th entry describes the `i`th record, and points at its data in the file. */
  lemma FileEntry(a: Arena, crc: Checksum, infos: seq<Info>, i: nat)
    requires InRange(a, infos) && i < |infos| < 0x1_0000_0000
    ensures Locates(a, crc, Entries(a, crc, infos, DataStart(|infos|))[i], infos[i], SpillBytes(a, crc, infos))
  {
    FileParts(a, crc, infos);
    EntryLocates(a, crc, infos, i, DataStart(|infos|), SpillBytes(a, crc, infos));
  }

  lemma FileEntryFits(a: Arena, crc: Checksum, infos: seq<Info>, i: nat)
    requires InRange(a, infos) && i < |infos| < 0x1_0000_0000 && |infos| * a.slotSize <= MAX_MAPPING
    ensures StorableEntry(Entries(a, crc, infos, DataStart(|infos|))[i])
  {
    EntryIs(a, crc, infos, DataStart(|infos|), i);
    OffsetFits(a, infos, DataStart(|infos|), i);
    MulMono(i, |infos|, a.slotSize);
  }

  lemma FreshUnindexed(a: Arena, id: string, layer: U32)
    requires Inv(a) && id !in a.owned
    ensures (id, layer) !in a.index
  {
    assert forall k :: k in a.index ==> Points(|a.mem|, a.slots, a.index, a.owned, k);
  }

  lemma EntryGood(a: Arena, crc: Checksum, infos: seq<Info>, i: nat, b: Arena, id: string)
    requires InRange(a, infos) && i < |infos| < 0x1_0000_0000 && |infos| * a.slotSize <= MAX_MAPPING
    requires b.slotSize == a.slotSize && (id, infos[i].layer) !in b.index
    ensures var e := Entries(a, crc, infos, DataStart(|infos|))[i];
            e.layer == infos[i].layer && Good(b, SpillBytes(a, crc, infos), id, e, crc)
  {
    FileEntry(a, crc, infos, i);
    FileEntryFits(a, crc, infos, i);
  }

  /** The entries of a spilled checkpoint are good for any arena with slots of that size, under an unused id. */
  lemma SpilledIsGood(a: Arena, keys: seq<Key>, id: string, crc: Checksum, b: Arena, newId: string)
    requires Inv(a) && IterationOrder(a.index, keys) && Spill(a, keys, id, crc).Ok?
    requires Inv(b) && b.slotSize == a.slotSize && newId !in b.owned
    ensures var infos := SlotInfo(a, keys, id);
            && InRange(a, infos) && |infos| < 0x1_0000_0000 && |infos| * a.slotSize <= MAX_MAPPING
            && EachGood(b, SpillBytes(a, crc, infos), Entries(a, crc, infos, DataStart(|infos|)), newId, crc)
  {
    var infos := SlotInfo(a, keys, id);
    InfosInRange(a, keys, id);
    InfosFit(a, keys, id);
    SlotInfoExact(a, keys, id);
    forall i | 0 <= i < |infos| ensures (newId, infos[i].layer) !in b.index {
      FreshUnindexed(b, newId, infos[i].layer);
    }
    EntriesGood(a, crc, infos, b, newId);
  }

  lemma EntriesGood(a: Arena, crc: Checksum, infos: seq<Info>, b: Arena, id: string)
    requires InRange(a, infos) && |infos| < 0x1_0000_0000 && |infos| * a.slotSize <= MAX_MAPPING
    requires b.slotSize == a.slotSize && forall i :: 0 <= i < |infos| ==> (id, infos[i].layer) !in b.index
    requires forall i, j :: 0 <= i < j < |infos| ==> infos[i].layer != infos[j].layer
    ensures EachGood(b, SpillBytes(a, crc, infos), Entries(a, crc, infos, DataStart(|infos|)), id, crc)
  {
    var es := Entries(a, crc, infos, DataStart(|infos|));
    forall i | 0 <= i < |es|
      ensures es[i].layer == infos[i].layer && Good(b, SpillBytes(a, crc, infos), id, es[i], crc)
    {
      EntryGood(a, crc, infos, i, b, id);
    }
  }

  /** Every entry of the file reads back. */
  lemma SpilledReads(a: Arena, crc: Checksum, infos: seq<Info>)
    requires InRange(a, infos) && |infos| < 0x1_0000_0000 && |infos| * a.slotSize <= MAX_MAPPING
    ensures var file, n := SpillBytes(a, crc, infos), |infos|;
            && HeaderSize(n) <= |file|
            && ReadEntries(file, 0, n) == Some(Entries(a, crc, infos, DataStart(n)))
  {
    var es := Entries(a, crc, infos, DataStart(|infos|));
    FileParts(a, crc, infos);
    forall i | 0 <= i < |es| ensures |es[i].shape| == 6 && StorableEntry(es[i]) {
      FileEntryFits(a, crc, infos, i);
    }
    ReadEntriesBack(SpillBytes(a, crc, infos), es);
  }

  /** Layer `layer` of `newId` in `b` is layer `layer` of `id` in `a`, cut to what a slot can hold. */
  ghost predicate Restored(a: Arena, b: Arena, id: string, newId: string, layer: U32) {
    && Inv(a) && Inv(b) && b.slotSize == a.slotSize
    && var was, is_ := GetSlot(a, id, layer), GetSlot(b, newId, layer);
    && (was.Some? <==> is_.Some?)
    && (was.Some? ==>
          var n := Min(was.value.1.byteLen, a.slotSize - SLOT_HEADER_SIZE);
          && is_.value.1 == was.value.1.(byteLen := n)
          && b.mem[is_.value.0][SLOT_HEADER_SIZE..SLOT_HEADER_SIZE + n]
          == a.mem[was.value.0][SLOT_HEADER_SIZE..SLOT_HEADER_SIZE + n])
  }

  lemma LoadIs(a: Arena, crc: Checksum, infos: seq<Info>, b: Arena, id: string)
    requires InRange(a, infos) && |infos| < 0x1_0000_0000 && |infos| * a.slotSize <= MAX_MAPPING && Inv(b)
    ensures ReadEntries(SpillBytes(a, crc, infos), 0, |infos|).Some?
    ensures Load(b, SpillBytes(a, crc, infos), id, crc)
         == LoadEntries(b, SpillBytes(a, crc, infos), ReadEntries(SpillBytes(a, crc, infos), 0, |infos|).value, id, crc)
  {
    FileParts(a, crc, infos);
    SpilledReads(a, crc, infos);
  }

  /** A record that was loaded is restored. */
  lemma RecordRestored(a: Arena, crc: Checksum, infos: seq<Info>, i: nat, b: Arena, id: string, newId: string)
    requires Inv(a) && InRange(a, infos) && i < |infos| < 0x1_0000_0000 && Records(a, id, infos[i])
    requires b.slotSize == a.slotSize
    requires Loaded(b, newId, Entries(a, crc, infos, DataStart(|infos|))[i], SpillBytes(a, crc, infos))
    ensures Restored(a, b, id, newId, infos[i].layer)
  {
    FileEntry(a, crc, infos, i);
  }

  /** A layer the loaded checkpoint has came from a record. */
  lemma LayerHasRecord(a: Arena, crc: Checksum, infos: seq<Info>, freed: Arena, b: Arena, newId: string, layer: U32)
      returns (i: nat)
    requires InRange(a, infos) && |infos| < 0x1_0000_0000 && Inv(freed) && newId !in freed.owned
    requires (newId, layer) in b.index
    requires AllLoaded(freed, b, SpillBytes(a, crc, infos), Entries(a, crc, infos, DataStart(|infos|)), newId)
    ensures i < |infos| && infos[i].layer == layer
  {
    FreshUnindexed(freed, newId, layer);
    var es := Entries(a, crc, infos, DataStart(|infos|));
    assert NewLayer(es, newId, (newId, layer));
    i :| 0 <= i < |es| && es[i].layer == layer;
    FileEntry(a, crc, infos, i);
  }

  /** The file of `infos`, the records of `id` in `a`, has been loaded into `b` as `newId`. */
  ghost predicate Reloaded(a: Arena, infos: seq<Info>, id: string, crc: Checksum, freed: Arena, b: Arena, newId: string) {
    && Inv(a) && Inv(freed) && newId !in freed.owned && freed.slotSize == a.slotSize
    && InRange(a, infos) && |infos| < 0x1_0000_0000 && (forall x :: x in infos <==> Records(a, id, x))
    && AllLoaded(freed, b, SpillBytes(a, crc, infos), Entries(a, crc, infos, DataStart(|infos|)), newId)
  }

  lemma LayerCarriedOver(a: Arena, infos: seq<Info>, id: string, crc: Checksum, freed: Arena, b: Arena, newId: string,
                         x: Info)
    requires Reloaded(a, infos, id, crc, freed, b, newId) && Records(a, id, x)
    ensures Restored(a, b, id, newId, x.layer)
  {
    var i :| 0 <= i < |infos| && infos[i] == x;
    RecordRestored(a, crc, infos, i, b, id, newId);
  }

  lemma LayerNotAdded(a: Arena, infos: seq<Info>, id: string, crc: Checksum, freed: Arena, b: Arena, newId: string,
                      layer: U32)
    requires Reloaded(a, infos, id, crc, freed, b, newId) && (newId, layer) in b.index
    ensures GetSlot(a, id, layer).Some?
  {
    var i := LayerHasRecord(a, crc, infos, freed, b, newId, layer);
    assert infos[i] in infos;
    assert Records(a, id, infos[i]);
  }

  lemma LayerRestored(a: Arena, infos: seq<Info>, id: string, crc: Checksum, freed: Arena, b: Arena, newId: string,
                      layer: U32)
    requires Reloaded(a, infos, id, crc, freed, b, newId)
    ensures Restored(a, b, id, newId, layer)
  {
    var was := GetSlot(a, id, layer);
    if was.Some? {
      LayerCarriedOver(a, infos, id, crc, freed, b, newId, Info(layer, was.value.0, was.value.1));
    } else if (newId, layer) in b.index {
      LayerNotAdded(a, infos, id, crc, freed, b, newId, layer);
    }
  }

  lemma FreeKept(a: Arena, id: string, k: Key)
    requires Inv(a) && k in a.index && k.0 != id
    ensures Kept(a, Free(a, id), k)
  {
    assert Points(|a.mem|, a.slots, a.index, a.owned, k);
  }

  /** `c` is what loading the file of `id` in `a` into `b` as `newId` leaves, with error `error`. */
  ghost predicate LoadedInto(a: Arena, infos: seq<Info>, id: string, b: Arena, c: Arena, error: Option<LoadError>,
                             newId: string) {
    && Inv(c) && (forall k :: k in b.index ==> Kept(b, c, k))
    && (if |infos| <= |b.free| then error.None? && forall layer: U32 :: Restored(a, c, id, newId, layer)
        else error == Some(Exhausted) && forall i :: 0 <= i < |b.free| ==> Restored(a, c, id, newId, infos[i].layer))
  }

  /** There is room for the whole checkpoint. */
  lemma LoadFits(a: Arena, infos: seq<Info>, id: string, crc: Checksum, b: Arena, newId: string)
    requires Inv(a) && Inv(b) && b.slotSize == a.slotSize && newId !in b.owned
    requires InRange(a, infos) && |infos| < 0x1_0000_0000 && (forall x :: x in infos <==> Records(a, id, x))
    requires AllGood(b, SpillBytes(a, crc, infos), Entries(a, crc, infos, DataStart(|infos|)), newId, crc)
    ensures var es := Entries(a, crc, infos, DataStart(|infos|));
            && (forall i :: 0 <= i < |es| ==> Usable(es[i]))
            && var (c, error) := LoadEntries(b, SpillBytes(a, crc, infos), es, newId, crc);
            LoadedInto(a, infos, id, b, c, error, newId)
  {
    var file, es := SpillBytes(a, crc, infos), Entries(a, crc, infos, DataStart(|infos|));
    LoadEntriesHold(b, file, es, newId, crc);
    var c := LoadEntries(b, file, es, newId, crc).0;
    forall layer: U32 ensures Restored(a, c, id, newId, layer) {
      LayerRestored(a, infos, id, crc, b, c, newId, layer);
    }
  }

  /** There is not: what fits is loaded. */
  lemma LoadFails(a: Arena, infos: seq<Info>, id: string, crc: Checksum, b: Arena, newId: string)
    requires Inv(a) && Inv(b) && b.slotSize == a.slotSize && |infos| > |b.free|
    requires InRange(a, infos) && |infos| < 0x1_0000_0000 && (forall x :: x in infos <==> Records(a, id, x))
    requires EachGood(b, SpillBytes(a, crc, infos), Entries(a, crc, infos, DataStart(|infos|)), newId, crc)
    ensures var es := Entries(a, crc, infos, DataStart(|infos|));
            && (forall i :: 0 <= i < |es| ==> Usable(es[i]))
            && var (c, error) := LoadEntries(b, SpillBytes(a, crc, infos), es, newId, crc);
            LoadedInto(a, infos, id, b, c, error, newId)
  {
    var file, es, n := SpillBytes(a, crc, infos), Entries(a, crc, infos, DataStart(|infos|)), |b.free|;
    GoodUsable(b, file, es, newId, crc);
    GoodPrefix(b, file, es, newId, crc, n);
    LoadRunsOut(b, file, es, newId, crc);
    LoadEntriesHold(b, file, es[..n], newId, crc);
    var c := LoadEntries(b, file, es[..n], newId, crc).0;
    forall i | 0 <= i < n ensures Restored(a, c, id, newId, infos[i].layer) {
      assert Loaded(c, newId, es[..n][i], file) && infos[i] in infos;
      RecordRestored(a, crc, infos, i, c, id, newId);
    }
  }

  lemma LoadGood(a: Arena, infos: seq<Info>, id: string, crc: Checksum, b: Arena, newId: string)
    requires Inv(a) && Inv(b) && b.slotSize == a.slotSize && newId !in b.owned
    requires InRange(a, infos) && |infos| < 0x1_0000_0000 && |infos| * a.slotSize <= MAX_MAPPING
    requires forall x :: x in infos <==> Records(a, id, x)
    requires EachGood(b, SpillBytes(a, crc, infos), Entries(a, crc, infos, DataStart(|infos|)), newId, crc)
    ensures var (c, error) := Load(b, SpillBytes(a, crc, infos), newId, crc);
            LoadedInto(a, infos, id, b, c, error, newId)
  {
    LoadIs(a, crc, infos, b, newId);
    SpilledReads(a, crc, infos);
    if |infos| <= |b.free| {
      LoadFits(a, infos, id, crc, b, newId);
    } else {
      LoadFails(a, infos, id, crc, b, newId);
    }
  }

  /**
   A spilled checkpoint loads into any arena with slots of the same size, under any id not in use
   there, if and only if there are enough free slots; then every layer that could be retrieved
   can be again, with the same dtype, ndim, shape, length and payload (cut to the slot when a
   header claimed more), and none is added. With too few, as many layers as fit are loaded before
   the failure. Either way every layer that was there keeps its slot and its bytes.
   */
  lemma LoadAnywhere(a: Arena, keys: seq<Key>, id: string, crc: Checksum, b: Arena, newId: string)
    requires Inv(a) && IterationOrder(a.index, keys) && Inv(b) && b.slotSize == a.slotSize && newId !in b.owned
    ensures Spill(a, keys, id, crc).Ok? ==>
              var (c, error) := Load(b, Spill(a, keys, id, crc).value.0, newId, crc);
              LoadedInto(a, SlotInfo(a, keys, id), id, b, c, error, newId)
  {
    if Spill(a, keys, id, crc).Ok? {
      SpilledIsGood(a, keys, id, crc, b, newId);
      SlotInfoExact(a, keys, id);
      LoadGood(a, SlotInfo(a, keys, id), id, crc, b, newId);
    }
  }

  /** Freeing the checkpoint makes room for it. */
  lemma FreedHasRoom(a: Arena, keys: seq<Key>, id: string)
    requires Inv(a) && IterationOrder(a.index, keys)
    ensures |SlotInfo(a, keys, id)| <= |Free(a, id).free|
  {
    SlotInfoExact(a, keys, id);
  }

  /**
   A spilled checkpoint always loads again into the arena it came from, under its own or any
   unused id, and every other checkpoint keeps its slots and their bytes.
   */
  lemma SpillThenLoad(a: Arena, keys: seq<Key>, id: string, crc: Checksum, newId: string)
    requires Inv(a) && IterationOrder(a.index, keys) && (newId == id || newId !in a.owned)
    ensures Spill(a, keys, id, crc).Ok? ==>
              var (file, freed) := Spill(a, keys, id, crc).value;
              && Inv(freed)
              && var (b, error) := Load(freed, file, newId, crc);
              && error.None? && Inv(b)
              && (forall layer: U32 :: Restored(a, b, id, newId, layer))
              && (forall k :: k in a.index && k.0 != id ==> Kept(a, b, k))
  {
    if Spill(a, keys, id, crc).Ok? {
      var (file, freed) := Spill(a, keys, id, crc).value;
      FreeKeeps(a, id);
      FreedHasRoom(a, keys, id);
      LoadAnywhere(a, keys, id, crc, freed, newId);
      var b := Load(freed, file, newId, crc).0;
      forall k | k in a.index && k.0 != id ensures Kept(a, b, k) {
        FreeKept(a, id, k);
        KeptTransitive(a, freed, b, k);
      }
    }
  }

  lemma NoRecords(a: Arena, keys: seq<Key>, id: string)
    requires Inv(a) && IterationOrder(a.index, keys)
    ensures SlotInfo(a, keys, id) == [] <==> forall layer: U32 :: GetSlot(a, id, layer).None?
  {
    var infos := SlotInfo(a, keys, id);
    SlotInfoExact(a, keys, id);
    if infos != [] {
      assert infos[0] in infos;
      assert Records(a, id, infos[0]);
    }
    forall layer: U32 | GetSlot(a, id, layer).Some? ensures infos != [] {
      var r := GetSlot(a, id, layer).value;
      assert Records(a, id, Info(layer, r.0, r.1));
    }
  }

  /** Spilling refuses a checkpoint exactly when none of its layers can be retrieved, or there are too many. */
  lemma SpillRefuses(a: Arena, keys: seq<Key>, id: string, crc: Checksum)
    requires Inv(a) && IterationOrder(a.index, keys)
    ensures Spill(a, keys, id, crc) == Err(CheckpointNotFound) <==> forall layer: U32 :: GetSlot(a, id, layer).None?
    ensures Spill(a, keys, id, crc) == Err(TooManySlots) <==> |SlotInfo(a, keys, id)| >= 0x1_0000_0000
  {
    NoRecords(a, keys, id);
  }
}
