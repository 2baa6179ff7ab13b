/**
 Loading any file at all (crates/rocket-surgeon-worker/src/checkpoint.rs,
 `load_spilled_checkpoint`): which files load, what each bad one is refused for, and what a load
 that breaks off leaves behind. The conditions are on the file's bytes.
 */
module SpillLaws {
  import opened Prelude
  import opened Bits
  import opened SlotFormat
  import opened Arenas
  import opened SpillFile

  // ----- the bytes of the index -----

  /** "CKPTSPIL" and version 1. */
  predicate Marked(file: Bytes) {
    && |file| >= 16 && file[0..8] == [0x43, 0x4B, 0x50, 0x54, 0x53, 0x50, 0x49, 0x4C]
    && FromLe(file[8..12]) == 1
  }

  function RowCount(file: Bytes): nat
    requires |file| >= 16
  {
    FromLe(file[12..16])
  }

  /** Row `i` of the index begins here. */
  function RowStart(i: nat): nat { 16 + 80 * i }

  /** The file holds all the rows it announces, and each has one of the four dtype tags. */
  predicate WholeIndex(file: Bytes)
    requires |file| >= 16
  {
    && RowStart(RowCount(file)) <= |file|
    && forall i :: 0 <= i < RowCount(file) ==> TagOf(file, i) <= 3
  }

  function TagOf(file: Bytes, i: nat): Byte
    requires RowStart(i + 1) <= |file|
  {
    file[RowStart(i) + 4]
  }

  /** What row `i` says, field by field. */
  function Row(file: Bytes, i: nat): Entry
    requires RowStart(i + 1) <= |file| && TagOf(file, i) <= 3
  {
    var r := RowStart(i);
    Entry(FromLe(file[r..r + 4]), [Float16, Bfloat16, Float32, Float64][file[r + 4]], file[r + 5],
          seq(6, j requires 0 <= j < 6 => FromLe(file[r + 8 + 8 * j..r + 16 + 8 * j])),
          FromLe(file[r + 56..r + 64]), FromLe(file[r + 64..r + 72]), FromLe(file[r + 72..r + 76]))
  }

  /** The first `k` rows. */
  function Rows(file: Bytes, k: nat): (es: seq<Entry>)
    requires RowStart(k) <= |file| && forall i :: 0 <= i < k ==> TagOf(file, i) <= 3
    ensures |es| == k && forall i :: 0 <= i < k ==> es[i] == Row(file, i)
  {
    seq(k, i requires 0 <= i < k => Row(file, i))
  }

  lemma {:induction false} ReadIntsAt(s: Bytes, n: nat, j: nat)
    requires |s| == 8 * n && j < n
    ensures ReadInts(s, n, 8)[j] == FromLe(s[8 * j..8 * j + 8])
  {
    if j > 0 {
      ReadIntsAt(s[8..], n - 1, j - 1);
      assert s[8..][8 * (j - 1)..8 * (j - 1) + 8] == s[8 * j..8 * j + 8];
    }
  }

  lemma ShapeAt(file: Bytes, r: nat)
    requires r + 80 <= |file|
    ensures ReadInts(file[r..r + 80][8..56], 6, 8)
         == seq(6, j requires 0 <= j < 6 => FromLe(file[r + 8 + 8 * j..r + 16 + 8 * j]))
  {
    var s := file[r..r + 80][8..56];
    SliceOfSlice(file, r, r + 80, 8, 56);
    forall j | 0 <= j < 6 ensures ReadInts(s, 6, 8)[j] == FromLe(file[r + 8 + 8 * j..r + 16 + 8 * j]) {
      ReadIntsAt(s, 6, j);
      SliceOfSlice(file, r + 8, r + 56, 8 * j, 8 * j + 8);
    }
  }

  /** A row reads as its fields say if its tag is one of the four, and not at all otherwise. */
  lemma RowReads(file: Bytes, n: nat, i: nat)
    requires i < n && HeaderSize(n) <= |file|
    ensures NthEntry(file, n, i) == if TagOf(file, i) <= 3 then Some(Row(file, i)) else None
  {
    var r := RowStart(i);
    var s := file[r..r + 80];
    assert s[4] == file[r + 4] && s[5] == file[r + 5];
    SliceOfSlice(file, r, r + 80, 0, 4);
    SliceOfSlice(file, r, r + 80, 56, 64);
    SliceOfSlice(file, r, r + 80, 64, 72);
    SliceOfSlice(file, r, r + 80, 72, 76);
    ShapeAt(file, r);
  }

  lemma RowStorable(file: Bytes, i: nat)
    requires RowStart(i + 1) <= |file| && TagOf(file, i) <= 3
    ensures StorableEntry(Row(file, i)) && Usable(Row(file, i))
  {
    var r := RowStart(i);
    Widths();
    FromLeBound(file[r..r + 4]);
    FromLeBound(file[r + 56..r + 64]);
    FromLeBound(file[r + 64..r + 72]);
    FromLeBound(file[r + 72..r + 76]);
    forall j | 0 <= j < 6 ensures FromLe(file[r + 8 + 8 * j..r + 16 + 8 * j]) < U64_LIMIT {
      FromLeBound(file[r + 8 + 8 * j..r + 16 + 8 * j]);
    }
  }

  lemma IndexReads(file: Bytes, n: nat)
    requires HeaderSize(n) <= |file|
    ensures if forall i :: 0 <= i < n ==> TagOf(file, i) <= 3
            then ReadEntries(file, 0, n) == Some(Rows(file, n)) else ReadEntries(file, 0, n).None?
  {
    if i :| 0 <= i < n && TagOf(file, i) > 3 {
      RowReads(file, n, i);
      NoEntry(file, 0, n, i);
    } else {
      forall i | 0 <= i < n ensures NthEntry(file, n, i) == Some(Rows(file, n)[i]) {
        RowReads(file, n, i);
      }
      AllEntries(file, 0, n, Rows(file, n));
      assert Rows(file, n)[0..] == Rows(file, n);
    }
  }

  // ----- entry by entry -----

  /** The entry lies inside the file, fits a slot and has the checksum of its data. */
  predicate Sound(slotSize: nat, file: Bytes, e: Entry, crc: Checksum) {
    && e.offset + e.length <= |file| && 64 + e.length <= slotSize
    && crc(file[e.offset..e.offset + e.length]) == e.crc
  }

  /** What an entry is refused for; a sound one can only lack a slot. */
  function Fault(slotSize: nat, file: Bytes, e: Entry, crc: Checksum): LoadError {
    if e.offset + e.length > |file| then TruncatedData
    else if 64 + e.length > slotSize then TooLarge
    else if crc(file[e.offset..e.offset + e.length]) != e.crc then BadCrc
    else Exhausted
  }

  predicate Readable(es: seq<Entry>) {
    forall i :: 0 <= i < |es| ==> Usable(es[i]) && StorableEntry(es[i])
  }

  lemma ReadableRest(es: seq<Entry>)
    requires Readable(es) && es != []
    ensures Readable(es[1..])
  {
    forall i | 0 <= i < |es[1..]| ensures Usable(es[1..][i]) && StorableEntry(es[1..][i]) {
      assert es[1..][i] == es[i + 1];
    }
  }

  /** Some entry from number `i` on is for that layer. */
  ghost predicate Later(es: seq<Entry>, i: nat, layer: nat) {
    exists j :: i <= j < |es| && es[j].layer == layer
  }

  /**
   `b` is `a` with the entries loaded as checkpoint `id` one after the other: of several for one
   layer the last counts, and whatever is for another layer or checkpoint keeps its slot and bytes.
   */
  ghost predicate LoadedAll(a: Arena, b: Arena, file: Bytes, es: seq<Entry>, id: string) {
    && Inv(b) && b.slotSize == a.slotSize && |b.free| + |es| == |a.free|
    && (forall i :: 0 <= i < |es| && !Later(es, i + 1, es[i].layer) ==> Loaded(b, id, es[i], file))
    && (forall k :: k in a.index && !NewLayer(es, id, k) ==> Kept(a, b, k))
    && (forall k :: k in b.index ==> k in a.index || NewLayer(es, id, k))
  }

  lemma LaterShift(es: seq<Entry>, i: nat, layer: nat)
    requires es != []
    ensures Later(es[1..], i, layer) ==> Later(es, i + 1, layer)
    ensures Later(es, i + 1, layer) ==> Later(es[1..], i, layer)
  {
    if Later(es[1..], i, layer) {
      var j :| i <= j < |es[1..]| && es[1..][j].layer == layer;
      assert es[j + 1].layer == layer;
    }
    if Later(es, i + 1, layer) {
      var j :| i + 1 <= j < |es| && es[j].layer == layer;
      assert es[1..][j - 1].layer == layer;
    }
  }

  lemma NewLayerRest(es: seq<Entry>, id: string, layer: U32)
    requires es != [] && NewLayer(es[1..], id, (id, layer))
    ensures Later(es, 1, layer)
  {
    var i :| 0 <= i < |es[1..]| && es[1..][i].layer == layer;
    assert es[i + 1].layer == layer;
  }

  lemma LoadedRest(mid: Arena, b: Arena, file: Bytes, es: seq<Entry>, id: string, i: nat)
    requires i < |es| && !Later(es, i + 1, es[i].layer) && Loaded(mid, id, es[0], file)
    requires (id, es[0].layer) in mid.index && LoadedAll(mid, b, file, es[1..], id)
    ensures Loaded(b, id, es[i], file)
  {
    if i == 0 {
      if NewLayer(es[1..], id, (id, es[0].layer)) {
        NewLayerRest(es, id, es[0].layer);
      }
      KeptLoaded(mid, b, id, es[0], file);
    } else {
      LaterShift(es, i, es[i].layer);
      assert es[1..][i - 1] == es[i];
    }
  }

  lemma LoadedFirst(a: Arena, mid: Arena, b: Arena, file: Bytes, es: seq<Entry>, rest: seq<Entry>, id: string)
    requires Inv(a) && a.free != [] && es != [] && Usable(es[0]) && StorableEntry(es[0])
    requires es[0].offset + es[0].length <= |file| && 64 + es[0].length <= a.slotSize
    requires mid == LoadOne(a, file, es[0], id) && Inv(mid) && rest == es[1..] && LoadedAll(mid, b, file, rest, id)
    ensures LoadedAll(a, b, file, es, id)
  {
    LoadOneHolds(a, file, es[0], id);
    LoadOneShape(a, file, es[0], id);
    forall i | 0 <= i < |es| && !Later(es, i + 1, es[i].layer) ensures Loaded(b, id, es[i], file) {
      LoadedRest(mid, b, file, es, id, i);
    }
    forall k | k in a.index && !NewLayer(es, id, k) ensures Kept(a, b, k) {
      KeptOver(a, mid, b, file, es, id, k);
    }
    forall k | k in b.index ensures k in a.index || NewLayer(es, id, k) {
      if k !in a.index {
        NewLayerShift(es, id, k);
      }
    }
  }

  lemma KeptOver(a: Arena, mid: Arena, b: Arena, file: Bytes, es: seq<Entry>, id: string, k: Key)
    requires Inv(a) && a.free != [] && es != [] && Usable(es[0])
    requires es[0].offset + es[0].length <= |file| && 64 + es[0].length <= a.slotSize
    requires mid == LoadOne(a, file, es[0], id) && LoadedAll(mid, b, file, es[1..], id)
    requires k in a.index && !NewLayer(es, id, k)
    ensures Kept(a, b, k)
  {
    if k == (id, es[0].layer) || NewLayer(es[1..], id, k) {
      NewLayerShift(es, id, k);
    }
    LoadOneKept(a, file, es[0], id, k);
    KeptTransitive(a, mid, b, k);
  }

  lemma NothingYet(a: Arena, file: Bytes, id: string)
    requires Inv(a)
    ensures LoadedAll(a, a, file, [], id)
  {
    NothingLoaded(a, file, id);
  }

  /** One entry: refused, or without a slot, or loaded. */
  lemma OneEntry(a: Arena, file: Bytes, es: seq<Entry>, id: string, crc: Checksum)
    requires Inv(a) && es != [] && forall i :: 0 <= i < |es| ==> Usable(es[i])
    ensures !Sound(a.slotSize, file, es[0], crc) || a.free == [] ==>
              LoadEntries(a, file, es, id, crc) == (a, Some(Fault(a.slotSize, file, es[0], crc)))
    ensures Sound(a.slotSize, file, es[0], crc) && a.free != [] ==>
              && Inv(LoadOne(a, file, es[0], id))
              && LoadEntries(a, file, es, id, crc) == LoadEntries(LoadOne(a, file, es[0], id), file, es[1..], id, crc)
  {
    if Sound(a.slotSize, file, es[0], crc) && a.free != [] {
      LoadOneKeeps(a, file, es[0], id);
    }
  }

  /** With `room` slots free, a load stops behind `k` entries: all of them sound, and the next one, if any, refused. */
  predicate Stops(slotSize: nat, room: nat, file: Bytes, es: seq<Entry>, crc: Checksum, k: nat,
                  error: Option<LoadError>) {
    && k <= |es| && k <= room && (forall i :: 0 <= i < k ==> Sound(slotSize, file, es[i], crc))
    && if k == |es| then error.None?
       else error == Some(Fault(slotSize, file, es[k], crc)) && (Sound(slotSize, file, es[k], crc) ==> k == room)
  }

  lemma StopsLater(slotSize: nat, room: nat, file: Bytes, es: seq<Entry>, crc: Checksum, k: nat,
                   error: Option<LoadError>)
    requires es != [] && room > 0 && Sound(slotSize, file, es[0], crc)
    requires Stops(slotSize, room - 1, file, es[1..], crc, k, error)
    ensures Stops(slotSize, room, file, es, crc, k + 1, error)
  {
    forall i | 0 <= i < k + 1 ensures Sound(slotSize, file, es[i], crc) {
      if i > 0 {
        assert es[1..][i - 1] == es[i];
      }
    }
  }

  lemma LoadedFront(a: Arena, mid: Arena, b: Arena, file: Bytes, es: seq<Entry>, id: string, k: nat)
    requires Inv(a) && a.free != [] && Readable(es) && k < |es|
    requires es[0].offset + es[0].length <= |file| && 64 + es[0].length <= a.slotSize
    requires mid == LoadOne(a, file, es[0], id) && Inv(mid) && LoadedAll(mid, b, file, es[1..][..k], id)
    ensures LoadedAll(a, b, file, es[..k + 1], id)
  {
    var front, rest := es[..k + 1], es[1..][..k];
    assert front[0] == es[0] && rest == front[1..];
    LoadedFirst(a, mid, b, file, front, rest, id);
  }

  /** What loading the entries came to: `k` of them are in place. */
  ghost predicate Broke(a: Arena, r: (Arena, Option<LoadError>), file: Bytes, es: seq<Entry>, id: string, crc: Checksum,
                        k: nat) {
    Stops(a.slotSize, |a.free|, file, es, crc, k, r.1) && LoadedAll(a, r.0, file, es[..k], id)
  }

  lemma BrokeLater(a: Arena, mid: Arena, r: (Arena, Option<LoadError>), file: Bytes, es: seq<Entry>, id: string,
                   crc: Checksum, k: nat)
    requires Inv(a) && a.free != [] && es != [] && Readable(es) && Sound(a.slotSize, file, es[0], crc)
    requires mid == LoadOne(a, file, es[0], id) && Inv(mid) && mid.slotSize == a.slotSize
    requires |mid.free| == |a.free| - 1 && Broke(mid, r, file, es[1..], id, crc, k)
    ensures Broke(a, r, file, es, id, crc, k + 1)
  {
    StopsLater(a.slotSize, |a.free|, file, es, crc, k, r.1);
    LoadedFront(a, mid, r.0, file, es, id, k);
  }

  /** Nothing was loaded. */
  lemma BrokeAtOnce(a: Arena, r: (Arena, Option<LoadError>), file: Bytes, es: seq<Entry>, id: string, crc: Checksum)
    requires Inv(a) && r.0 == a && Stops(a.slotSize, |a.free|, file, es, crc, 0, r.1)
    ensures Broke(a, r, file, es, id, crc, 0)
  {
    assert es[..0] == [];
    NothingYet(a, file, id);
  }

  lemma OneLoaded(a: Arena, file: Bytes, e: Entry, id: string, b: Arena)
    requires Inv(a) && a.free != [] && Usable(e)
    requires e.offset + e.length <= |file| && 64 + e.length <= a.slotSize && b == LoadOne(a, file, e, id)
    ensures b.slotSize == a.slotSize && |b.free| == |a.free| - 1
  {
    LoadOneShape(a, file, e, id);
  }

  lemma {:induction false} EntriesBreak(a: Arena, file: Bytes, es: seq<Entry>, id: string, crc: Checksum)
      returns (k: nat)
    requires Inv(a) && Readable(es)
    ensures Broke(a, LoadEntries(a, file, es, id, crc), file, es, id, crc, k)
    decreases |es|
  {
    var r := LoadEntries(a, file, es, id, crc);
    if es == [] {
      BrokeAtOnce(a, r, file, es, id, crc);
      return 0;
    }
    OneEntry(a, file, es, id, crc);
    if Sound(a.slotSize, file, es[0], crc) && a.free != [] {
      var mid := LoadOne(a, file, es[0], id);
      OneLoaded(a, file, es[0], id, mid);
      ReadableRest(es);
      var before := EntriesBreak(mid, file, es[1..], id, crc);
      BrokeLater(a, mid, r, file, es, id, crc, before);
      return before + 1;
    } else {
      BrokeAtOnce(a, r, file, es, id, crc);
      return 0;
    }
  }

  // ----- any file -----

  /** A file without a readable header and index is refused for the first thing missing, and changes nothing. */
  lemma HeaderFaults(a: Arena, file: Bytes, id: string, crc: Checksum)
    requires Inv(a) && !(Marked(file) && WholeIndex(file))
    ensures Load(a, file, id, crc) == (a, Some(
              if |file| < 16 then TooShort
              else if file[0..8] != [0x43, 0x4B, 0x50, 0x54, 0x53, 0x50, 0x49, 0x4C] then BadMagic
              else if FromLe(file[8..12]) != 1 then BadVersion
              else if |file| < RowStart(RowCount(file)) then TruncatedIndex
              else BadDtype))
  {
    if Marked(file) && RowStart(RowCount(file)) <= |file| {
      IndexReads(file, RowCount(file));
    }
  }

  /**
   Any other file is loaded row by row up to the first that lies outside the file, does not fit a
   slot, has the wrong checksum or finds no free slot: `k` rows are in place then.
   */
  lemma LoadBreaks(a: Arena, file: Bytes, id: string, crc: Checksum) returns (k: nat)
    requires Inv(a) && Marked(file) && WholeIndex(file)
    ensures Broke(a, Load(a, file, id, crc), file, Rows(file, RowCount(file)), id, crc, k)
  {
    var n := RowCount(file);
    IndexReads(file, n);
    forall i | 0 <= i < n ensures Usable(Rows(file, n)[i]) && StorableEntry(Rows(file, n)[i]) {
      RowStorable(file, i);
    }
    k := EntriesBreak(a, file, Rows(file, n), id, crc);
  }

  /**
   A file loads without error if and only if it has the magic, the version, a whole index of valid
   dtypes, only sound rows, and no more of them than there are free slots.
   */
  lemma LoadsExactly(a: Arena, file: Bytes, id: string, crc: Checksum)
    requires Inv(a)
    ensures Load(a, file, id, crc).1.None?
       <==> && Marked(file) && WholeIndex(file) && RowCount(file) <= |a.free|
            && forall i :: 0 <= i < RowCount(file) ==> Sound(a.slotSize, file, Row(file, i), crc)
  {
    if Marked(file) && WholeIndex(file) {
      var k := LoadBreaks(a, file, id, crc);
      var es := Rows(file, RowCount(file));
      if k < |es| {
        assert es[k] == Row(file, k);
      }
    } else {
      HeaderFaults(a, file, id, crc);
    }
  }

  // ----- corruption -----

  lemma SameRow(file: Bytes, other: Bytes, i: nat)
    requires |other| == |file| && RowStart(i + 1) <= |file|
    requires forall j :: RowStart(i) <= j < RowStart(i + 1) ==> other[j] == file[j]
    ensures TagOf(other, i) == TagOf(file, i)
    ensures TagOf(file, i) <= 3 ==> Row(other, i) == Row(file, i)
  {
    var r := RowStart(i);
    assert forall lo, hi :: r <= lo <= hi <= r + 80 ==> other[lo..hi] == file[lo..hi];
  }

  lemma RowSound(a: Arena, file: Bytes, id: string, crc: Checksum, i: nat)
    requires Inv(a) && Load(a, file, id, crc).1.None? && |file| >= 16 && i < RowCount(file)
    ensures RowStart(i + 1) <= |file| && TagOf(file, i) <= 3 && Sound(a.slotSize, file, Row(file, i), crc)
  {
    LoadsExactly(a, file, id, crc);
  }

  lemma DataChanged(slotSize: nat, file: Bytes, other: Bytes, crc: Checksum, i: nat)
    requires |other| == |file| && RowStart(i + 1) <= |file| && TagOf(file, i) <= 3
    requires forall j :: RowStart(i) <= j < RowStart(i + 1) ==> other[j] == file[j]
    requires Sound(slotSize, file, Row(file, i), crc)
    requires var e := Row(file, i);
             crc(other[e.offset..e.offset + e.length]) != crc(file[e.offset..e.offset + e.length])
    ensures TagOf(other, i) <= 3 && !Sound(slotSize, other, Row(other, i), crc)
  {
    SameRow(file, other, i);
  }

  /** A file that loads no longer does once the data of a row is changed to bytes of another checksum. */
  lemma CorruptionDetected(a: Arena, file: Bytes, other: Bytes, id: string, crc: Checksum, i: nat)
    requires Inv(a) && Load(a, file, id, crc).1.None? && |other| == |file|
    requires Marked(file) && WholeIndex(file) && i < RowCount(file)
    requires forall j :: 0 <= j < RowStart(RowCount(file)) ==> other[j] == file[j]
    requires var e := Row(file, i);
             && e.offset + e.length <= |file|
             && crc(other[e.offset..e.offset + e.length]) != crc(file[e.offset..e.offset + e.length])
    ensures Load(a, other, id, crc).1.Some?
  {
    RowSound(a, file, id, crc, i);
    DataChanged(a.slotSize, file, other, crc, i);
    if Load(a, other, id, crc).1.None? {
      assert other[12..16] == file[12..16];
      RowSound(a, other, id, crc, i);
    }
  }
}
