/**
 The two fixed-size records of crates/rocket-surgeon-worker/src/checkpoint.rs: the 64-byte slot
 header and the 80-byte spill index entry.
 */
module SlotFormat {
  import opened Prelude
  import opened Bits

  const SLOT_HEADER_SIZE: nat := 64
  const ENTRY_SIZE: nat := 80

  /** "CKPT", stored little-endian. */
  const SLOT_MAGIC: nat := 0x434B_5054

  datatype Dtype = Float16 | Bfloat16 | Float32 | Float64

  function Tag(d: Dtype): Byte {
    match d case Float16 => 0 case Bfloat16 => 1 case Float32 => 2 case Float64 => 3
  }

  function FromTag(b: Byte): Option<Dtype> {
    if b == 0 then Some(Float16) else if b == 1 then Some(Bfloat16)
    else if b == 2 then Some(Float32) else if b == 3 then Some(Float64) else None
  }

  /** What a slot says about its tensor. */
  datatype SlotHeader = SlotHeader(dtype: Dtype, ndim: Byte, shape: seq<nat>, byteLen: nat)

  predicate Storable(h: SlotHeader) {
    |h.shape| == 6 && (forall i :: 0 <= i < 6 ==> h.shape[i] < U64_LIMIT) && h.byteLen < U64_LIMIT
  }

  /** `SlotHeader::write_to`. */
  function HeaderBytes(h: SlotHeader): (s: seq<Byte>)
    requires |h.shape| == 6
    ensures |s| == SLOT_HEADER_SIZE
  {
    ToLe(SLOT_MAGIC, 4) + [Tag(h.dtype), h.ndim, 0, 0] + LeInts(h.shape, 8) + ToLe(h.byteLen, 8)
  }

  /** `SlotHeader::read_from`. */
  function ReadHeader(s: seq<Byte>): (r: Option<SlotHeader>)
    requires |s| == SLOT_HEADER_SIZE
  {
    if FromLe(s[0..4]) != SLOT_MAGIC || FromTag(s[4]).None? then None
    else Some(SlotHeader(FromTag(s[4]).value, s[5], ReadInts(s[8..56], 6, 8), FromLe(s[56..64])))
  }

  datatype Entry = Entry(layer: nat, dtype: Dtype, ndim: Byte, shape: seq<nat>, offset: nat, length: nat, crc: nat)

  predicate StorableEntry(e: Entry) {
    && e.layer < U32_LIMIT && |e.shape| == 6 && (forall i :: 0 <= i < 6 ==> e.shape[i] < U64_LIMIT)
    && e.offset < U64_LIMIT && e.length < U64_LIMIT && e.crc < U32_LIMIT
  }

  /** `SpillIndexEntry::write_to`. */
  function EntryBytes(e: Entry): (s: seq<Byte>)
    requires |e.shape| == 6
    ensures |s| == ENTRY_SIZE
  {
    ToLe(e.layer, 4) + [Tag(e.dtype), e.ndim, 0, 0] + LeInts(e.shape, 8) + ToLe(e.offset, 8) + ToLe(e.length, 8)
    + ToLe(e.crc, 4) + Zeros(4)
  }

  /** `SpillIndexEntry::read_from`. */
  function ReadEntry(s: seq<Byte>): (r: Option<Entry>)
    requires |s| == ENTRY_SIZE
  {
    if FromTag(s[4]).None? then None
    else
      Some(Entry(FromLe(s[0..4]), FromTag(s[4]).value, s[5], ReadInts(s[8..56], 6, 8), FromLe(s[56..64]),
                 FromLe(s[64..72]), FromLe(s[72..76])))
  }

  // ----- the records survive -----

  lemma Le4(n: nat)
    requires n < U32_LIMIT
    ensures FromLe(ToLe(n, 4)) == n
  {
    Widths();
    LeRoundTrip(n, 4);
  }

  lemma Le8(n: nat)
    requires n < U64_LIMIT
    ensures FromLe(ToLe(n, 8)) == n
  {
    Widths();
    LeRoundTrip(n, 8);
  }

  lemma ShapeRoundTrip(shape: seq<nat>)
    requires |shape| == 6 && forall i :: 0 <= i < 6 ==> shape[i] < U64_LIMIT
    ensures ReadInts(LeInts(shape, 8), 6, 8) == shape
  {
    Widths();
    IntsRoundTrip(shape, 8);
  }

  lemma TagRoundTrip(d: Dtype)
    ensures FromTag(Tag(d)) == Some(d)
  {
  }

  lemma HeaderRoundTrip(h: SlotHeader)
    requires Storable(h)
    ensures ReadHeader(HeaderBytes(h)) == Some(h)
  {
    var s := HeaderBytes(h);
    assert s[0..4] == ToLe(SLOT_MAGIC, 4);
    assert s[8..56] == LeInts(h.shape, 8);
    assert s[56..64] == ToLe(h.byteLen, 8);
    Le4(SLOT_MAGIC);
    TagRoundTrip(h.dtype);
    ShapeRoundTrip(h.shape);
    Le8(h.byteLen);
  }

  lemma EntryParts(e: Entry)
    requires |e.shape| == 6
    ensures var s := EntryBytes(e);
            && s[0..4] == ToLe(e.layer, 4) && s[4] == Tag(e.dtype) && s[5] == e.ndim && s[8..56] == LeInts(e.shape, 8)
            && s[56..64] == ToLe(e.offset, 8) && s[64..72] == ToLe(e.length, 8) && s[72..76] == ToLe(e.crc, 4)
  {
    var front := ToLe(e.layer, 4) + [Tag(e.dtype), e.ndim, 0, 0] + LeInts(e.shape, 8);
    var back := ToLe(e.offset, 8) + ToLe(e.length, 8) + ToLe(e.crc, 4) + Zeros(4);
    var s := EntryBytes(e);
    assert s == front + back;
    assert s[..56] == front && s[56..] == back;
  }

  lemma EntryRoundTrip(e: Entry)
    requires StorableEntry(e)
    ensures ReadEntry(EntryBytes(e)) == Some(e)
  {
    EntryParts(e);
    Le4(e.layer);
    TagRoundTrip(e.dtype);
    ShapeRoundTrip(e.shape);
    Le8(e.offset);
    Le8(e.length);
    Le4(e.crc);
  }

  lemma MagicBytes()
    ensures ToLe(SLOT_MAGIC, 4) == [0x54, 0x50, 0x4B, 0x43]
  {
    assert ToLe(0x434B_5054, 4) == [0x54] + ToLe(0x43_4B50, 3);
    assert ToLe(0x43_4B50, 3) == [0x50] + ToLe(0x434B, 2);
    assert ToLe(0x434B, 2) == [0x4B] + ToLe(0x43, 1);
  }

  lemma EightAt(x: seq<Byte>, rest: seq<Byte>, i: nat)
    requires |x| == 8 && 8 * i <= |rest|
    ensures (x + rest)[8 * i..8 * i + 8] == if i == 0 then x else rest[8 * (i - 1)..8 * (i - 1) + 8]
  {
  }

  lemma {:induction false} LeIntsAt(ns: seq<nat>, i: nat)
    requires i < |ns|
    ensures LeInts(ns, 8)[8 * i..8 * i + 8] == ToLe(ns[i], 8)
  {
    EightAt(ToLe(ns[0], 8), LeInts(ns[1..], 8), i);
    if i > 0 {
      LeIntsAt(ns[1..], i - 1);
    }
  }

  lemma HeaderParts(h: SlotHeader)
    requires |h.shape| == 6
    ensures var s := HeaderBytes(h);
            && s[0..4] == ToLe(SLOT_MAGIC, 4) && s[4] == Tag(h.dtype) && s[5] == h.ndim && s[6] == s[7] == 0
            && s[8..56] == LeInts(h.shape, 8) && s[56..64] == ToLe(h.byteLen, 8)
  {
  }

  lemma SubSlice(s: seq<Byte>, k: nat)
    requires |s| == 64 && k + 8 <= 48
    ensures s[8..56][k..k + 8] == s[8 + k..16 + k]
  {
  }

  /** The header byte by byte: the magic, the dtype's tag, the number of dimensions, the shape and the length. */
  lemma HeaderLayout(h: SlotHeader, i: nat)
    requires |h.shape| == 6 && i < 6
    ensures var s := HeaderBytes(h);
            && |s| == 64 && s[0..4] == [0x54, 0x50, 0x4B, 0x43] && s[5] == h.ndim && s[6] == s[7] == 0
            && h.dtype == [Float16, Bfloat16, Float32, Float64][s[4]]
            && s[8 + 8 * i..16 + 8 * i] == ToLe(h.shape[i], 8) && s[56..64] == ToLe(h.byteLen, 8)
  {
    HeaderParts(h);
    MagicBytes();
    LeIntsAt(h.shape, i);
    SubSlice(HeaderBytes(h), 8 * i);
  }

  /** Whatever bytes are in a slot, a header read from them can be stored again. */
  lemma ReadHeaderStorable(s: seq<Byte>)
    requires |s| == SLOT_HEADER_SIZE && ReadHeader(s).Some?
    ensures Storable(ReadHeader(s).value)
  {
    Widths();
    ReadIntsBound(s[8..56], 6, 8);
    FromLeBound(s[56..64]);
  }
}
