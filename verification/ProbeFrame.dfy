/** The 128-byte probe frame header (crates/rocket-surgeon-shm/src/lib.rs). */
module ProbeFrame {
  import opened Bits
  import opened RingConfig

  datatype Fields = Fields(
    rank: nat, layer: nat, compId: nat, dtype: Byte, ndim: Byte, shape: seq<nat>,
    tickId: nat, dataOff: nat, size: nat, flags: nat, generation: nat)

  /** Bytes 0..12 of the header. */
  function Coordinates(f: Fields): (s: seq<Byte>)
    ensures |s| == 12
  {
    ToLe(f.rank, 4) + ToLe(f.layer, 4) + ToLe(f.compId, 2) + [f.dtype] + [f.ndim]
  }

  /** The header as one byte string; bytes 44..48 and 80..128 stay zero. */
  function Header(f: Fields): (h: seq<Byte>)
    requires |f.shape| == 8
    ensures |h| == HEADER_SIZE
  {
    Coordinates(f) + LeInts(f.shape, 4) + Zeros(4)
    + ToLe(f.tickId, 8) + ToLe(f.dataOff, 8) + ToLe(f.size, 8) + ToLe(f.flags, 4) + ToLe(f.generation, 4) + Zeros(48)
  }

  function SizeField(h: seq<Byte>): nat
    requires |h| == HEADER_SIZE
  {
    FromLe(h[64..72])
  }

  function GenerationField(h: seq<Byte>): nat
    requires |h| == HEADER_SIZE
  {
    FromLe(h[76..80])
  }

  /** The two fields the consumer checks survive the layout. */
  lemma HeaderFields(f: Fields)
    requires |f.shape| == 8 && f.size < U64_LIMIT && f.generation < U32_LIMIT
    ensures SizeField(Header(f)) == f.size && GenerationField(Header(f)) == f.generation
  {
    assert Header(f)[64..72] == ToLe(f.size, 8);
    assert Header(f)[76..80] == ToLe(f.generation, 4);
    Widths();
    LeRoundTrip(f.size, 8);
    LeRoundTrip(f.generation, 4);
  }

  /** Size, generation and shape at their offsets; what is between and behind the fields is zero. */
  lemma FrameLayout(f: Fields, i: nat)
    requires |f.shape| == 8 && i < 8
    ensures var h := Header(f);
            && |h| == 128 && h[64..72] == ToLe(f.size, 8) && h[76..80] == ToLe(f.generation, 4)
            && h[12..44] == LeInts(f.shape, 4) && LeInts(f.shape, 4)[4 * i..4 * i + 4] == ToLe(f.shape[i], 4)
            && h[44..48] == [0, 0, 0, 0] && forall j :: 80 <= j < 128 ==> h[j] == 0
  {
    var h := Header(f);
    IntAt(f.shape, i);
    assert h == Coordinates(f) + LeInts(f.shape, 4) + Zeros(4) + h[48..];
    MiddleAt(Coordinates(f), LeInts(f.shape, 4), h[48..]);
    assert h == h[..64] + ToLe(f.size, 8) + ToLe(f.flags, 4) + ToLe(f.generation, 4) + Zeros(48);
    TailAt(h[..64], f);
  }

  lemma MiddleAt(front: seq<Byte>, shape: seq<Byte>, back: seq<Byte>)
    requires |front| == 12 && |shape| == 32
    ensures var h := front + shape + Zeros(4) + back; h[12..44] == shape && h[44..48] == [0, 0, 0, 0]
  {
  }

  lemma TailAt(front: seq<Byte>, f: Fields)
    requires |front| == 64
    ensures var h := front + ToLe(f.size, 8) + ToLe(f.flags, 4) + ToLe(f.generation, 4) + Zeros(48);
            && h[64..72] == ToLe(f.size, 8) && h[76..80] == ToLe(f.generation, 4)
            && forall j :: 80 <= j < 128 ==> h[j] == 0
  {
  }

  lemma FourAt(x: seq<Byte>, rest: seq<Byte>, i: nat)
    requires |x| == 4 && 4 * i <= |rest|
    ensures (x + rest)[4 * i..4 * i + 4] == if i == 0 then x else rest[4 * (i - 1)..4 * (i - 1) + 4]
  {
  }

  lemma {:induction false} IntAt(ns: seq<nat>, i: nat)
    requires i < |ns|
    ensures LeInts(ns, 4)[4 * i..4 * i + 4] == ToLe(ns[i], 4)
  {
    FourAt(ToLe(ns[0], 4), LeInts(ns[1..], 4), i);
    if i > 0 {
      IntAt(ns[1..], i - 1);
    }
  }

  /** Fields that fit their widths. */
  predicate Fits(f: Fields) {
    && f.rank < U32_LIMIT && f.layer < U32_LIMIT && f.compId < 0x1_0000
    && |f.shape| == 8 && (forall i :: 0 <= i < 8 ==> f.shape[i] < U32_LIMIT)
    && f.tickId < U64_LIMIT && f.dataOff < U64_LIMIT && f.size < U64_LIMIT
    && f.flags < U32_LIMIT && f.generation < U32_LIMIT
  }

  /** The header read at the published field offsets. */
  function ReadFields(h: seq<Byte>): Fields
    requires |h| == HEADER_SIZE
  {
    Fields(FromLe(h[0..4]), FromLe(h[4..8]), FromLe(h[8..10]), h[10], h[11],
           ReadInts(h[12..44], 8, 4), FromLe(h[48..56]),
           FromLe(h[56..64]), SizeField(h), FromLe(h[72..76]), GenerationField(h))
  }

  lemma ShapeReadsBack(f: Fields)
    requires Fits(f)
    ensures ReadInts(Header(f)[12..44], 8, 4) == f.shape
  {
    assert Header(f)[12..44] == LeInts(f.shape, 4);
    Widths();
    IntsRoundTrip(f.shape, 4);
  }

  lemma CoordinatesReadBack(f: Fields)
    requires Fits(f)
    ensures var h := Header(f);
            && FromLe(h[0..4]) == f.rank && FromLe(h[4..8]) == f.layer && FromLe(h[8..10]) == f.compId
            && h[10] == f.dtype && h[11] == f.ndim
  {
    var c := Coordinates(f);
    assert Header(f)[..12] == c;
    assert Header(f)[0..4] == c[0..4] == ToLe(f.rank, 4);
    assert Header(f)[4..8] == c[4..8] == ToLe(f.layer, 4);
    assert Header(f)[8..10] == c[8..10] == ToLe(f.compId, 2);
    Widths();
    LeRoundTrip(f.rank, 4);
    LeRoundTrip(f.layer, 4);
    LeRoundTrip(f.compId, 2);
  }

  lemma CountersReadBack(f: Fields)
    requires Fits(f)
    ensures var h := Header(f);
            FromLe(h[48..56]) == f.tickId && FromLe(h[56..64]) == f.dataOff && FromLe(h[72..76]) == f.flags
  {
    assert Header(f)[48..56] == ToLe(f.tickId, 8);
    assert Header(f)[56..64] == ToLe(f.dataOff, 8);
    assert Header(f)[72..76] == ToLe(f.flags, 4);
    Widths();
    LeRoundTrip(f.tickId, 8);
    LeRoundTrip(f.dataOff, 8);
    LeRoundTrip(f.flags, 4);
  }

  /** Every field of a header can be read back at its offset. */
  lemma HeaderRoundTrip(f: Fields)
    requires Fits(f)
    ensures ReadFields(Header(f)) == f
  {
    CoordinatesReadBack(f);
    CountersReadBack(f);
    HeaderFields(f);
    ShapeReadsBack(f);
  }

  /** `buf[at..at + |s|].copy_from_slice(s)`, all bytes from `at` on being still zero. */
  method CopyInto(buf: array<Byte>, at: nat, s: seq<Byte>, ghost done: seq<Byte>)
    requires at == |done| && at + |s| <= buf.Length && buf[..] == done + Zeros(buf.Length - at)
    modifies buf
    ensures buf[..] == done + s + Zeros(buf.Length - at - |s|)
  {
    for i := 0 to |s|
      invariant buf[..] == done + s[..i] + Zeros(buf.Length - at - i)
    {
      buf[at + i] := s[i];
    }
  }

  lemma OneMoreDim(shape: seq<nat>, i: nat, done: seq<Byte>)
    requires i < |shape|
    ensures done + LeInts(shape[..i], 4) + ToLe(shape[i], 4) == done + LeInts(shape[..i + 1], 4)
  {
    assert shape[..i + 1] == shape[..i] + [shape[i]];
    LeIntsSnoc(shape[..i], shape[i], 4);
  }

  /** The shape loop. */
  method CopyShape(buf: array<Byte>, shape: seq<nat>, ghost done: seq<Byte>)
    requires |shape| == 8 && |done| == 12 && buf.Length == HEADER_SIZE && buf[..] == done + Zeros(116)
    modifies buf
    ensures buf[..] == done + LeInts(shape, 4) + Zeros(84)
  {
    for i := 0 to 8
      invariant buf[..] == done + LeInts(shape[..i], 4) + Zeros(116 - 4 * i)
    {
      ghost var before := done + LeInts(shape[..i], 4);
      CopyInto(buf, 12 + i * 4, ToLe(shape[i], 4), before);
      OneMoreDim(shape, i, done);
    }
    assert shape[..8] == shape;
  }

  method CopyCoordinates(buf: array<Byte>, f: Fields)
    requires buf.Length == HEADER_SIZE && buf[..] == Zeros(128)
    modifies buf
    ensures buf[..] == Coordinates(f) + Zeros(116)
  {
    assert buf[..] == [] + Zeros(128);
    CopyInto(buf, 0, ToLe(f.rank, 4), []);
    ghost var done := [] + ToLe(f.rank, 4);
    CopyInto(buf, 4, ToLe(f.layer, 4), done);
    done := done + ToLe(f.layer, 4);
    CopyInto(buf, 8, ToLe(f.compId, 2), done);
    done := done + ToLe(f.compId, 2);
    CopyInto(buf, 10, [f.dtype], done);
    done := done + [f.dtype];
    CopyInto(buf, 11, [f.ndim], done);
    assert done + [f.ndim] == Coordinates(f);
  }

  /** `serialize_probe_frame`: the buffer, filled field by field, is the header of its fields. */
  method SerializeProbeFrame(f: Fields) returns (buf: array<Byte>)
    requires |f.shape| == 8
    ensures fresh(buf) && buf[..] == Header(f)
  {
    buf := new Byte[HEADER_SIZE](_ => 0);
    assert buf[..] == Zeros(128);
    CopyCoordinates(buf, f);
    CopyShape(buf, f.shape, Coordinates(f));
    ghost var done := Coordinates(f) + LeInts(f.shape, 4) + Zeros(4);
    assert buf[..] == done + Zeros(80);
    CopyInto(buf, 48, ToLe(f.tickId, 8), done);
    done := done + ToLe(f.tickId, 8);
    CopyInto(buf, 56, ToLe(f.dataOff, 8), done);
    done := done + ToLe(f.dataOff, 8);
    CopyInto(buf, 64, ToLe(f.size, 8), done);
    done := done + ToLe(f.size, 8);
    CopyInto(buf, 72, ToLe(f.flags, 4), done);
    done := done + ToLe(f.flags, 4);
    CopyInto(buf, 76, ToLe(f.generation, 4), done);
  }
}
