/**
 Base-128 varints and field-1 packet framing (crates/perfetto-writer/src/varint.rs and
 writer.rs), with the reader of writer.rs's tests.
 */
module Varint {
  import opened Prelude
  import opened Bits

  /** Seven bits a byte, least significant first, the high bit set on all but the last. */
  function Encoded(value: nat): (s: seq<Byte>)
    ensures s != []
  {
    if value < 128 then [value] else [value % 128 + 128] + Encoded(value / 128)
  }

  lemma LowSevenBits(value: nat)
    ensures And(value, 0x7F) == value % 128
  {
    assert Pow2(7) == 128 by {
      assert Pow2(3) == 8;
      assert Pow2(5) == 4 * Pow2(3);
      assert Pow2(7) == 4 * Pow2(5);
    }
    MaskIsMod(value, 7);
  }

  /** `encode_varint`, appending to a buffer. `>> 7` is division by 128. */
  method EncodeVarint(v: nat, buf: seq<Byte>) returns (r: seq<Byte>)
    ensures r == buf + Encoded(v)
  {
    r := buf;
    var value := v;
    while true
      invariant r + Encoded(value) == buf + Encoded(v)
      decreases value
    {
      LowSevenBits(value);
      var byte := And(value, 0x7F);
      ghost var before := value;
      value := value / 128;
      if value == 0 {
        r := r + [byte];
        break;
      }
      assert Encoded(before) == [byte + 0x80] + Encoded(value);
      r := r + [byte + 0x80];
    }
  }

  /**
   `decode_varint` from its loop state on: `None` is a panic, on a truncated input or on a shift
   past 64 bits.
   */
  function DecodeFrom(buf: seq<Byte>, shift: nat, value: nat): (r: Option<(nat, nat)>)
    ensures r.Some? ==> 0 < r.value.1 <= |buf|
  {
    if buf == [] || shift >= 64 then None
    else
      var value' := value + (buf[0] % 128 * Pow2(shift)) % U64_LIMIT;
      if buf[0] < 128 then Some((value', 1))
      else
        var more := DecodeFrom(buf[1..], shift + 7, value');
        if more.None? then None else Some((more.value.0, more.value.1 + 1))
  }

  function Decode(buf: seq<Byte>): Option<(nat, nat)> {
    DecodeFrom(buf, 0, 0)
  }

  lemma {:induction false} Pow2Mono(a: nat, b: nat)
    requires a <= b
    ensures Pow2(a) <= Pow2(b)
  {
    if a < b {
      Pow2Mono(a, b - 1);
    }
  }

  lemma {:induction false} Pow2Add(a: nat, b: nat)
    ensures Pow2(a + b) == Pow2(a) * Pow2(b)
  {
    if b > 0 {
      Pow2Add(a, b - 1);
      assert Pow2(a + b) == 2 * Pow2(a + b - 1) == 2 * (Pow2(a) * Pow2(b - 1)) == Pow2(a) * Pow2(b);
    }
  }

  lemma SixtyFour()
    ensures Pow2(7) == 128 && Pow2(64) == U64_LIMIT
  {
    assert Pow2(4) == 16;
    Pow2Add(4, 3);
    Pow2Add(4, 4);
    Pow2Add(8, 8);
    Pow2Add(16, 16);
    Pow2Add(32, 32);
  }

  lemma SplitProduct(v: nat, p: nat)
    ensures 0 <= v % 128 * p && 0 <= (v / 128) * (p * 128)
    ensures v * p == v % 128 * p + (v / 128) * (p * 128)
  {
    var q, r := v / 128, v % 128;
    assert v == 128 * q + r;
    assert (128 * q + r) * p == (128 * q) * p + r * p;
    assert (128 * q) * p == q * (p * 128);
    MulMono(0, r, p);
    MulMono(0, q, p * 128);
  }

  /** The arithmetic of one decoding step: the high part keeps room for the shift it needs. */
  lemma ShiftStep(v: nat, shift: nat)
    requires v >= 128 && v * Pow2(shift) < U64_LIMIT
    ensures 0 <= v % 128 * Pow2(shift) && 0 <= (v / 128) * Pow2(shift + 7)
    ensures shift + 7 < 64 && v * Pow2(shift) == v % 128 * Pow2(shift) + (v / 128) * Pow2(shift + 7)
  {
    SixtyFour();
    Pow2Add(shift, 7);
    SplitProduct(v, Pow2(shift));
    MulMono(128, v, Pow2(shift));
    if shift + 7 >= 64 {
      Pow2Mono(64, shift + 7);
    }
  }

  lemma DecodeLast(b: Byte, rest: seq<Byte>, shift: nat, value: nat)
    requires b < 128 && shift < 64 && b * Pow2(shift) < U64_LIMIT
    ensures DecodeFrom([b] + rest, shift, value) == Some((value + b * Pow2(shift), 1))
  {
    assert b % 128 == b && 0 <= b * Pow2(shift);
  }

  lemma DecodeMore(b: Byte, rest: seq<Byte>, shift: nat, value: nat, r: (nat, nat))
    requires b < 128 && shift < 64 && 0 <= b * Pow2(shift) < U64_LIMIT
    requires DecodeFrom(rest, shift + 7, value + b * Pow2(shift)) == Some(r)
    ensures DecodeFrom([b + 128] + rest, shift, value) == Some((r.0, r.1 + 1))
  {
    var buf := [b + 128] + rest;
    assert buf[0] % 128 == b && buf[1..] == rest;
    assert (buf[0] % 128 * Pow2(shift)) % U64_LIMIT == b * Pow2(shift);
  }

  lemma {:induction false} DecodeEncoded(v: nat, rest: seq<Byte>, shift: nat, value: nat)
    requires shift < 64 && v * Pow2(shift) < U64_LIMIT
    ensures DecodeFrom(Encoded(v) + rest, shift, value) == Some((value + v * Pow2(shift), |Encoded(v)|))
    decreases v
  {
    if v < 128 {
      DecodeLast(v, rest, shift, value);
    } else {
      ShiftStep(v, shift);
      var low, high := v % 128 * Pow2(shift), (v / 128) * Pow2(shift + 7);
      DecodeEncoded(v / 128, rest, shift + 7, value + low);
      DecodeMore(v % 128, Encoded(v / 128) + rest, shift, value, (value + low + high, |Encoded(v / 128)|));
      assert Encoded(v) + rest == [v % 128 + 128] + (Encoded(v / 128) + rest);
    }
  }

  /** Reading back gives the value and its exact length, whatever follows. */
  lemma RoundTrip(v: nat, rest: seq<Byte>)
    requires v < U64_LIMIT
    ensures Decode(Encoded(v) + rest) == Some((v, |Encoded(v)|))
  {
    DecodeEncoded(v, rest, 0, 0);
  }

  lemma {:induction false} LengthBound(v: nat, k: nat)
    requires k > 0 && v < Pow2(7 * k)
    ensures |Encoded(v)| <= k
  {
    SixtyFour();
    if v >= 128 {
      assert k > 1;
      Pow2Add(7 * (k - 1), 7);
      LengthBound(v / 128, k - 1);
    }
  }

  /** A 64-bit varint takes at most ten bytes, and only its last byte has the high bit clear. */
  lemma {:induction false} SelfDelimiting(v: nat)
    requires v < U64_LIMIT
    ensures |Encoded(v)| <= 10
    ensures forall i :: 0 <= i < |Encoded(v)| ==> (Encoded(v)[i] < 128 <==> i == |Encoded(v)| - 1)
  {
    SixtyFour();
    Pow2Mono(64, 70);
    LengthBound(v, 10);
    if v >= 128 {
      SelfDelimiting(v / 128);
    }
  }

  /** The number whose base-128 digits, least significant first, are the low seven bits of the bytes. */
  function Weighted(s: seq<Byte>): nat {
    if s == [] then 0 else s[0] % 128 + 128 * Weighted(s[1..])
  }

  /**
   The bytes are the number's base-128 digits, least significant first and none to spare; all but
   the last carry the high bit.
   */
  lemma {:induction false} EncodedIs(v: nat)
    ensures var s := Encoded(v);
            && Weighted(s) == v && (|s| > 1 ==> s[|s| - 1] != 0)
            && forall i :: 0 <= i < |s| ==> (s[i] >= 128 <==> i < |s| - 1)
  {
    if v >= 128 {
      EncodedIs(v / 128);
      assert Encoded(v)[1..] == Encoded(v / 128);
    }
  }

  // ----- packets -----

  /** One packet on the wire: the field-1 tag, the length, the payload. */
  function Framed(payload: seq<Byte>): seq<Byte> {
    [0x0A] + Encoded(|payload|) + payload
  }

  function AllFramed(payloads: seq<seq<Byte>>): seq<Byte> {
    if payloads == [] then [] else Framed(payloads[0]) + AllFramed(payloads[1..])
  }

  /** `write_packet`: the scratch buffer is cleared, refilled and appended to the output. */
  class TraceWriter {
    var out: seq<Byte>
    var buf: seq<Byte>

    constructor ()
      ensures out == []
    {
      out, buf := [], [];
    }

    method WritePacket(payload: seq<Byte>)
      modifies this
      ensures out == old(out) + Framed(payload) && buf == Framed(payload)
      ensures buf[0] == 0x0A && buf[1..] == Encoded(|payload|) + payload
    {
      buf := [];
      buf := buf + [0x0A];
      buf := EncodeVarint(|payload|, buf);
      buf := buf + payload;
      out := out + buf;
    }
  }

  /** `decode_trace_packets`; `None` is a panic. */
  function Packets(data: seq<Byte>): Option<seq<seq<Byte>>> {
    if data == [] then Some([])
    else if data[0] != 0x0A then None
    else
      var len := Decode(data[1..]);
      if len.None? || 1 + len.value.1 + len.value.0 > |data| then None
      else
        var start, end := 1 + len.value.1, 1 + len.value.1 + len.value.0;
        var more := Packets(data[end..]);
        if more.None? then None else Some([data[start..end]] + more.value)
  }

  /** `decode_varint` as a loop. */
  method DecodeVarint(buf: seq<Byte>) returns (r: Option<(nat, nat)>)
    ensures r == Decode(buf)
  {
    var value: nat, shift: nat := 0, 0;
    assert buf[0..] == buf;
    for i := 0 to |buf|
      invariant shift == 7 * i
      invariant Decode(buf) == var d := DecodeFrom(buf[i..], shift, value);
                               if d.None? then None else Some((d.value.0, d.value.1 + i))
    {
      if shift >= 64 {
        return None;
      }
      assert buf[i..][1..] == buf[i + 1..];
      value := value + (buf[i] % 128 * Pow2(shift)) % U64_LIMIT;
      if buf[i] < 128 {
        return Some((value, i + 1));
      }
      shift := shift + 7;
    }
    return None;
  }

  /** Where the payload of the packet at `offset` starts and ends. */
  function Bounds(data: seq<Byte>, offset: nat): (r: Option<(nat, nat)>)
    requires offset < |data|
    ensures r.Some? ==> offset < r.value.0 <= r.value.1 <= |data|
  {
    if data[offset] != 0x0A then None
    else
      var len := Decode(data[offset + 1..]);
      if len.None? || offset + 1 + len.value.1 + len.value.0 > |data| then None
      else Some((offset + 1 + len.value.1, offset + 1 + len.value.1 + len.value.0))
  }

  lemma PacketAt(data: seq<Byte>, offset: nat)
    requires offset < |data|
    ensures var b := Bounds(data, offset);
            if b.None? then Packets(data[offset..]).None?
            else
              && (Packets(data[offset..]).Some? <==> Packets(data[b.value.1..]).Some?)
              && (Packets(data[offset..]).Some? ==>
                    Packets(data[offset..]).value == [data[b.value.0..b.value.1]] + Packets(data[b.value.1..]).value)
  {
    var rest := data[offset..];
    assert rest[1..] == data[offset + 1..];
    var b := Bounds(data, offset);
    if b.Some? {
      var (start, end) := b.value;
      assert rest[start - offset..end - offset] == data[start..end];
      assert rest[end - offset..] == data[end..];
    }
  }

  method NextPacket(data: seq<Byte>, start: nat) returns (r: Option<(nat, nat)>)
    requires start < |data|
    ensures r == Bounds(data, start)
  {
    var offset := start;
    if data[offset] != 0x0A {
      return None;
    }
    offset := offset + 1;
    var len := DecodeVarint(data[offset..]);
    if len.None? {
      return None;
    }
    offset := offset + len.value.1;
    if offset + len.value.0 > |data| {
      return None;
    }
    return Some((offset, offset + len.value.0));
  }

  /** The offset loop of `decode_trace_packets`. */
  method DecodeTracePackets(data: seq<Byte>) returns (r: Option<seq<seq<Byte>>>)
    ensures r == Packets(data)
  {
    var packets: seq<seq<Byte>> := [];
    var offset := 0;
    assert data[0..] == data;
    while offset < |data|
      invariant 0 <= offset <= |data|
      invariant Packets(data).Some? <==> Packets(data[offset..]).Some?
      invariant Packets(data).Some? ==> Packets(data).value == packets + Packets(data[offset..]).value
    {
      PacketAt(data, offset);
      var bounds := NextPacket(data, offset);
      if bounds.None? {
        return None;
      }
      packets := packets + [data[bounds.value.0..bounds.value.1]];
      offset := bounds.value.1;
    }
    assert Packets(data[offset..]) == Some([]);
    assert packets + [] == packets;
    return Some(packets);
  }

  /** Any packets written one after another are read back exactly. */
  lemma {:induction false} PacketsRoundTrip(payloads: seq<seq<Byte>>)
    requires forall p :: p in payloads ==> |p| < U64_LIMIT
    ensures Packets(AllFramed(payloads)) == Some(payloads)
  {
    if payloads != [] {
      var p, rest := payloads[0], AllFramed(payloads[1..]);
      var data, n := AllFramed(payloads), |Encoded(|payloads[0]|)|;
      assert data[1..] == Encoded(|p|) + (p + rest);
      RoundTrip(|p|, p + rest);
      assert data[1 + n..1 + n + |p|] == p;
      assert data[1 + n + |p|..] == rest;
      PacketsRoundTrip(payloads[1..]);
      assert payloads == [p] + payloads[1..];
    }
  }
}
