/** The packed batch format: the bytes of a packet and the decoder that reads any bytes back. */
module PacketCodec {
  import opened Bytes
  import opened Wire
  import opened DrainCore

  // --------------------------------------------------------------------------------------- the format

  function PayloadBytes(es: seq<Entry>): seq<Byte> {
    if |es| == 0 then [] else PayloadBytes(es[..|es| - 1]) + es[|es| - 1].payload
  }

  function RowBytes(e: Entry, off: nat): (s: seq<Byte>)
    ensures |s| == ENTRY_HEADER
  {
    LE(e.id, 2) + LE(|e.payload|, 2) + LE(off, 4) + LE(e.timestamp, 8)
  }

  function TableBytes(es: seq<Entry>): (s: seq<Byte>)
    ensures |s| == ENTRY_HEADER * |es|
  {
    if |es| == 0 then []
    else TableBytes(es[..|es| - 1]) + RowBytes(es[|es| - 1], |PayloadBytes(es[..|es| - 1])|)
  }

  function HeaderBytes(count: nat, size: nat, dropped: nat): (s: seq<Byte>)
    ensures |s| == PACKET_HEADER
  {
    LE(count, 2) + LE(0, 2) + LE(size, 4) + LE(dropped, 4) + LE(0, 4)
  }

  function PacketBytes(es: seq<Entry>, dropped: nat): (s: seq<Byte>)
    ensures |s| == PACKET_HEADER + ENTRY_HEADER * |es| + |PayloadBytes(es)|
  {
    HeaderBytes(|es|, |PayloadBytes(es)|, dropped) + TableBytes(es) + PayloadBytes(es)
  }

  /** The fields of the format are wide enough. */
  predicate Encodable(es: seq<Entry>) {
    && |es| < U16 && |PayloadBytes(es)| < U32
    && forall i :: 0 <= i < |es| ==> es[i].id < U16 && |es[i].payload| < U16 && es[i].timestamp < U64
  }

  // -------------------------------------------------------------------------------------- the decoder

  datatype Packet = Packet(count: nat, flags: nat, payloadSize: nat, dropped: nat, entries: seq<Entry>)

  function Count(buf: seq<Byte>): nat
    requires |buf| >= PACKET_HEADER
  {
    Read(buf, 0, 2)
  }

  function PayloadSize(buf: seq<Byte>): nat
    requires |buf| >= PACKET_HEADER
  {
    Read(buf, 4, 4)
  }

  function PayloadBase(buf: seq<Byte>): (n: nat)
    requires |buf| >= PACKET_HEADER
    ensures n >= PACKET_HEADER
  {
    PACKET_HEADER + ENTRY_HEADER * Count(buf)
  }

  function RowAt(i: nat): nat { PACKET_HEADER + ENTRY_HEADER * i }

  predicate TableInside(buf: seq<Byte>) {
    |buf| >= PACKET_HEADER && PayloadBase(buf) <= |buf|
  }

  /** Header, table and payload region all lie inside the bytes. */
  predicate Framed(buf: seq<Byte>) {
    TableInside(buf) && PayloadBase(buf) + PayloadSize(buf) <= |buf|
  }

  function RowId(buf: seq<Byte>, i: nat): nat
    requires TableInside(buf) && i < Count(buf)
  {
    Read(buf, RowAt(i), 2)
  }

  function RowSize(buf: seq<Byte>, i: nat): nat
    requires TableInside(buf) && i < Count(buf)
  {
    Read(buf, RowAt(i) + 2, 2)
  }

  function RowOffset(buf: seq<Byte>, i: nat): nat
    requires TableInside(buf) && i < Count(buf)
  {
    Read(buf, RowAt(i) + 4, 4)
  }

  function RowTimestamp(buf: seq<Byte>, i: nat): (t: nat)
    requires TableInside(buf) && i < Count(buf)
    ensures t < U64
  {
    Read(buf, RowAt(i) + 8, 8)
  }

  /** The row's payload slice lies inside the payload region. */
  predicate RowInside(buf: seq<Byte>, i: nat)
    requires TableInside(buf) && i < Count(buf)
  {
    RowOffset(buf, i) + RowSize(buf, i) <= PayloadSize(buf)
  }

  function EntryAt(buf: seq<Byte>, i: nat): Entry
    requires Framed(buf) && i < Count(buf) && RowInside(buf, i)
  {
    var p := PayloadBase(buf) + RowOffset(buf, i);
    Entry(RowTimestamp(buf, i), RowId(buf, i), buf[p..p + RowSize(buf, i)])
  }

  /** The first row at or after `i` whose payload leaves the region; the row count when there is none. */
  function FirstBad(buf: seq<Byte>, i: nat): (k: nat)
    requires Framed(buf) && i <= Count(buf)
    ensures i <= k <= Count(buf)
    ensures k < Count(buf) ==> !RowInside(buf, k)
    ensures forall j :: i <= j < k ==> RowInside(buf, j)
    decreases Count(buf) - i
  {
    if i == Count(buf) || !RowInside(buf, i) then i else FirstBad(buf, i + 1)
  }

  function Decoded(buf: seq<Byte>): Result<Packet> {
    if |buf| < PACKET_HEADER then Err(Short(PACKET_HEADER, |buf|))
    else if |buf| < PayloadBase(buf) then Err(Short(PayloadBase(buf), |buf|))
    else if |buf| < PayloadBase(buf) + PayloadSize(buf) then Err(Short(PayloadBase(buf) + PayloadSize(buf), |buf|))
    else
      var k := FirstBad(buf, 0);
      if k < Count(buf) then Err(PayloadOob(RowOffset(buf, k), RowSize(buf, k), PayloadSize(buf)))
      else Ok(Packet(Count(buf), Read(buf, 2, 2), PayloadSize(buf), Read(buf, 8, 4),
                     seq(Count(buf), i requires 0 <= i < Count(buf) => EntryAt(buf, i))))
  }

  /** `decode_packet`. */
  method DecodePacket(buf: seq<Byte>) returns (r: Result<Packet>)
    ensures r == Decoded(buf)
  {
    if |buf| < PACKET_HEADER { return Err(Short(PACKET_HEADER, |buf|)); }
    var count, size, base := Count(buf), PayloadSize(buf), PayloadBase(buf);
    if |buf| < base { return Err(Short(base, |buf|)); }
    if |buf| < base + size { return Err(Short(base + size, |buf|)); }
    var entries: seq<Entry> := [];
    var i := 0;
    while i < count
      invariant 0 <= i <= count && |entries| == i
      invariant FirstBad(buf, 0) == FirstBad(buf, i)
      invariant forall j :: 0 <= j < i ==> RowInside(buf, j) && entries[j] == EntryAt(buf, j)
    {
      var psize, poff := RowSize(buf, i), RowOffset(buf, i);
      if poff + psize > size {
        return Err(PayloadOob(poff, psize, size));
      }
      var start := base + poff;
      entries := entries + [Entry(RowTimestamp(buf, i), RowId(buf, i), buf[start..start + psize])];
      i := i + 1;
    }
    assert entries == seq(Count(buf), i requires 0 <= i < Count(buf) => EntryAt(buf, i));
    r := Ok(Packet(count, Read(buf, 2, 2), size, Read(buf, 8, 4), entries));
  }

  /** Decoding is total; it succeeds exactly on framed packets whose rows all stay inside the payload region,
      and then every payload is its row's slice of that region, never a byte outside it. */
  lemma DecodedInside(buf: seq<Byte>)
    ensures Decoded(buf).Ok? <==> Framed(buf) && forall i :: 0 <= i < Count(buf) ==> RowInside(buf, i)
    ensures Decoded(buf).Ok? ==>
      var es := Decoded(buf).value.entries;
      var region := buf[PayloadBase(buf)..PayloadBase(buf) + PayloadSize(buf)];
      && |es| == Count(buf)
      && forall i :: 0 <= i < |es| ==>
           && RowOffset(buf, i) + RowSize(buf, i) <= |region|
           && es[i].payload == region[RowOffset(buf, i)..RowOffset(buf, i) + RowSize(buf, i)]
  {
    if Decoded(buf).Ok? {
      var es := Decoded(buf).value.entries;
      var base, size := PayloadBase(buf), PayloadSize(buf);
      assert FirstBad(buf, 0) == Count(buf);
      forall i | 0 <= i < |es|
        ensures RowInside(buf, i)
        ensures es[i].payload == buf[base..base + size][RowOffset(buf, i)..RowOffset(buf, i) + RowSize(buf, i)]
      {
        assert RowInside(buf, i) && es[i] == EntryAt(buf, i);
        SliceSlice(buf, base, base + size, RowOffset(buf, i), RowOffset(buf, i) + RowSize(buf, i));
      }
    }
  }

  // ----------------------------------------------------------------------------------- the round trip

  lemma {:induction false} PayloadSlice(es: seq<Entry>, i: nat)
    requires i < |es|
    ensures |PayloadBytes(es[..i])| + |es[i].payload| <= |PayloadBytes(es)|
    ensures PayloadBytes(es)[|PayloadBytes(es[..i])|..|PayloadBytes(es[..i])| + |es[i].payload|] == es[i].payload
  {
    var init := es[..|es| - 1];
    if i < |es| - 1 {
      PayloadSlice(init, i);
      assert init[..i] == es[..i];
    }
  }

  lemma {:induction false} TableRow(es: seq<Entry>, i: nat)
    requires i < |es|
    ensures TableBytes(es)[ENTRY_HEADER * i..ENTRY_HEADER * i + ENTRY_HEADER] ==
      RowBytes(es[i], |PayloadBytes(es[..i])|)
  {
    var init := es[..|es| - 1];
    if i < |es| - 1 {
      TableRow(init, i);
      assert init[..i] == es[..i];
    }
  }

  lemma HeaderFields(buf: seq<Byte>, count: nat, size: nat, dropped: nat)
    requires |buf| >= PACKET_HEADER && buf[..PACKET_HEADER] == HeaderBytes(count, size, dropped)
    requires count < U16 && size < U32 && dropped < U32
    ensures Count(buf) == count && Read(buf, 2, 2) == 0 && PayloadSize(buf) == size && Read(buf, 8, 4) == dropped
  {
    PowValues();
    var h := HeaderBytes(count, size, dropped);
    assert h[0..2] == LE(count, 2) && h[2..4] == LE(0, 2) && h[4..8] == LE(size, 4) && h[8..12] == LE(dropped, 4);
    assert buf[0..2] == h[0..2] && buf[2..4] == h[2..4] && buf[4..8] == h[4..8] && buf[8..12] == h[8..12];
    ReadLE(buf, 0, count, 2);
    ReadLE(buf, 2, 0, 2);
    ReadLE(buf, 4, size, 4);
    ReadLE(buf, 8, dropped, 4);
  }

  lemma ReservedField(buf: seq<Byte>, count: nat, size: nat, dropped: nat)
    requires |buf| >= PACKET_HEADER && buf[..PACKET_HEADER] == HeaderBytes(count, size, dropped)
    ensures Read(buf, 12, 4) == 0
  {
    PowValues();
    var h := HeaderBytes(count, size, dropped);
    assert h[12..16] == LE(0, 4) && buf[12..16] == h[12..16];
    ReadLE(buf, 12, 0, 4);
  }

  lemma RowFields(buf: seq<Byte>, at: nat, e: Entry, off: nat)
    requires at + ENTRY_HEADER <= |buf| && buf[at..at + ENTRY_HEADER] == RowBytes(e, off)
    requires e.id < U16 && |e.payload| < U16 && off < U32 && e.timestamp < U64
    ensures Read(buf, at, 2) == e.id && Read(buf, at + 2, 2) == |e.payload|
    ensures Read(buf, at + 4, 4) == off && Read(buf, at + 8, 8) == e.timestamp
  {
    PowValues();
    var row := RowBytes(e, off);
    assert row[0..2] == LE(e.id, 2) && row[2..4] == LE(|e.payload|, 2) && row[4..8] == LE(off, 4)
      && row[8..16] == LE(e.timestamp, 8);
    SliceSlice(buf, at, at + ENTRY_HEADER, 0, 2);
    SliceSlice(buf, at, at + ENTRY_HEADER, 2, 4);
    SliceSlice(buf, at, at + ENTRY_HEADER, 4, 8);
    SliceSlice(buf, at, at + ENTRY_HEADER, 8, 16);
    ReadLE(buf, at, e.id, 2);
    ReadLE(buf, at + 2, |e.payload|, 2);
    ReadLE(buf, at + 4, off, 4);
    ReadLE(buf, at + 8, e.timestamp, 8);
  }

  lemma EncodedParts(es: seq<Entry>, dropped: nat)
    ensures var buf := PacketBytes(es, dropped);
      var base := PACKET_HEADER + ENTRY_HEADER * |es|;
      && buf[..PACKET_HEADER] == HeaderBytes(|es|, |PayloadBytes(es)|, dropped)
      && buf[PACKET_HEADER..base] == TableBytes(es)
      && buf[base..base + |PayloadBytes(es)|] == PayloadBytes(es)
  {
    ThreeParts(HeaderBytes(|es|, |PayloadBytes(es)|, dropped), TableBytes(es), PayloadBytes(es));
  }

  /** Row `i` of an encoded packet reads back as entry `i`. */
  lemma EncodedRow(buf: seq<Byte>, es: seq<Entry>, i: nat)
    requires Encodable(es) && i < |es| && |buf| == PACKET_HEADER + ENTRY_HEADER * |es| + |PayloadBytes(es)|
    requires buf[PACKET_HEADER..PACKET_HEADER + ENTRY_HEADER * |es|] == TableBytes(es)
    requires Count(buf) == |es|
    ensures RowId(buf, i) == es[i].id && RowSize(buf, i) == |es[i].payload|
    ensures RowOffset(buf, i) == |PayloadBytes(es[..i])| && RowTimestamp(buf, i) == es[i].timestamp
  {
    var off := |PayloadBytes(es[..i])|;
    TableRow(es, i);
    PayloadSlice(es, i);
    Nested(buf, PACKET_HEADER, ENTRY_HEADER * |es|, TableBytes(es), ENTRY_HEADER * i, ENTRY_HEADER,
      RowBytes(es[i], off));
    RowFields(buf, RowAt(i), es[i], off);
  }

  lemma EncodedEntry(buf: seq<Byte>, es: seq<Entry>, i: nat)
    requires Encodable(es) && i < |es| && |buf| == PACKET_HEADER + ENTRY_HEADER * |es| + |PayloadBytes(es)|
    requires buf[PACKET_HEADER..PACKET_HEADER + ENTRY_HEADER * |es|] == TableBytes(es)
    requires buf[PACKET_HEADER + ENTRY_HEADER * |es|..] == PayloadBytes(es)
    requires Count(buf) == |es| && PayloadSize(buf) == |PayloadBytes(es)|
    ensures RowInside(buf, i) && EntryAt(buf, i) == es[i]
  {
    EncodedRow(buf, es, i);
    PayloadSlice(es, i);
    var off, base := |PayloadBytes(es[..i])|, PayloadBase(buf);
    SliceSlice(buf, base, |buf|, off, off + |es[i].payload|);
    assert buf[base..|buf|] == buf[base..];
  }

  /** The bytes of a packet, position by position: a header of 16, rows of 16, payloads end to end. */
  ghost predicate PacketLaid(buf: seq<Byte>, es: seq<Entry>, dropped: nat) {
    && |buf| == 16 + 16 * |es| + |PayloadBytes(es)|
    && Read(buf, 0, 2) == |es| && Read(buf, 2, 2) == 0 && Read(buf, 4, 4) == |PayloadBytes(es)|
    && Read(buf, 8, 4) == dropped && Read(buf, 12, 4) == 0
    && forall i :: 0 <= i < |es| ==> RowLaid(buf, es, i)
  }

  ghost predicate RowLaid(buf: seq<Byte>, es: seq<Entry>, i: nat)
    requires i < |es| && 16 + 16 * |es| <= |buf|
  {
    var at, base, off := 16 + 16 * i, 16 + 16 * |es|, |PayloadBytes(es[..i])|;
    && Read(buf, at, 2) == es[i].id && Read(buf, at + 2, 2) == |es[i].payload|
    && Read(buf, at + 4, 4) == off && Read(buf, at + 8, 8) == es[i].timestamp
    && base + off + |es[i].payload| <= |buf| && buf[base + off..base + off + |es[i].payload|] == es[i].payload
  }

  lemma PacketLayout(es: seq<Entry>, dropped: nat)
    requires Encodable(es) && dropped < U32
    ensures PacketLaid(PacketBytes(es, dropped), es, dropped)
  {
    var buf := PacketBytes(es, dropped);
    EncodedParts(es, dropped);
    HeaderFields(buf, |es|, |PayloadBytes(es)|, dropped);
    ReservedField(buf, |es|, |PayloadBytes(es)|, dropped);
    forall i | 0 <= i < |es| ensures RowLaid(buf, es, i) { RowIsLaid(buf, es, i); }
  }

  lemma RowIsLaid(buf: seq<Byte>, es: seq<Entry>, i: nat)
    requires Encodable(es) && i < |es| && |buf| == 16 + 16 * |es| + |PayloadBytes(es)|
    requires buf[16..16 + 16 * |es|] == TableBytes(es) && Count(buf) == |es|
    requires buf[16 + 16 * |es|..16 + 16 * |es| + |PayloadBytes(es)|] == PayloadBytes(es)
    ensures RowLaid(buf, es, i)
  {
    EncodedRow(buf, es, i);
    PayloadSlice(es, i);
    var base, off := 16 + 16 * |es|, |PayloadBytes(es[..i])|;
    SliceSlice(buf, base, base + |PayloadBytes(es)|, off, off + |es[i].payload|);
  }

  /** The drop count of a packet is its third field, whatever it packs. */
  lemma DropField(es: seq<Entry>, dropped: nat)
    requires dropped < U32
    ensures Read(PacketBytes(es, dropped), 8, 4) == dropped
  {
    PowValues();
    var buf, h := PacketBytes(es, dropped), HeaderBytes(|es|, |PayloadBytes(es)|, dropped);
    EncodedParts(es, dropped);
    assert h[8..12] == LE(dropped, 4);
    assert buf[8..12] == buf[..PACKET_HEADER][8..12];
    ReadLE(buf, 8, dropped, 4);
  }

  /** Decoding an encoded packet returns the entries in order with their ids, timestamps and payloads. */
  lemma RoundTrip(es: seq<Entry>, dropped: nat)
    requires Encodable(es) && dropped < U32
    ensures Decoded(PacketBytes(es, dropped)) == Ok(Packet(|es|, 0, |PayloadBytes(es)|, dropped, es))
  {
    var buf := PacketBytes(es, dropped);
    EncodedParts(es, dropped);
    HeaderFields(buf, |es|, |PayloadBytes(es)|, dropped);
    assert buf[PayloadBase(buf)..|buf|] == buf[PayloadBase(buf)..];
    forall i | 0 <= i < |es| ensures RowInside(buf, i) && EntryAt(buf, i) == es[i] {
      EncodedEntry(buf, es, i);
    }
    assert FirstBad(buf, 0) == |es|;
    assert seq(Count(buf), i requires 0 <= i < Count(buf) => EntryAt(buf, i)) == es;
  }
}
