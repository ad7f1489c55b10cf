/** What a time series holds, told by the decoder: the field of each entry with the id asked for, inside the range. */
module SeriesMeaning {
  import opened Bytes
  import opened Wire
  import opened DrainCore
  import opened PacketCodec
  import opened PacketIndex
  import opened TimeQuery
  import opened QueryExactness
  import opened LiveQuery
  import LiveCapture

  /** The field's bytes in a payload, zeros when the payload ends before the field does. */
  function FieldOf(payload: seq<Byte>, f: Field): seq<Byte> {
    if f.offset + f.bytes <= |payload| then payload[f.offset..f.offset + f.bytes] else Zeros(f.bytes)
  }

  /** The rows asked for among decoded entries. */
  function Asked(es: seq<Entry>, id: nat, t0: Bound, t1: Bound, f: Field): seq<Row> {
    if |es| == 0 then []
    else
      var e := es[|es| - 1];
      Asked(es[..|es| - 1], id, t0, t1, f) +
      (if e.id == id && (t0.Unbounded? || t0.t <= e.timestamp) && (t1.Unbounded? || e.timestamp <= t1.t)
       then [Row(e.timestamp, FieldOf(e.payload, f))] else [])
  }

  predicate AllDecoded(ps: seq<PacketData>) { forall i :: 0 <= i < |ps| ==> Decoded(ps[i]).Ok? }

  /** The entries of the packets from `from` on, asked packet by packet. */
  function AskedFrom(ps: seq<PacketData>, q: Query, f: Field, from: nat): seq<Row>
    requires AllDecoded(ps) && from <= |ps|
    decreases |ps| - from
  {
    if from == |ps| then []
    else Asked(Decoded(ps[from]).value.entries, q.id, q.t0, q.t1, f) + AskedFrom(ps, q, f, from + 1)
  }

  lemma DecodesIsRoomy(p: PacketData)
    requires Decoded(p).Ok?
    ensures Framed(p) && Roomy(p) && |Decoded(p).value.entries| == Count(p)
    ensures forall k :: 0 <= k < Count(p) ==> RowInside(p, k) && Decoded(p).value.entries[k] == EntryAt(p, k)
  {
    DecodedInside(p);
  }

  /** Row `k` of a packet with others behind it is entry `k` of its decoding. */
  lemma RowIsEntry(p: PacketData, big: seq<Byte>, k: nat, e: Entry, f: Field)
    requires Framed(p) && TableInside(big) && k < Count(p) == Count(big) && RowInside(p, k) && e == EntryAt(p, k)
    requires |p| <= |big| && big[0..|p|] == p
    ensures RowId(big, k) == e.id && RowTimestamp(big, k) == e.timestamp
    ensures PayloadBase(big) + RowOffset(big, k) + RowSize(big, k) <= |big| && Value(big, k, f) == FieldOf(e.payload, f)
  {
    PrefixHeader(p, big);
    PrefixRow(p, big, k);
    PrefixRead(p, big, RowAt(k), 2);
    PrefixField(p, big, PayloadBase(p) + RowOffset(p, k), RowSize(p, k), f);
  }

  lemma PrefixField(p: PacketData, big: seq<Byte>, at: nat, size: nat, f: Field)
    requires |p| <= |big| && big[0..|p|] == p && at + size <= |p|
    ensures f.offset + f.bytes <= size ==>
      big[at + f.offset..at + f.offset + f.bytes] == p[at..at + size][f.offset..f.offset + f.bytes]
  {
    if f.offset + f.bytes <= size {
      SliceSlice(big, 0, |p|, at + f.offset, at + f.offset + f.bytes);
      SliceSlice(p, at, at + size, f.offset, f.offset + f.bytes);
    }
  }

  /** The packet in the buffer decodes to `es`. */
  ghost predicate HoldsEntries(data: seq<Byte>, e: IndexEntry, es: seq<Entry>, f: Field)
    requires Located(data, e)
  {
    var big := PacketFrom(data, e);
    && Count(big) == |es|
    && forall k :: 0 <= k < |es| ==>
         && RowId(big, k) == es[k].id && RowTimestamp(big, k) == es[k].timestamp
         && Value(big, k, f) == FieldOf(es[k].payload, f)
  }

  lemma {:induction false} PacketAsked(data: seq<Byte>, e: IndexEntry, es: seq<Entry>, q: Query, f: Field, n: nat)
    requires Located(data, e) && HoldsEntries(data, e, es, f) && n <= |es|
    ensures PacketRows(data, e, q, f, n) == Asked(es[..n], q.id, q.t0, q.t1, f)
  {
    if n > 0 {
      PacketAsked(data, e, es, q, f, n - 1);
      assert es[..n][..n - 1] == es[..n - 1] && es[..n][n - 1] == es[n - 1];
    }
  }

  lemma LaidHolds(data: seq<Byte>, ix: seq<IndexEntry>, ps: seq<PacketData>, i: nat, f: Field)
    requires LiveCapture.Laid(data, ix, ps) && i < |ps| && Decoded(ps[i]).Ok?
    ensures Located(data, ix[i]) && HoldsEntries(data, ix[i], Decoded(ps[i]).value.entries, f)
  {
    DecodesIsRoomy(ps[i]);
    LaidLocated(data, ix, ps, i);
    IndexAt(ps, 0, i);
    PacketAt(ps, i);
    var p, big := ps[i], PacketFrom(data, ix[i]);
    assert big[0..|p|] == data[ix[i].offset..ix[i].offset + |p|];
    EntriesHeld(data, ix[i], p, big, Decoded(p).value.entries, f);
  }

  lemma EntriesHeld(data: seq<Byte>, e: IndexEntry, p: PacketData, big: seq<Byte>, es: seq<Entry>, f: Field)
    requires Located(data, e) && big == PacketFrom(data, e) && |p| <= |big| && big[0..|p|] == p
    requires Framed(p) && |es| == Count(p)
    requires forall k :: 0 <= k < Count(p) ==> RowInside(p, k) && es[k] == EntryAt(p, k)
    ensures HoldsEntries(data, e, es, f)
  {
    PrefixHeader(p, big);
    forall k | 0 <= k < |es|
      ensures RowId(big, k) == es[k].id && RowTimestamp(big, k) == es[k].timestamp
      ensures Value(big, k, f) == FieldOf(es[k].payload, f)
    {
      RowIsEntry(p, big, k, es[k], f);
    }
  }

  lemma AllLaidHold(data: seq<Byte>, ix: seq<IndexEntry>, ps: seq<PacketData>, f: Field)
    requires LiveCapture.Laid(data, ix, ps) && AllDecoded(ps)
    ensures |ix| == |ps| && AllLocated(data, ix) && AllRoomy(ps)
    ensures forall i :: 0 <= i < |ps| ==> HoldsEntries(data, ix[i], Decoded(ps[i]).value.entries, f)
  {
    forall i | 0 <= i < |ps|
      ensures Located(data, ix[i]) && Roomy(ps[i]) && HoldsEntries(data, ix[i], Decoded(ps[i]).value.entries, f)
    {
      DecodesIsRoomy(ps[i]);
      LaidHolds(data, ix, ps, i, f);
    }
  }

  lemma {:induction false} FilterIsAsked(data: seq<Byte>, ix: seq<IndexEntry>, ps: seq<PacketData>, q: Query, f: Field,
                                         from: nat)
    requires |ix| == |ps| && AllLocated(data, ix) && AllDecoded(ps) && from <= |ps|
    requires forall i :: 0 <= i < |ps| ==> HoldsEntries(data, ix[i], Decoded(ps[i]).value.entries, f)
    ensures LinearFilter(data, ix, q, f, from) == AskedFrom(ps, q, f, from)
    decreases |ps| - from
  {
    if from < |ps| {
      var es := Decoded(ps[from]).value.entries;
      PacketAsked(data, ix[from], es, q, f, |es|);
      assert es[..|es|] == es;
      FilterIsAsked(data, ix, ps, q, f, from + 1);
    }
  }

  /** The linear filter of laid packets, in any order, is what their decoding holds of the id and range. */
  lemma LinearFilterMeans(data: seq<Byte>, ix: seq<IndexEntry>, ps: seq<PacketData>, q: Query, f: Field)
    requires LiveCapture.Laid(data, ix, ps) && AllDecoded(ps)
    ensures AllLocated(data, ix) && LinearFilter(data, ix, q, f, 0) == AskedFrom(ps, q, f, 0)
  {
    AllLaidHold(data, ix, ps, f);
    FilterIsAsked(data, ix, ps, q, f, 0);
  }

  /** So over packets in time order the series of the live capture is exactly that. */
  method LiveSeries(data: seq<Byte>, ix: seq<IndexEntry>, ghost ps: seq<PacketData>, q: Query, f: Field)
    returns (rows: seq<Row>)
    requires LiveCapture.Laid(data, ix, ps) && AllDecoded(ps) && InOrder(ps)
    ensures rows == AskedFrom(ps, q, f, 0)
  {
    AllLaidHold(data, ix, ps, f);
    LinearFilterMeans(data, ix, ps, q, f);
    LiveQueryIsExact(data, ix, ps, q, f);
    rows := Series(data, ix, q, f);
  }

  /** And in whatever order the packets came, every series is that if and only if the index passes the two tests. */
  lemma SeriesExactIff(data: seq<Byte>, ix: seq<IndexEntry>, ps: seq<PacketData>, f: Field)
    requires LiveCapture.Laid(data, ix, ps) && AllDecoded(ps)
    ensures AllLocated(data, ix)
    ensures (forall q :: Scan(data, ix, q, f, Start(ix, q)) == AskedFrom(ps, q, f, 0)) <==>
            MinOrdered(ix) && SearchSafe(ix, 0, |ix|, -1, U64)
  {
    AllLaidHold(data, ix, ps, f);
    forall q ensures Exact(data, ix, q, f) <==> Scan(data, ix, q, f, Start(ix, q)) == AskedFrom(ps, q, f, 0) {
      LinearFilterMeans(data, ix, ps, q, f);
    }
    LiveQueryExactIff(data, ix, ps, f);
  }
}
