/** Time queries over the live capture: its buffer and index meet what the search relies on. */
module LiveQuery {
  import opened Bytes
  import opened DrainCore
  import opened PacketCodec
  import opened PacketIndex
  import opened TimeQuery
  import opened QueryExactness
  import LiveCapture

  /** Every payload slice stays inside the packet. */
  predicate Roomy(p: PacketData)
    requires TableInside(p)
  {
    forall k :: 0 <= k < Count(p) ==> PayloadBase(p) + RowOffset(p, k) + RowSize(p, k) <= |p|
  }

  predicate AllRoomy(ps: seq<PacketData>)
    requires WellFormed(ps)
  {
    forall i :: 0 <= i < |ps| ==> Roomy(ps[i])
  }

  /** No packet is empty, and their time bounds do not go back. */
  predicate InOrder(ps: seq<PacketData>)
    requires WellFormed(ps)
  {
    && (forall i :: 0 <= i < |ps| ==> Count(ps[i]) > 0)
    && forall i, j :: 0 <= i < j < |ps| ==>
         MetaOf(ps[i]).tsMin <= MetaOf(ps[j]).tsMin && MetaOf(ps[i]).tsMax <= MetaOf(ps[j]).tsMax
  }

  lemma PrefixRead(p: PacketData, big: seq<Byte>, off: nat, w: nat)
    requires |p| <= |big| && big[0..|p|] == p && off + w <= |p|
    ensures Read(big, off, w) == Read(p, off, w)
  {
    ReadSlice(big, 0, |p|, off, w);
  }

  lemma PrefixHeader(p: PacketData, big: seq<Byte>)
    requires TableInside(p) && |p| <= |big| && big[0..|p|] == p
    ensures TableInside(big) && Count(big) == Count(p) && PayloadBase(big) == PayloadBase(p)
  {
    PrefixRead(p, big, 0, 2);
  }

  lemma PrefixRow(p: PacketData, big: seq<Byte>, k: nat)
    requires TableInside(p) && |p| <= |big| && big[0..|p|] == p && TableInside(big) && k < Count(p) == Count(big)
    ensures RowOffset(big, k) == RowOffset(p, k) && RowSize(big, k) == RowSize(p, k)
    ensures RowTimestamp(big, k) == RowTimestamp(p, k)
  {
    PrefixRead(p, big, RowAt(k) + 2, 2);
    PrefixRead(p, big, RowAt(k) + 4, 4);
    PrefixRead(p, big, RowAt(k) + 8, 8);
  }

  lemma AttainedInPrefix(p: PacketData, big: seq<Byte>, m: Meta)
    requires TableInside(p) && |p| <= |big| && big[0..|p|] == p && TableInside(big) && 0 < Count(p) == Count(big)
    requires m == MetaOf(p)
    ensures exists k :: 0 <= k < Count(big) && RowTimestamp(big, k) == m.tsMin
    ensures exists k :: 0 <= k < Count(big) && RowTimestamp(big, k) == m.tsMax
  {
    MetaBounds(p);
    var lo :| 0 <= lo < Count(p) && m.tsMin == RowTimestamp(p, lo);
    var hi :| 0 <= hi < Count(p) && m.tsMax == RowTimestamp(p, hi);
    PrefixRow(p, big, lo);
    PrefixRow(p, big, hi);
  }

  /** A packet with others behind it is still located and bounded by its own metadata. */
  lemma PrefixLocated(data: seq<Byte>, e: IndexEntry, p: PacketData)
    requires TableInside(p) && Roomy(p) && e.meta == MetaOf(p)
    requires e.offset + |p| <= |data| && PacketFrom(data, e)[0..|p|] == p
    ensures Located(data, e) && Bounding(data, e) && Tight(data, e)
  {
    var big := PacketFrom(data, e);
    PrefixHeader(p, big);
    MetaBounds(p);
    if Count(p) > 0 { AttainedInPrefix(p, big, e.meta); }
    forall k | 0 <= k < Count(big)
      ensures PayloadBase(big) + RowOffset(big, k) + RowSize(big, k) <= |big|
      ensures e.meta.tsMin <= RowTimestamp(big, k) <= e.meta.tsMax
    {
      PrefixRow(p, big, k);
    }
  }

  lemma LaidEntry(data: seq<Byte>, ps: seq<PacketData>, e: IndexEntry, i: nat)
    requires WellFormed(ps) && data == Flatten(ps) && i < |ps| && Roomy(ps[i])
    requires e == IndexEntry(|Flatten(ps[..i])|, MetaOf(ps[i]))
    ensures Located(data, e) && Bounding(data, e) && Tight(data, e)
  {
    var p := ps[i];
    PacketAt(ps, i);
    assert PacketFrom(data, e)[0..|p|] == data[e.offset..e.offset + |p|];
    PrefixLocated(data, e, p);
  }

  lemma LaidLocated(data: seq<Byte>, ix: seq<IndexEntry>, ps: seq<PacketData>, i: nat)
    requires LiveCapture.Laid(data, ix, ps) && i < |ps| && Roomy(ps[i])
    ensures Located(data, ix[i]) && Bounding(data, ix[i]) && Tight(data, ix[i])
  {
    IndexAt(ps, 0, i);
    LaidEntry(data, ps, ix[i], i);
  }

  lemma LaidSorted(ps: seq<PacketData>)
    requires WellFormed(ps) && InOrder(ps)
    ensures Sorted(IndexOf(ps, 0))
  {
    var ix := IndexOf(ps, 0);
    forall i, j | 0 <= i < j < |ix|
      ensures ix[i].meta.tsMin <= ix[j].meta.tsMin && ix[i].meta.tsMax <= ix[j].meta.tsMax
    {
      IndexAt(ps, 0, i);
      IndexAt(ps, 0, j);
    }
  }

  /** Whatever was ingested and compacted: over packets in time order, the pruned query of the live capture
      returns exactly the linear filter of the packets it still holds. */
  lemma LiveQueryIsExact(data: seq<Byte>, ix: seq<IndexEntry>, ps: seq<PacketData>, q: Query, f: Field)
    requires LiveCapture.Laid(data, ix, ps) && AllRoomy(ps) && InOrder(ps)
    ensures AllLocated(data, ix) && Scan(data, ix, q, f, Start(ix, q)) == LinearFilter(data, ix, q, f, 0)
  {
    forall i | 0 <= i < |ix| ensures Located(data, ix[i]) && Bounding(data, ix[i]) { LaidLocated(data, ix, ps, i); }
    LaidSorted(ps);
    QueryIsLinearFilter(data, ix, q, f);
  }

  /** Over packets in any order, empty ones included: the live query is exact for every id and time range if and only
      if the index passes the two tests. */
  lemma LiveQueryExactIff(data: seq<Byte>, ix: seq<IndexEntry>, ps: seq<PacketData>, f: Field)
    requires LiveCapture.Laid(data, ix, ps) && AllRoomy(ps)
    ensures AllLocated(data, ix)
    ensures (forall q :: Exact(data, ix, q, f)) <==> MinOrdered(ix) && SearchSafe(ix, 0, |ix|, -1, U64)
  {
    forall i | 0 <= i < |ix| ensures Located(data, ix[i]) && Bounding(data, ix[i]) && Tight(data, ix[i]) {
      LaidLocated(data, ix, ps, i);
    }
    QueryExactIff(data, ix, f);
  }

  // ------------------------------------------------------------------------------------------ a witness

  /** A packet of at most one entry without payload. */
  lemma SmallPacket(es: seq<Entry>)
    requires |es| <= 1 && forall i :: 0 <= i < |es| ==> es[i].timestamp < U64 && es[i].id < U16 && es[i].payload == []
    ensures var p := PacketBytes(es, 0);
      && TableInside(p) && Roomy(p) && Count(p) == |es|
      && MetaOf(p) == if |es| == 0 then Meta(0, 0, 0) else Meta(es[0].timestamp, es[0].timestamp, 1)
  {
    var p := PacketBytes(es, 0);
    SmallPayload(es);
    EncodedParts(es, 0);
    HeaderFields(p, |es|, |PayloadBytes(es)|, 0);
    if |es| == 1 {
      EncodedRow(p, es, 0);
      SingleMeta(p, es[0].timestamp);
      assert es[..0] == [];
    }
  }

  lemma SmallPayload(es: seq<Entry>)
    requires |es| <= 1 && forall i :: 0 <= i < |es| ==> es[i].timestamp < U64 && es[i].id < U16 && es[i].payload == []
    ensures PayloadBytes(es) == [] && Encodable(es)
  {
    if |es| == 1 { assert es[..0] == []; }
  }

  lemma SingleMeta(p: PacketData, t: nat)
    requires TableInside(p) && Count(p) == 1 && RowTimestamp(p, 0) == t
    ensures MetaOf(p) == Meta(t, t, 1)
  {
    assert MinTs(p, 1) == Min(MinTs(p, 0), t) && MaxTs(p, 1) == Max(MaxTs(p, 0), t);
  }

  /** Three packets, with an entry at 5, without entries, with an entry at 6: asked for everything from 5 on, the
      search lands behind the empty packet and the entry at 5 is lost. */
  lemma EmptyPacketLosesRow(f: Field) returns (ps: seq<PacketData>, q: Query)
    ensures ps == [PacketBytes([Entry(5, 1, [])], 0), PacketBytes([], 0), PacketBytes([Entry(6, 1, [])], 0)]
    ensures WellFormed(ps) && q.t0 == At(5)
    ensures AllLocated(Flatten(ps), IndexOf(ps, 0)) && !Exact(Flatten(ps), IndexOf(ps, 0), q, f)
  {
    var a, b, c := PacketBytes([Entry(5, 1, [])], 0), PacketBytes([], 0), PacketBytes([Entry(6, 1, [])], 0);
    SmallPacket([Entry(5, 1, [])]);
    SmallPacket([]);
    SmallPacket([Entry(6, 1, [])]);
    ps, q := LostBehind(a, b, c, f);
  }

  lemma LostBehind(a: PacketData, b: PacketData, c: PacketData, f: Field) returns (ps: seq<PacketData>, q: Query)
    requires TableInside(a) && TableInside(b) && TableInside(c) && Roomy(a) && Roomy(b) && Roomy(c)
    requires MetaOf(a) == Meta(5, 5, 1) && MetaOf(b) == Meta(0, 0, 0) && MetaOf(c) == Meta(6, 6, 1)
    ensures ps == [a, b, c] && WellFormed(ps) && q.t0 == At(5)
    ensures AllLocated(Flatten(ps), IndexOf(ps, 0)) && !Exact(Flatten(ps), IndexOf(ps, 0), q, f)
  {
    ps := [a, b, c];
    q := SearchPassesOver(Flatten(ps), IndexOf(ps, 0), ps, f);
  }

  lemma SearchPassesOver(data: seq<Byte>, ix: seq<IndexEntry>, ps: seq<PacketData>, f: Field) returns (q: Query)
    requires LiveCapture.Laid(data, ix, ps) && AllRoomy(ps) && |ps| == 3
    requires MetaOf(ps[0]) == Meta(5, 5, 1) && MetaOf(ps[1]) == Meta(0, 0, 0) && MetaOf(ps[2]) == Meta(6, 6, 1)
    ensures AllLocated(data, ix) && q.t0 == At(5) && !Exact(data, ix, q, f)
  {
    forall i | 0 <= i < |ix| ensures Located(data, ix[i]) && Bounding(data, ix[i]) && Tight(data, ix[i]) {
      LaidLocated(data, ix, ps, i);
    }
    IndexAt(ps, 0, 0);
    IndexAt(ps, 0, 1);
    IndexAt(ps, 0, 2);
    assert LowerBound(ix, 0, 3, 5) == LowerBound(ix, 2, 3, 5) == 2;
    q := SearchLosesRow(data, ix, f, 5, 0);
  }
}
