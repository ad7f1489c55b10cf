/** Per-packet metadata and the index of packets laid end to end. */
module PacketIndex {
  import opened Bytes
  import opened DrainCore
  import opened PacketCodec

  type PacketData = seq<Byte>

  datatype Meta = Meta(tsMin: nat, tsMax: nat, count: nat)
  datatype IndexEntry = IndexEntry(offset: nat, meta: Meta)

  function MinTs(pkt: PacketData, n: nat): nat
    requires TableInside(pkt) && n <= Count(pkt)
  {
    if n == 0 then U64 - 1 else Min(MinTs(pkt, n - 1), RowTimestamp(pkt, n - 1))
  }

  function MaxTs(pkt: PacketData, n: nat): nat
    requires TableInside(pkt) && n <= Count(pkt)
  {
    if n == 0 then 0 else Max(MaxTs(pkt, n - 1), RowTimestamp(pkt, n - 1))
  }

  function Max(a: nat, b: nat): nat { if a > b then a else b }

  /** What every writer and scanner records of a packet: timestamp bounds, (0, 0) when empty. */
  function MetaOf(pkt: PacketData): Meta
    requires TableInside(pkt)
  {
    if Count(pkt) == 0 then Meta(0, 0, 0)
    else Meta(MinTs(pkt, Count(pkt)), MaxTs(pkt, Count(pkt)), Count(pkt))
  }

  lemma {:induction false} TsBounds(pkt: PacketData, n: nat)
    requires TableInside(pkt) && n <= Count(pkt)
    ensures MinTs(pkt, n) < U64 && MaxTs(pkt, n) < U64
    ensures forall i :: 0 <= i < n ==> MinTs(pkt, n) <= RowTimestamp(pkt, i) <= MaxTs(pkt, n)
    ensures n > 0 ==> exists i :: 0 <= i < n && MinTs(pkt, n) == RowTimestamp(pkt, i)
    ensures n > 0 ==> exists i :: 0 <= i < n && MaxTs(pkt, n) == RowTimestamp(pkt, i)
  {
    if n > 0 {
      TsBounds(pkt, n - 1);
      assert MinTs(pkt, n) == MinTs(pkt, n - 1) || MinTs(pkt, n) == RowTimestamp(pkt, n - 1);
    }
  }

  /** The recorded bounds are exact: they enclose every row's timestamp and, unless empty, are attained. */
  lemma MetaBounds(pkt: PacketData)
    requires TableInside(pkt)
    ensures var m := MetaOf(pkt);
      && m.tsMin < U64 && m.tsMax < U64 && m.count == Count(pkt) < U16
      && (forall i :: 0 <= i < Count(pkt) ==> m.tsMin <= RowTimestamp(pkt, i) <= m.tsMax)
      && (Count(pkt) > 0 ==> exists i :: 0 <= i < Count(pkt) && m.tsMin == RowTimestamp(pkt, i))
      && (Count(pkt) > 0 ==> exists i :: 0 <= i < Count(pkt) && m.tsMax == RowTimestamp(pkt, i))
  {
    TsBounds(pkt, Count(pkt));
  }

  /** The scanning loop shared by the C, Rust and Python writers, started from the extreme values. */
  method ScanMeta(pkt: PacketData) returns (m: Meta)
    requires TableInside(pkt)
    ensures m == MetaOf(pkt)
  {
    var lo, hi := U64 - 1, 0;
    var i := 0;
    while i < Count(pkt)
      invariant 0 <= i <= Count(pkt)
      invariant lo == MinTs(pkt, i) && hi == MaxTs(pkt, i)
    {
      var ts := RowTimestamp(pkt, i);
      if ts < lo { lo := ts; }
      if ts > hi { hi := ts; }
      i := i + 1;
    }
    if Count(pkt) == 0 { lo, hi := 0, 0; }
    m := Meta(lo, hi, Count(pkt));
  }

  predicate WellFormed(ps: seq<PacketData>) {
    forall i :: 0 <= i < |ps| ==> TableInside(ps[i])
  }

  /** The index of packets laid end to end from `base` on. */
  function IndexOf(ps: seq<PacketData>, base: nat): (ix: seq<IndexEntry>)
    requires WellFormed(ps)
    ensures |ix| == |ps|
  {
    if |ps| == 0 then []
    else
      var init := ps[..|ps| - 1];
      IndexOf(init, base) + [IndexEntry(base + |Flatten(init)|, MetaOf(ps[|ps| - 1]))]
  }

  lemma IndexSnoc(ps: seq<PacketData>, p: PacketData, base: nat)
    requires WellFormed(ps) && TableInside(p)
    ensures WellFormed(ps + [p])
    ensures IndexOf(ps + [p], base) == IndexOf(ps, base) + [IndexEntry(base + |Flatten(ps)|, MetaOf(p))]
  {
    assert (ps + [p])[..|ps|] == ps;
  }

  lemma {:induction false} IndexAt(ps: seq<PacketData>, base: nat, i: nat)
    requires WellFormed(ps) && i < |ps|
    ensures IndexOf(ps, base)[i] == IndexEntry(base + |Flatten(ps[..i])|, MetaOf(ps[i]))
  {
    var init := ps[..|ps| - 1];
    if i < |init| {
      IndexAt(init, base, i);
      assert init[..i] == ps[..i];
    }
  }

  lemma FlattenSplit<T>(ps: seq<seq<T>>, k: nat)
    requires k <= |ps|
    ensures Flatten(ps) == Flatten(ps[..k]) + Flatten(ps[k..])
  {
    FlattenAppend(ps[..k], ps[k..]);
    assert ps == ps[..k] + ps[k..];
  }

  /** A packet sits at its index offset, byte for byte. */
  lemma PacketAt(ps: seq<PacketData>, i: nat)
    requires i < |ps|
    ensures |Flatten(ps[..i])| + |ps[i]| <= |Flatten(ps)|
    ensures Flatten(ps)[|Flatten(ps[..i])|..|Flatten(ps[..i])| + |ps[i]|] == ps[i]
  {
    FlattenSplit(ps, i);
    assert Flatten(ps[i..]) == ps[i] + Flatten(ps[i..][1..]);
  }

  function EntryTotal(ps: seq<PacketData>): nat
    requires WellFormed(ps)
  {
    if |ps| == 0 then 0 else EntryTotal(ps[..|ps| - 1]) + Count(ps[|ps| - 1])
  }

  lemma {:induction false} EntryTotalAppend(a: seq<PacketData>, b: seq<PacketData>)
    requires WellFormed(a) && WellFormed(b)
    ensures WellFormed(a + b) && EntryTotal(a + b) == EntryTotal(a) + EntryTotal(b)
  {
    if |b| == 0 {
      assert a + b == a;
    } else {
      EntryTotalAppend(a, b[..|b| - 1]);
      assert (a + b)[..|a + b| - 1] == a + b[..|b| - 1];
    }
  }
}
