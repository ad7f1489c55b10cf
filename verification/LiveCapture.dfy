/**
  The live accumulator: one growing byte buffer of raw packets, an offset index beside it, and a rolling
  window that drops the oldest half when the packet limit is exceeded.
*/
module LiveCapture {
  import opened Bytes
  import opened Wire
  import opened DrainCore
  import opened PacketCodec
  import opened PacketIndex

  /** The buffer is the packets end to end, and the index locates each one. */
  ghost predicate Laid(bytes: seq<Byte>, ix: seq<IndexEntry>, ps: seq<PacketData>) {
    WellFormed(ps) && bytes == Flatten(ps) && ix == IndexOf(ps, 0)
  }

  /** Nothing is unaccounted for: the packets before `base` are exactly those counted as gone. */
  ghost predicate Balanced(all: seq<PacketData>, base: nat, packets: nat, entries: nat)
    requires base <= |all|
  {
    WellFormed(all) && packets == base && entries == EntryTotal(all[..base])
  }

  lemma LaidSnoc(bytes: seq<Byte>, ix: seq<IndexEntry>, ps: seq<PacketData>, pkt: PacketData)
    requires Laid(bytes, ix, ps) && TableInside(pkt)
    ensures Laid(bytes + pkt, ix + [IndexEntry(|bytes|, MetaOf(pkt))], ps + [pkt])
  {
    FlattenSnoc(ps, pkt);
    IndexSnoc(ps, pkt, 0);
  }

  lemma RebasedAt(ps: seq<PacketData>, drop: nat, i: nat)
    requires WellFormed(ps) && drop + i < |ps|
    ensures |Flatten(ps[..drop])| <= IndexOf(ps, 0)[drop + i].offset
    ensures Lower(IndexOf(ps, 0)[drop + i], |Flatten(ps[..drop])|) == IndexOf(ps[drop..], 0)[i]
  {
    IndexAt(ps, 0, drop + i);
    IndexAt(ps[drop..], 0, i);
    IndexSuffix(ps, drop, i);
    assert ps[drop..][i] == ps[drop + i];
  }

  /** Forgetting the first `drop` packets drops their bytes and rebases the index. */
  lemma LaidDrop(bytes: seq<Byte>, ix: seq<IndexEntry>, ps: seq<PacketData>, drop: nat)
    requires Laid(bytes, ix, ps) && drop < |ps|
    ensures ix[drop].offset == |Flatten(ps[..drop])| <= |bytes|
    ensures forall i :: drop <= i < |ix| ==> ix[drop].offset <= ix[i].offset
    ensures Laid(bytes[ix[drop].offset..], Rebased(ix, drop, ix[drop].offset), ps[drop..])
  {
    IndexAt(ps, 0, drop);
    FlattenSplit(ps, drop);
    var shift := ix[drop].offset;
    forall i | drop <= i < |ix| ensures shift <= ix[i].offset {
      RebasedAt(ps, drop, i - drop);
    }
    var r, s := Rebased(ix, drop, shift), IndexOf(ps[drop..], 0);
    forall i | 0 <= i < |r| ensures r[i] == s[i] {
      RebasedAt(ps, drop, i);
    }
    assert r == s;
  }

  /** Index entries from `drop` on with their offsets moved down. */
  function Rebased(ix: seq<IndexEntry>, drop: nat, shift: nat): (r: seq<IndexEntry>)
    requires drop <= |ix|
  {
    seq(|ix| - drop, i requires 0 <= i < |ix| - drop => Lower(ix[drop + i], shift))
  }

  function Lower(e: IndexEntry, shift: nat): IndexEntry {
    e.(offset := if shift <= e.offset then e.offset - shift else 0)
  }

  lemma IndexSuffix(ps: seq<PacketData>, drop: nat, i: nat)
    requires drop + i <= |ps|
    ensures |Flatten(ps[..drop + i])| == |Flatten(ps[..drop])| + |Flatten(ps[drop..][..i])|
  {
    assert ps[..drop + i] == ps[..drop] + ps[drop..][..i];
    FlattenAppend(ps[..drop], ps[drop..][..i]);
  }

  lemma BalancedGrows(all: seq<PacketData>, base: nat, packets: nat, entries: nat, pkt: PacketData)
    requires base <= |all| && Balanced(all, base, packets, entries) && TableInside(pkt)
    ensures Balanced(all + [pkt], base, packets, entries)
  {
    assert (all + [pkt])[..base] == all[..base];
  }

  lemma BalancedMoves(all: seq<PacketData>, base: nat, packets: nat, entries: nat, drop: nat)
    requires base + drop <= |all| && Balanced(all, base, packets, entries)
    requires WellFormed(all[base..][..drop])
    ensures Balanced(all, base + drop, packets + drop, entries + EntryTotal(all[base..][..drop]))
  {
    assert all[..base + drop] == all[..base] + all[base..][..drop];
    EntryTotalAppend(all[..base], all[base..][..drop]);
  }

  /** Dropping the front of the window keeps layout and balance. */
  lemma CompactKeeps(bytes: seq<Byte>, ix: seq<IndexEntry>, all: seq<PacketData>, base: nat, drop: nat, packets: nat,
                     entries: nat)
    requires base <= |all| && Laid(bytes, ix, all[base..]) && drop < |ix| && Balanced(all, base, packets, entries)
    ensures |ix| == |all| - base && ix[drop].offset <= |bytes|
    ensures forall i :: drop <= i < |ix| ==> ix[drop].offset <= ix[i].offset
    ensures Laid(bytes[ix[drop].offset..], Rebased(ix, drop, ix[drop].offset), all[base + drop..])
    ensures WellFormed(all[base..][..drop])
    ensures Balanced(all, base + drop, packets + drop, entries + EntryTotal(all[base..][..drop]))
  {
    LaidDrop(bytes, ix, all[base..], drop);
    SuffixDrop(all, base, drop);
    BalancedMoves(all, base, packets, entries, drop);
  }

  lemma SuffixSnoc<T>(all: seq<T>, base: nat, x: T)
    requires base <= |all|
    ensures (all + [x])[base..] == all[base..] + [x]
  {
  }

  lemma SuffixDrop<T>(all: seq<T>, base: nat, drop: nat)
    requires base + drop <= |all|
    ensures all[base..][drop..] == all[base + drop..]
  {
  }

  class LiveCapture {
    var buf: array<Byte>
    var bufLen: nat
    var index: array<IndexEntry>
    var indexCount: nat
    const maxPackets: nat
    var truncatedPackets: nat
    var truncatedEntries: nat
    /** Every packet ever accepted, the first one still held, and what `clear` threw away uncounted. */
    ghost var ingested: seq<PacketData>
    ghost var base: nat
    ghost var clearedPackets: nat
    ghost var clearedEntries: nat

    /** The packets the index describes: a suffix of everything ingested. */
    ghost function Retained(): seq<PacketData>
      reads this
      requires base <= |ingested|
    {
      ingested[base..]
    }

    /** Buffer, index and counters agree with the packets; only the packet limit may be exceeded. */
    ghost predicate Held()
      reads this, buf, index
    {
      && buf.Length > 0 && bufLen <= buf.Length && index.Length > 0 && indexCount <= index.Length
      && base <= |ingested|
      && Laid(buf[..bufLen], index[..indexCount], Retained())
      && Balanced(ingested, base, truncatedPackets + clearedPackets, truncatedEntries + clearedEntries)
    }

    ghost predicate Valid()
      reads this, buf, index
    {
      Held() && (maxPackets > 0 ==> indexCount <= maxPackets)
    }

    constructor (maxPackets: nat)
      ensures Valid() && fresh(buf) && fresh(index) && this.maxPackets == maxPackets
      ensures ingested == [] && truncatedPackets == 0 && truncatedEntries == 0 && clearedPackets == 0
    {
      buf := new Byte[4096];
      bufLen := 0;
      index := new IndexEntry[64](_ => IndexEntry(0, Meta(0, 0, 0)));
      indexCount := 0;
      this.maxPackets := maxPackets;
      truncatedPackets, truncatedEntries := 0, 0;
      ingested, base, clearedPackets, clearedEntries := [], 0, 0, 0;
    }

    /** `LiveCapture_ingest_one`: rejects a runt, otherwise appends and perhaps compacts. */
    method Ingest(pkt: PacketData) returns (ok: bool)
      requires Valid() && (|pkt| >= PACKET_HEADER ==> TableInside(pkt))
      modifies this, buf, index
      ensures Valid() && (fresh(buf) || buf == old(buf)) && (fresh(index) || index == old(index))
      ensures ok <==> |pkt| >= PACKET_HEADER
      ensures !ok ==> ingested == old(ingested) && base == old(base)
      ensures ok ==> ingested == old(ingested) + [pkt]
      ensures old(base) <= |ingested| && (ok ==> base == Window(old(base), |ingested|, maxPackets))
      ensures clearedPackets == old(clearedPackets) && clearedEntries == old(clearedEntries)
    {
      if |pkt| < PACKET_HEADER { return false; }
      ok := true;
      Reserve(|pkt|);
      AppendPacket(pkt);
      if maxPackets > 0 && indexCount > maxPackets {
        Compact();
      }
    }

    method AppendPacket(pkt: PacketData)
      requires Held() && TableInside(pkt) && bufLen + |pkt| <= buf.Length && indexCount < index.Length
      modifies this`bufLen, this`indexCount, this`ingested, buf, index
      ensures Held() && indexCount == old(indexCount) + 1 && ingested == old(ingested) + [pkt]
      ensures indexCount == |ingested| - base
    {
      ghost var bytes, ix, ps := buf[..bufLen], index[..indexCount], Retained();
      var m := ScanMeta(pkt);
      Append(pkt, IndexEntry(bufLen, m));
      LaidSnoc(bytes, ix, ps, pkt);
      BalancedGrows(ingested, base, truncatedPackets + clearedPackets, truncatedEntries + clearedEntries, pkt);
      SuffixSnoc(ingested, base, pkt);
      ingested := ingested + [pkt];
    }

    /** Copies a packet behind the others and records it. */
    method Append(pkt: PacketData, e: IndexEntry)
      requires bufLen + |pkt| <= buf.Length && indexCount < index.Length
      modifies this`bufLen, this`indexCount, buf, index
      ensures bufLen <= buf.Length && indexCount == old(indexCount) + 1 <= index.Length
      ensures buf[..bufLen] == old(buf[..bufLen]) + pkt
      ensures index[..indexCount] == old(index[..indexCount]) + [e]
    {
      Put(buf, bufLen, pkt);
      OverlayNext(old(buf[..]), 0, bufLen, pkt, old(buf[..bufLen]));
      bufLen := bufLen + |pkt|;
      assert buf[..bufLen] == buf[..][0..bufLen];
      index[indexCount] := e;
      indexCount := indexCount + 1;
    }

    /** Room for `n` more bytes and one more index entry. */
    method Reserve(n: nat)
      requires Held()
      modifies this`buf, this`index
      ensures Held() && bufLen + n <= buf.Length && indexCount < index.Length
      ensures (fresh(buf) || buf == old(buf)) && (fresh(index) || index == old(index))
    {
      ReserveBytes(n);
      ReserveIndex();
    }

    /** Buffer doubling. */
    method ReserveBytes(n: nat)
      requires Held()
      modifies this`buf
      ensures Held() && bufLen + n <= buf.Length && (fresh(buf) || buf == old(buf))
    {
      while bufLen + n > buf.Length
        invariant Held() && (fresh(buf) || buf == old(buf))
        decreases bufLen + n - buf.Length
      {
        var tmp := new Byte[buf.Length * 2];
        forall i | 0 <= i < buf.Length { tmp[i] := buf[i]; }
        assert tmp[..bufLen] == buf[..bufLen];
        buf := tmp;
      }
    }

    /** Index doubling. */
    method ReserveIndex()
      requires Held()
      modifies this`index
      ensures Held() && indexCount < index.Length && (fresh(index) || index == old(index))
    {
      if indexCount >= index.Length {
        var tmp := new IndexEntry[index.Length * 2](_ => IndexEntry(0, Meta(0, 0, 0)));
        forall i | 0 <= i < index.Length { tmp[i] := index[i]; }
        assert tmp[..indexCount] == index[..indexCount];
        index := tmp;
      }
    }

    /** Drops the oldest half of the packets and slides buffer and index down. */
    method Compact()
      requires Held() && 0 < maxPackets < indexCount
      modifies this`bufLen, this`indexCount, this`truncatedPackets, this`truncatedEntries, this`base, buf, index
      ensures Held() && indexCount == old(indexCount) - old(indexCount) / 2
      ensures base == old(base) + old(indexCount) / 2
    {
      CompactKeeps(buf[..bufLen], index[..indexCount], ingested, base, indexCount / 2,
                   truncatedPackets + clearedPackets, truncatedEntries + clearedEntries);
      var drop, droppedEntries := OldestHalf();
      DropFront(drop);
      truncatedPackets := truncatedPackets + drop;
      truncatedEntries := truncatedEntries + droppedEntries;
      base := base + drop;
    }

    /** How many packets the oldest half is, and how many entries they hold. */
    method OldestHalf() returns (drop: nat, entries: nat)
      requires 0 < indexCount <= index.Length && base <= |ingested| && WellFormed(Retained())
      requires index[..indexCount] == IndexOf(Retained(), 0)
      ensures drop == indexCount / 2 && entries == EntryTotal(Retained()[..drop])
      ensures index[drop] == index[..indexCount][drop]
      ensures forall i :: drop <= i < indexCount ==> index[i] == index[..indexCount][i]
    {
      drop := indexCount / 2;
      entries := CountDropped(index, drop, indexCount, Retained());
    }

    /** Slides the bytes and index entries of the kept packets to the front. */
    method DropFront(drop: nat)
      requires bufLen <= buf.Length && drop < indexCount <= index.Length && index[drop].offset <= bufLen
      requires forall i :: drop <= i < indexCount ==> index[drop].offset <= index[i].offset
      modifies this`bufLen, this`indexCount, buf, index
      ensures bufLen <= buf.Length && indexCount == old(indexCount) - drop
      ensures buf[..bufLen] == old(buf[..bufLen])[old(index[drop].offset)..]
      ensures index[..indexCount] == Rebased(old(index[..indexCount]), drop, old(index[drop].offset))
    {
      var dropBytes := index[drop].offset;
      SlideIndex(index, indexCount, drop, dropBytes);
      indexCount := indexCount - drop;
      Move(buf, 0, dropBytes, bufLen - dropBytes);
      bufLen := bufLen - dropBytes;
    }

    /** `LiveCapture_clear`: forgets the packets but not the truncation counters. */
    method Clear()
      requires Valid()
      modifies this`bufLen, this`indexCount, this`base, this`clearedPackets, this`clearedEntries
      ensures Valid() && Retained() == [] && ingested == old(ingested)
      ensures truncatedPackets == old(truncatedPackets) && truncatedEntries == old(truncatedEntries)
      ensures clearedPackets == old(clearedPackets) + old(|Retained()|)
    {
      bufLen := 0;
      indexCount := 0;
      ghost var ps := Retained();
      assert ps[..|ps|] == ps;
      BalancedMoves(ingested, base, truncatedPackets + clearedPackets, truncatedEntries + clearedEntries, |ps|);
      clearedPackets := clearedPackets + |ps|;
      clearedEntries := clearedEntries + EntryTotal(ps);
      base := |ingested|;
      assert Retained() == [];
    }
  }

  /** Where the window starts after one more packet: half of an overfull window is dropped at once. */
  function Window(base: nat, total: nat, maxPackets: nat): (b: nat)
    requires base <= total
    ensures base <= b <= total
  {
    var held := total - base;
    if maxPackets > 0 && held > maxPackets then base + held / 2 else base
  }

  method CountDropped(index: array<IndexEntry>, drop: nat, count: nat, ghost ps: seq<PacketData>) returns (n: nat)
    requires WellFormed(ps) && drop <= |ps| == count <= index.Length && index[..count] == IndexOf(ps, 0)
    ensures n == EntryTotal(ps[..drop])
  {
    n := 0;
    var i := 0;
    while i < drop
      invariant 0 <= i <= drop && n == EntryTotal(ps[..i])
    {
      IndexAt(ps, 0, i);
      assert index[i] == index[..count][i];
      assert ps[..i + 1][..i] == ps[..i];
      n := n + index[i].meta.count;
      i := i + 1;
    }
  }

  /** Moves the kept index entries down and rebases their offsets. */
  method SlideIndex(index: array<IndexEntry>, count: nat, drop: nat, dropBytes: nat)
    requires drop <= count <= index.Length
    requires forall i :: drop <= i < count ==> dropBytes <= index[i].offset
    modifies index
    ensures index[..count - drop] == Rebased(old(index[..count]), drop, dropBytes)
  {
    var kept := count - drop;
    ghost var was := index[..count];
    var i := 0;
    while i < kept
      invariant 0 <= i <= kept
      invariant forall k :: i + drop <= k < count ==> index[k] == was[k]
      invariant forall k :: 0 <= k < i ==> index[k] == Lower(was[drop + k], dropBytes)
    {
      var e := index[i + drop];
      index[i] := e.(offset := e.offset - dropBytes);
      i := i + 1;
    }
    assert index[..kept] == Rebased(was, drop, dropBytes);
  }
}
