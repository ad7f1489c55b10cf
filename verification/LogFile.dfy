/**
  Log files as Python and the native extension use them: an appending writer that indexes packets as they go
  out, a footer index, an indexed reader, a sequential reader, and the scan that rebuilds a lost index.
*/
module LogFile {
  import opened Bytes
  import opened DrainCore
  import opened PacketCodec
  import opened PacketIndex
  import opened BtlmFile

  // -------------------------------------------------------------------------------------------- writing

  lemma BuildStep(es: seq<Entry>, i: nat)
    requires i < |es|
    ensures PayloadBytes(es[..i + 1]) == PayloadBytes(es[..i]) + es[i].payload
    ensures TableBytes(es[..i + 1]) == TableBytes(es[..i]) + RowBytes(es[i], |PayloadBytes(es[..i])|)
  {
    assert es[..i + 1][..i] == es[..i];
  }

  lemma {:induction false} PayloadGrows(es: seq<Entry>, i: nat)
    requires i <= |es|
    ensures |PayloadBytes(es[..i])| <= |PayloadBytes(es)|
  {
    if i == |es| {
      assert es[..i] == es;
    } else {
      var init := es[..|es| - 1];
      PayloadGrows(init, i);
      assert init[..i] == es[..i];
    }
  }

  predicate RowFits(e: Entry, offset: nat) { e.id < U16 && |e.payload| < U16 && offset < U32 && e.timestamp < U64 }

  /** `build_packet`: the same bytes the packed drain leaves, with nothing dropped; a value too wide for its
      field raises. */
  method BuildPacket(es: seq<Entry>) returns (ok: bool, p: PacketData)
    ensures ok <==> Encodable(es)
    ensures ok ==> p == PacketBytes(es, 0)
  {
    var table: seq<Byte>, pays: seq<Byte> := [], [];
    var i := 0;
    while i < |es|
      invariant 0 <= i <= |es| && table == TableBytes(es[..i]) && pays == PayloadBytes(es[..i])
      invariant forall k :: 0 <= k < i ==> RowFits(es[k], 0)
    {
      PayloadGrows(es, i);
      if !RowFits(es[i], |pays|) { return false, []; }
      BuildStep(es, i);
      table, pays := table + RowBytes(es[i], |pays|), pays + es[i].payload;
      i := i + 1;
    }
    assert es[..|es|] == es;
    if |es| >= U16 || |pays| >= U32 { return false, []; }
    assert forall k :: 0 <= k < |es| ==> RowFits(es[k], 0);
    return true, HeaderBytes(|es|, |pays|, 0) + table + pays;
  }

  /** The file of a closed writer. */
  ghost predicate ClosedLog(file: seq<Byte>, schema: seq<Byte>, ps: seq<PacketData>) {
    WellFormed(ps) && Stored(file, schema, ps, IndexOf(ps, FILE_HEADER + |schema|))
  }

  /** The viewer's reader recovers the schema and packets of every closed log. */
  lemma LogReadsAsCapture(file: seq<Byte>, schema: seq<Byte>, ps: seq<PacketData>)
    requires ClosedLog(file, schema, ps) && Storable(schema, ps)
    ensures ReadSpec(file) == Ok(LoadedCapture(schema, ps))
  {
    var ix := IndexOf(ps, FILE_HEADER + |schema|);
    forall i | 0 <= i < |ps| ensures ix[i].offset == FILE_HEADER + |schema| + |Flatten(ps[..i])| {
      IndexAt(ps, FILE_HEADER + |schema|, i);
    }
    StoredReadsBack(file, schema, ps, ix);
  }

  class LogWriter {
    var file: seq<Byte>
    var index: seq<IndexEntry>
    const schema: seq<Byte>
    ghost var packets: seq<PacketData>

    ghost predicate Valid()
      reads this
    {
      && WellFormed(packets)
      && file == HeaderAndSchema(schema) + Flatten(packets)
      && index == IndexOf(packets, FILE_HEADER + |schema|)
    }

    constructor (schema: seq<Byte>)
      ensures Valid() && packets == [] && this.schema == schema
    {
      file := MAGIC + LE(VERSION, 2) + LE(|schema|, 4) + schema;
      index := [];
      this.schema := schema;
      packets := [];
    }

    /** `write_packet`: a packet whose table cannot be read raises before anything is written. */
    method WritePacket(p: PacketData) returns (ok: bool)
      requires Valid()
      modifies this
      ensures Valid() && ok == TableInside(p)
      ensures packets == if ok then old(packets) + [p] else old(packets)
    {
      ok := TableInside(p);
      if ok {
        var offset := |file|;
        var m := ScanMeta(p);
        FlattenSnoc(packets, p);
        IndexSnoc(packets, p, FILE_HEADER + |schema|);
        file := file + p;
        index := index + [IndexEntry(offset, m)];
        packets := packets + [p];
      }
    }

    /** `close`: appends the footer index. */
    method Close()
      requires Valid()
      modifies this`file
      ensures ClosedLog(file, schema, packets)
    {
      file := AppendIndex(file, index, schema, packets);
    }
  }

  // --------------------------------------------------------------------------------- rebuilding an index

  /** The size a packet claims in its own header is its length. */
  predicate SelfDelimiting(p: PacketData) {
    TableInside(p) && PayloadBase(p) + PayloadSize(p) == |p|
  }

  predicate AllDelimited(ps: seq<PacketData>) {
    forall i :: 0 <= i < |ps| ==> SelfDelimiting(ps[i])
  }

  function SizeAt(map_: seq<Byte>, pos: nat): (n: nat)
    requires pos + PACKET_HEADER <= |map_|
    ensures n >= PACKET_HEADER
  {
    PACKET_HEADER + ENTRY_HEADER * Read(map_, pos, 2) + Read(map_, pos + 4, 4)
  }

  predicate WholeAt(map_: seq<Byte>, pos: nat) {
    pos + PACKET_HEADER <= |map_| && pos + SizeAt(map_, pos) <= |map_|
  }

  lemma WholeIsTable(map_: seq<Byte>, pos: nat)
    requires WholeAt(map_, pos)
    ensures TableInside(map_[pos..pos + SizeAt(map_, pos)])
  {
    ReadSlice(map_, pos, pos + SizeAt(map_, pos), 0, 2);
  }

  /** Index entries of the packets found from `pos` until the bytes run out. */
  function ScanFrom(map_: seq<Byte>, pos: nat): seq<IndexEntry>
    decreases |map_| - pos
  {
    if !WholeAt(map_, pos) then []
    else
      WholeIsTable(map_, pos);
      [IndexEntry(pos, MetaOf(map_[pos..pos + SizeAt(map_, pos)]))] + ScanFrom(map_, pos + SizeAt(map_, pos))
  }

  /** `Capture_build_index`. */
  method BuildIndex(map_: seq<Byte>, dataStart: nat) returns (index: seq<IndexEntry>, dataEnd: nat)
    ensures index == ScanFrom(map_, dataStart)
    ensures dataStart <= dataEnd && !WholeAt(map_, dataEnd)
  {
    index := [];
    var pos := dataStart;
    while pos + PACKET_HEADER <= |map_|
      invariant dataStart <= pos
      invariant ScanFrom(map_, dataStart) == index + ScanFrom(map_, pos)
      decreases |map_| - pos
    {
      var size := SizeAt(map_, pos);
      if pos + size > |map_| { break; }
      WholeIsTable(map_, pos);
      var m := ScanMeta(map_[pos..pos + size]);
      assert ScanFrom(map_, pos) == [IndexEntry(pos, m)] + ScanFrom(map_, pos + size);
      index := index + [IndexEntry(pos, m)];
      pos := pos + size;
    }
    dataEnd := pos;
  }

  /** How many leading packets lie wholly within `budget` bytes. */
  function WholePackets(ps: seq<PacketData>, budget: nat): (k: nat)
    ensures k <= |ps|
    decreases |ps|
  {
    if |ps| == 0 || |ps[0]| > budget then 0 else 1 + WholePackets(ps[1..], budget - |ps[0]|)
  }

  lemma {:induction false} WholePacketsIsMaximal(ps: seq<PacketData>, budget: nat)
    ensures var k := WholePackets(ps, budget);
      && |Flatten(ps[..k])| <= budget
      && (k < |ps| ==> |Flatten(ps[..k + 1])| > budget)
    decreases |ps|
  {
    var k := WholePackets(ps, budget);
    if k > 0 {
      WholePacketsIsMaximal(ps[1..], budget - |ps[0]|);
      assert ps[..k][1..] == ps[1..][..k - 1];
      if k < |ps| { assert ps[..k + 1][1..] == ps[1..][..k]; }
    } else {
      assert ps[..0] == [];
      if k < |ps| { assert ps[..1] == [ps[0]] && Flatten([ps[0]][1..]) == []; }
    }
  }

  /** A self-delimiting packet announces its own length wherever it lies. */
  lemma DelimitedAt(map_: seq<Byte>, pos: nat, p: PacketData)
    requires SelfDelimiting(p) && pos + |p| <= |map_| && map_[pos..pos + |p|] == p
    ensures SizeAt(map_, pos) == |p|
  {
    ReadSlice(map_, pos, pos + |p|, 0, 2);
    ReadSlice(map_, pos, pos + |p|, 4, 4);
  }

  /** A packet cut short by the end of the bytes is not indexed. */
  lemma CutIsNotWhole(map_: seq<Byte>, pos: nat, p: PacketData)
    requires SelfDelimiting(p) && pos <= |map_| < pos + |p| && map_[pos..] == p[..|map_| - pos]
    ensures !WholeAt(map_, pos)
  {
    if pos + PACKET_HEADER <= |map_| {
      var n := |map_| - pos;
      ReadSlice(map_, pos, |map_|, 0, 2);
      ReadSlice(map_, pos, |map_|, 4, 4);
      ReadSlice(p, 0, n, 0, 2);
      ReadSlice(p, 0, n, 4, 4);
      assert map_[pos..|map_|] == map_[pos..] && p[0..n] == p[..n];
    }
  }

  lemma ScanStep(map_: seq<Byte>, pos: nat, p: PacketData)
    requires SelfDelimiting(p) && pos + |p| <= |map_| && map_[pos..pos + |p|] == p
    ensures ScanFrom(map_, pos) == [IndexEntry(pos, MetaOf(p))] + ScanFrom(map_, pos + |p|)
  {
    DelimitedAt(map_, pos, p);
  }

  /** Scanning a prefix of the packets' bytes indexes the packets wholly inside. */
  lemma {:induction false} ScanRebuilds(map_: seq<Byte>, pos: nat, ps: seq<PacketData>, data: seq<Byte>)
    returns (ix: seq<IndexEntry>)
    requires AllDelimited(ps) && WellFormed(ps) && data == Flatten(ps) && pos <= |map_| <= pos + |data|
    requires map_[pos..] == data[..|map_| - pos]
    ensures ScanFrom(map_, pos) == ix && HeadIndex(ps, pos, WholePackets(ps, |map_| - pos)) == ix
    decreases |ps|
  {
    var rest := |map_| - pos;
    if |ps| == 0 {
      assert !WholeAt(map_, pos);
      return [];
    }
    var p, tail := ps[0], Flatten(ps[1..]);
    assert SelfDelimiting(p);
    if |p| > rest {
      assert map_[pos..] == p[..rest];
      CutIsNotWhole(map_, pos, p);
      return [];
    }
    PrefixThenRest(map_, pos, p, tail);
    var later := ScanRebuilds(map_, pos + |p|, ps[1..], tail);
    ix := Cons(map_, pos, ps, rest, later);
  }

  /** One more packet in front, for the scan and for the writer's index alike. */
  lemma Cons(map_: seq<Byte>, pos: nat, ps: seq<PacketData>, rest: nat, later: seq<IndexEntry>)
    returns (ix: seq<IndexEntry>)
    requires WellFormed(ps) && |ps| > 0 && SelfDelimiting(ps[0]) && |ps[0]| <= rest
    requires pos + |ps[0]| <= |map_| && map_[pos..pos + |ps[0]|] == ps[0]
    requires ScanFrom(map_, pos + |ps[0]|) == later
    requires HeadIndex(ps[1..], pos + |ps[0]|, WholePackets(ps[1..], rest - |ps[0]|)) == later
    ensures ScanFrom(map_, pos) == ix && HeadIndex(ps, pos, WholePackets(ps, rest)) == ix
  {
    ix := [IndexEntry(pos, MetaOf(ps[0]))] + later;
    ScanStep(map_, pos, ps[0]);
    HeadStep(ps, pos, rest, later);
  }

  lemma HeadStep(ps: seq<PacketData>, pos: nat, rest: nat, later: seq<IndexEntry>)
    requires WellFormed(ps) && |ps| > 0 && |ps[0]| <= rest
    requires HeadIndex(ps[1..], pos + |ps[0]|, WholePackets(ps[1..], rest - |ps[0]|)) == later
    ensures HeadIndex(ps, pos, WholePackets(ps, rest)) == [IndexEntry(pos, MetaOf(ps[0]))] + later
  {
  }

  lemma PrefixThenRest(map_: seq<Byte>, pos: nat, p: PacketData, tail: seq<Byte>)
    requires pos + |p| <= |map_| <= pos + |p| + |tail| && map_[pos..] == (p + tail)[..|map_| - pos]
    ensures map_[pos..pos + |p|] == p
    ensures map_[pos + |p|..] == tail[..|map_| - pos - |p|]
  {
    var s := map_[pos..];
    assert map_[pos..pos + |p|] == s[..|p|];
    assert map_[pos + |p|..] == s[|p|..];
  }

  /** Index entries of the first `k` packets laid from `pos` on. */
  function HeadIndex(ps: seq<PacketData>, pos: nat, k: nat): (ix: seq<IndexEntry>)
    requires WellFormed(ps) && k <= |ps|
    ensures |ix| == k
    decreases k
  {
    if k == 0 then [] else [IndexEntry(pos, MetaOf(ps[0]))] + HeadIndex(ps[1..], pos + |ps[0]|, k - 1)
  }

  lemma {:induction false} HeadIndexIsPrefix(ps: seq<PacketData>, pos: nat, k: nat, i: nat)
    requires WellFormed(ps) && i < k <= |ps|
    ensures HeadIndex(ps, pos, k)[i] == IndexOf(ps, pos)[i]
    decreases k
  {
    IndexAt(ps, pos, i);
    if i > 0 {
      HeadIndexIsPrefix(ps[1..], pos + |ps[0]|, k - 1, i - 1);
      IndexAt(ps[1..], pos + |ps[0]|, i - 1);
      assert ps[..i][1..] == ps[1..][..i - 1];
    }
  }

  /** A prefix of the data section: the scan finds exactly the index entries of the packets wholly inside. */
  lemma CutInsideData(map_: seq<Byte>, base: nat, ps: seq<PacketData>)
    requires AllDelimited(ps) && WellFormed(ps) && base <= |map_| <= base + |Flatten(ps)|
    requires map_[base..] == Flatten(ps)[..|map_| - base]
    ensures ScanFrom(map_, base) == IndexOf(ps, base)[..WholePackets(ps, |map_| - base)]
  {
    var ix := ScanRebuilds(map_, base, ps, Flatten(ps));
    HeadIndexIs(ps, base, WholePackets(ps, |map_| - base), ix);
  }

  lemma HeadIndexIs(ps: seq<PacketData>, pos: nat, k: nat, ix: seq<IndexEntry>)
    requires WellFormed(ps) && k <= |ps| && ix == HeadIndex(ps, pos, k)
    ensures ix == IndexOf(ps, pos)[..k]
  {
    var all := IndexOf(ps, pos);
    forall i | 0 <= i < k ensures ix[i] == all[i] { HeadIndexIsPrefix(ps, pos, k, i); }
  }
}
