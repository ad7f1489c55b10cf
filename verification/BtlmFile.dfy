/** The `.btlm` file: header, schema, packets end to end, index, footer.  Written by the capture saver. */
module BtlmFile {
  import opened Bytes
  import opened DrainCore
  import opened PacketCodec
  import opened PacketIndex

  const MAGIC: seq<Byte> := [66, 84, 76, 77]   // "BTLM"
  const VERSION: nat := 1
  const INDEX_MAGIC: nat := 0x494C5442         // "BTLI"
  const FILE_HEADER: nat := 10
  const INDEX_ENTRY: nat := 28
  const FOOTER: nat := 16

  /** A packet with the metadata recorded when it was captured. */
  datatype Item = Item(data: PacketData, meta: Meta)

  function Packets(items: seq<Item>): (ps: seq<PacketData>)
    ensures |ps| == |items| && forall i :: 0 <= i < |ps| ==> ps[i] == items[i].data
  {
    seq(|items|, i requires 0 <= i < |items| => items[i].data)
  }

  function HeaderAndSchema(schema: seq<Byte>): (s: seq<Byte>)
    ensures |s| == FILE_HEADER + |schema|
  {
    MAGIC + LE(VERSION, 2) + LE(|schema|, 4) + schema
  }

  function IndexEntryBytes(e: IndexEntry): (s: seq<Byte>)
    ensures |s| == INDEX_ENTRY
  {
    LE(e.offset, 8) + LE(e.meta.tsMin, 8) + LE(e.meta.tsMax, 8) + LE(e.meta.count, 4)
  }

  function IndexBytes(ix: seq<IndexEntry>): (s: seq<Byte>)
    ensures |s| == INDEX_ENTRY * |ix|
  {
    if |ix| == 0 then [] else IndexBytes(ix[..|ix| - 1]) + IndexEntryBytes(ix[|ix| - 1])
  }

  function FooterBytes(indexOffset: nat, count: nat): (s: seq<Byte>)
    ensures |s| == FOOTER
  {
    LE(indexOffset, 8) + LE(count, 4) + LE(INDEX_MAGIC, 4)
  }

  /** Where packet `i` starts. */
  function OffsetOf(schema: seq<Byte>, ps: seq<PacketData>, i: nat): nat
    requires i <= |ps|
  {
    FILE_HEADER + |schema| + |Flatten(ps[..i])|
  }

  function ItemIndex(schema: seq<Byte>, items: seq<Item>): (ix: seq<IndexEntry>)
    ensures |ix| == |items|
    ensures forall i :: 0 <= i < |ix| ==> ix[i] == IndexEntry(OffsetOf(schema, Packets(items), i), items[i].meta)
  {
    seq(|items|, i requires 0 <= i < |items| => IndexEntry(OffsetOf(schema, Packets(items), i), items[i].meta))
  }

  /** The file holds exactly: header and schema, the packets end to end, the index, the footer. */
  ghost predicate Stored(file: seq<Byte>, schema: seq<Byte>, ps: seq<PacketData>, ix: seq<IndexEntry>) {
    var base := FILE_HEADER + |schema|;
    var at := base + |Flatten(ps)|;
    && |file| == at + INDEX_ENTRY * |ix| + FOOTER
    && file[..base] == HeaderAndSchema(schema)
    && file[base..at] == Flatten(ps)
    && file[at..at + INDEX_ENTRY * |ix|] == IndexBytes(ix)
    && file[at + INDEX_ENTRY * |ix|..] == FooterBytes(at, |ix|)
  }

  lemma FourParts<T>(a: seq<T>, b: seq<T>, c: seq<T>, d: seq<T>)
    ensures var s := a + b + c + d;
      && s[..|a|] == a && s[|a|..|a| + |b|] == b
      && s[|a| + |b|..|a| + |b| + |c|] == c && s[|a| + |b| + |c|..] == d
  {
  }

  /** The index goes out after the packets. */
  method IndexSection(index: seq<IndexEntry>) returns (bytes: seq<Byte>)
    ensures bytes == IndexBytes(index)
  {
    bytes := [];
    var i := 0;
    while i < |index|
      invariant 0 <= i <= |index| && bytes == IndexBytes(index[..i])
    {
      assert index[..i + 1][..i] == index[..i];
      bytes := bytes + IndexEntryBytes(index[i]);
      i := i + 1;
    }
    assert index[..|index|] == index;
  }

  /** Closing a file: index, then footer. */
  method AppendIndex(body: seq<Byte>, index: seq<IndexEntry>, ghost schema: seq<Byte>, ghost ps: seq<PacketData>)
    returns (file: seq<Byte>)
    requires body == HeaderAndSchema(schema) + Flatten(ps)
    ensures Stored(file, schema, ps, index)
  {
    var section := IndexSection(index);
    file := body + section + FooterBytes(|body|, |index|);
    FourParts(HeaderAndSchema(schema), Flatten(ps), section, FooterBytes(|body|, |index|));
  }

  /** `write_btlm_inner`: offsets are taken from the stream position as packets go out. */
  method WriteBtlm(schema: seq<Byte>, items: seq<Item>) returns (file: seq<Byte>)
    ensures Stored(file, schema, Packets(items), ItemIndex(schema, items))
  {
    ghost var ps := Packets(items);
    file := MAGIC + LE(VERSION, 2) + LE(|schema|, 4) + schema;
    var offsets: seq<IndexEntry> := [];
    var i := 0;
    while i < |items|
      invariant 0 <= i <= |items| && file == HeaderAndSchema(schema) + Flatten(ps[..i])
      invariant offsets == ItemIndex(schema, items)[..i]
    {
      offsets := offsets + [IndexEntry(|file|, items[i].meta)];
      file := file + items[i].data;
      FlattenSnoc(ps[..i], ps[i]);
      assert ps[..i] + [ps[i]] == ps[..i + 1];
      i := i + 1;
    }
    assert ps[..|items|] == ps && offsets == ItemIndex(schema, items);
    file := AppendIndex(file, offsets, schema, ps);
  }

  // -------------------------------------------------------------------------------------------- reading

  datatype CaptureError = Io | BadMagic | UnsupportedVersion(v: nat) | Truncated
  datatype Loaded<+T> = Ok(value: T) | Err(error: CaptureError)
  datatype LoadedCapture = LoadedCapture(schema: seq<Byte>, packets: seq<PacketData>)

  /** Offsets of the index entries: an entry cut off by the end of the file is an I/O error. */
  function Offsets(file: seq<Byte>, at: nat, count: nat): Loaded<seq<nat>> {
    if count == 0 then Ok([])
    else
      var init := Offsets(file, at, count - 1);
      if init.Err? then init
      else if at + INDEX_ENTRY * count > |file| then Err(Io)
      else Ok(init.value + [Read(file, at + INDEX_ENTRY * (count - 1), 8)])
  }

  /** Packet `i` runs from its offset to the next one, the last to the index. */
  function SliceAt(file: seq<Byte>, offs: seq<nat>, indexOffset: nat, i: nat): Loaded<PacketData>
    requires i < |offs|
  {
    var start, end := offs[i], if i + 1 < |offs| then offs[i + 1] else indexOffset;
    if end < start then Err(Truncated)
    else if end > start && end > |file| then Err(Io)
    else if end == start then Ok([])
    else Ok(file[start..end])
  }

  function Slices(file: seq<Byte>, offs: seq<nat>, indexOffset: nat, n: nat): Loaded<seq<PacketData>>
    requires n <= |offs|
  {
    if n == 0 then Ok([])
    else
      var init := Slices(file, offs, indexOffset, n - 1);
      if init.Err? then init
      else
        var p := SliceAt(file, offs, indexOffset, n - 1);
        if p.Err? then Err(p.error) else Ok(init.value + [p.value])
  }

  function ReadSpec(file: seq<Byte>): Loaded<LoadedCapture> {
    if |file| < 4 then Err(Io)
    else if file[..4] != MAGIC then Err(BadMagic)
    else if |file| < 6 then Err(Io)
    else if Read(file, 4, 2) != VERSION then Err(UnsupportedVersion(Read(file, 4, 2)))
    else if |file| < FILE_HEADER then Err(Io)
    else if |file| < FILE_HEADER + Read(file, 6, 4) then Err(Io)
    else if |file| < FOOTER then Err(Truncated)
    else
      var schema := file[FILE_HEADER..FILE_HEADER + Read(file, 6, 4)];
      var foot := |file| - FOOTER;
      if Read(file, foot + 12, 4) != INDEX_MAGIC then Err(BadMagic)
      else
        var offs := Offsets(file, Read(file, foot, 8), Read(file, foot + 8, 4));
        if offs.Err? then Err(offs.error)
        else
          var ps := Slices(file, offs.value, Read(file, foot, 8), |offs.value|);
          if ps.Err? then Err(ps.error) else Ok(LoadedCapture(schema, ps.value))
  }

  /** `read_btlm`. */
  method ReadBtlm(file: seq<Byte>) returns (r: Loaded<LoadedCapture>)
    ensures r == ReadSpec(file)
  {
    if |file| < 4 { return Err(Io); }
    if file[..4] != MAGIC { return Err(BadMagic); }
    if |file| < 6 { return Err(Io); }
    var version := Read(file, 4, 2);
    if version != VERSION { return Err(UnsupportedVersion(version)); }
    if |file| < FILE_HEADER { return Err(Io); }
    var schemaLen := Read(file, 6, 4);
    if |file| < FILE_HEADER + schemaLen { return Err(Io); }
    var schema := file[FILE_HEADER..FILE_HEADER + schemaLen];
    if |file| < FOOTER { return Err(Truncated); }
    var foot := |file| - FOOTER;
    var indexOffset, count := Read(file, foot, 8), Read(file, foot + 8, 4);
    if Read(file, foot + 12, 4) != INDEX_MAGIC { return Err(BadMagic); }
    var offs := ReadOffsets(file, indexOffset, count);
    if offs.Err? { return Err(offs.error); }
    var ps := ReadPackets(file, offs.value, indexOffset);
    if ps.Err? { return Err(ps.error); }
    r := Ok(LoadedCapture(schema, ps.value));
  }

  lemma {:induction false} OffsetsFailEarly(file: seq<Byte>, at: nat, i: nat, count: nat)
    requires i <= count && Offsets(file, at, i).Err?
    ensures Offsets(file, at, count) == Offsets(file, at, i)
    decreases count
  {
    if i < count { OffsetsFailEarly(file, at, i, count - 1); }
  }

  method ReadOffsets(file: seq<Byte>, at: nat, count: nat) returns (r: Loaded<seq<nat>>)
    ensures r == Offsets(file, at, count)
  {
    var offs: seq<nat> := [];
    var i := 0;
    while i < count
      invariant 0 <= i <= count && Offsets(file, at, i) == Ok(offs)
    {
      if at + INDEX_ENTRY * (i + 1) > |file| {
        OffsetsFailEarly(file, at, i + 1, count);
        return Err(Io);
      }
      offs := offs + [Read(file, at + INDEX_ENTRY * i, 8)];
      i := i + 1;
    }
    r := Ok(offs);
  }

  lemma {:induction false} SlicesFailEarly(file: seq<Byte>, offs: seq<nat>, indexOffset: nat, i: nat, n: nat)
    requires i <= n <= |offs| && Slices(file, offs, indexOffset, i).Err?
    ensures Slices(file, offs, indexOffset, n) == Slices(file, offs, indexOffset, i)
    decreases n
  {
    if i < n { SlicesFailEarly(file, offs, indexOffset, i, n - 1); }
  }

  method ReadPackets(file: seq<Byte>, offs: seq<nat>, indexOffset: nat) returns (r: Loaded<seq<PacketData>>)
    ensures r == Slices(file, offs, indexOffset, |offs|)
  {
    var ps: seq<PacketData> := [];
    var i := 0;
    while i < |offs|
      invariant 0 <= i <= |offs| && Slices(file, offs, indexOffset, i) == Ok(ps)
    {
      var start, end := offs[i], indexOffset;
      if i + 1 < |offs| { end := offs[i + 1]; }
      if end < start {
        SlicesFailEarly(file, offs, indexOffset, i + 1, |offs|);
        return Err(Truncated);
      }
      if end > start && end > |file| {
        SlicesFailEarly(file, offs, indexOffset, i + 1, |offs|);
        return Err(Io);
      }
      ps := ps + [if start < end then file[start..end] else []];
      i := i + 1;
    }
    r := Ok(ps);
  }

  // ----------------------------------------------------------------------------------------- round trip

  /** The widths of the format suffice. */
  ghost predicate Storable(schema: seq<Byte>, ps: seq<PacketData>) {
    |schema| < U32 && |ps| < U32 && FILE_HEADER + |schema| + |Flatten(ps)| < U64
  }

  lemma {:induction false} IndexEntryAt(ix: seq<IndexEntry>, i: nat)
    requires i < |ix|
    ensures IndexBytes(ix)[INDEX_ENTRY * i..INDEX_ENTRY * i + INDEX_ENTRY] == IndexEntryBytes(ix[i])
  {
    if i < |ix| - 1 {
      IndexEntryAt(ix[..|ix| - 1], i);
    }
  }

  lemma HeaderReads(file: seq<Byte>, schema: seq<Byte>)
    requires |schema| < U32 && FILE_HEADER + |schema| <= |file|
    requires file[..FILE_HEADER + |schema|] == HeaderAndSchema(schema)
    ensures file[..4] == MAGIC && Read(file, 4, 2) == VERSION && Read(file, 6, 4) == |schema|
    ensures file[FILE_HEADER..FILE_HEADER + |schema|] == schema
  {
    PowValues();
    FourParts(MAGIC, LE(VERSION, 2), LE(|schema|, 4), schema);
    var h := HeaderAndSchema(schema);
    assert file[..4] == h[..4] && file[4..6] == h[4..6] && file[6..10] == h[6..10];
    assert file[FILE_HEADER..FILE_HEADER + |schema|] == h[FILE_HEADER..];
    ReadLE(file, 4, VERSION, 2);
    ReadLE(file, 6, |schema|, 4);
  }

  lemma FooterReads(file: seq<Byte>, indexOffset: nat, count: nat)
    requires |file| >= FOOTER && file[|file| - FOOTER..] == FooterBytes(indexOffset, count)
    requires indexOffset < U64 && count < U32
    ensures Read(file, |file| - FOOTER, 8) == indexOffset && Read(file, |file| - FOOTER + 8, 4) == count
    ensures Read(file, |file| - FOOTER + 12, 4) == INDEX_MAGIC
  {
    PowValues();
    var at := |file| - FOOTER;
    var f := FooterBytes(indexOffset, count);
    assert f[0..8] == LE(indexOffset, 8) && f[8..12] == LE(count, 4) && f[12..16] == LE(INDEX_MAGIC, 4);
    assert file[at..|file|] == f;
    SliceSlice(file, at, |file|, 0, 8);
    SliceSlice(file, at, |file|, 8, 12);
    SliceSlice(file, at, |file|, 12, 16);
    ReadLE(file, at, indexOffset, 8);
    ReadLE(file, at + 8, count, 4);
    ReadLE(file, at + 12, INDEX_MAGIC, 4);
  }

  lemma EntryOffsetReads(file: seq<Byte>, slot: nat, e: IndexEntry)
    requires slot + INDEX_ENTRY <= |file| && file[slot..slot + INDEX_ENTRY] == IndexEntryBytes(e) && e.offset < U64
    ensures Read(file, slot, 8) == e.offset
  {
    PowValues();
    assert IndexEntryBytes(e)[0..8] == LE(e.offset, 8);
    SliceSlice(file, slot, slot + INDEX_ENTRY, 0, 8);
    ReadLE(file, slot, e.offset, 8);
  }

  lemma OffsetReads(file: seq<Byte>, at: nat, section: seq<Byte>, slot: nat, e: IndexEntry)
    requires at + |section| <= |file| && file[at..at + |section|] == section
    requires slot + INDEX_ENTRY <= |section| && section[slot..slot + INDEX_ENTRY] == IndexEntryBytes(e)
    requires e.offset < U64
    ensures Read(file, at + slot, 8) == e.offset
  {
    Nested(file, at, |section|, section, slot, INDEX_ENTRY, IndexEntryBytes(e));
    EntryOffsetReads(file, at + slot, e);
  }

  lemma {:induction false} OffsetsReadBack(file: seq<Byte>, at: nat, ix: seq<IndexEntry>, n: nat)
    requires at + INDEX_ENTRY * |ix| <= |file| && file[at..at + INDEX_ENTRY * |ix|] == IndexBytes(ix) && n <= |ix|
    requires forall i :: 0 <= i < |ix| ==> ix[i].offset < U64
    ensures Offsets(file, at, n).Ok? && |Offsets(file, at, n).value| == n
    ensures forall i :: 0 <= i < n ==> Offsets(file, at, n).value[i] == ix[i].offset
  {
    if n > 0 {
      OffsetsReadBack(file, at, ix, n - 1);
      IndexEntryAt(ix, n - 1);
      OffsetReads(file, at, IndexBytes(ix), INDEX_ENTRY * (n - 1), ix[n - 1]);
    }
  }

  lemma {:induction false} SlicesReadBack(file: seq<Byte>, offs: seq<nat>, dataAt: nat, indexAt: nat,
                                          ps: seq<PacketData>, n: nat)
    requires dataAt <= indexAt <= |file| && file[dataAt..indexAt] == Flatten(ps) && |offs| == |ps| && n <= |ps|
    requires forall i :: 0 <= i < |ps| ==> offs[i] == dataAt + |Flatten(ps[..i])|
    ensures Slices(file, offs, indexAt, n) == Ok(ps[..n])
  {
    if n > 0 {
      SlicesReadBack(file, offs, dataAt, indexAt, ps, n - 1);
      PacketSlice(file, offs, dataAt, indexAt, ps, n - 1);
      assert ps[..n] == ps[..n - 1] + [ps[n - 1]];
    }
  }

  lemma PacketSlice(file: seq<Byte>, offs: seq<nat>, dataAt: nat, indexAt: nat, ps: seq<PacketData>, i: nat)
    requires dataAt <= indexAt <= |file| && file[dataAt..indexAt] == Flatten(ps) && |offs| == |ps| && i < |ps|
    requires forall i :: 0 <= i < |ps| ==> offs[i] == dataAt + |Flatten(ps[..i])|
    ensures SliceAt(file, offs, indexAt, i) == Ok(ps[i])
  {
    PacketAt(ps, i);
    var off := |Flatten(ps[..i])|;
    FlattenSnoc(ps[..i], ps[i]);
    assert ps[..i] + [ps[i]] == ps[..i + 1];
    if i + 1 == |ps| { assert ps[..i + 1] == ps; }
    SliceSlice(file, dataAt, indexAt, off, off + |ps[i]|);
  }

  lemma DataReadsBack(file: seq<Byte>, dataAt: nat, indexAt: nat, ps: seq<PacketData>, ix: seq<IndexEntry>)
    requires dataAt <= indexAt < U64 && indexAt + INDEX_ENTRY * |ix| <= |file| && |ix| == |ps|
    requires file[dataAt..indexAt] == Flatten(ps) && file[indexAt..indexAt + INDEX_ENTRY * |ix|] == IndexBytes(ix)
    requires forall i :: 0 <= i < |ps| ==> ix[i].offset == dataAt + |Flatten(ps[..i])|
    ensures var offs := Offsets(file, indexAt, |ix|);
      offs.Ok? && |offs.value| == |ps| && Slices(file, offs.value, indexAt, |ps|) == Ok(ps)
  {
    forall i | 0 <= i < |ix| ensures ix[i].offset < U64 { PacketAt(ps, i); }
    OffsetsReadBack(file, indexAt, ix, |ix|);
    SlicesReadBack(file, Offsets(file, indexAt, |ix|).value, dataAt, indexAt, ps, |ps|);
    assert ps[..|ps|] == ps;
  }

  lemma ReadFromParts(file: seq<Byte>, schema: seq<Byte>, indexAt: nat, count: nat, offs: seq<nat>, ps: seq<PacketData>)
    requires FILE_HEADER + |schema| + FOOTER <= |file|
    requires file[..4] == MAGIC && Read(file, 4, 2) == VERSION && Read(file, 6, 4) == |schema|
    requires file[FILE_HEADER..FILE_HEADER + |schema|] == schema
    requires Read(file, |file| - FOOTER, 8) == indexAt && Read(file, |file| - FOOTER + 8, 4) == count
    requires Read(file, |file| - FOOTER + 12, 4) == INDEX_MAGIC
    requires Offsets(file, indexAt, count) == Ok(offs) && Slices(file, offs, indexAt, |offs|) == Ok(ps)
    ensures ReadSpec(file) == Ok(LoadedCapture(schema, ps))
  {
  }

  /** Any file with these packets end to end and an index of their offsets reads back. */
  lemma StoredReadsBack(file: seq<Byte>, schema: seq<Byte>, ps: seq<PacketData>, ix: seq<IndexEntry>)
    requires Stored(file, schema, ps, ix) && Storable(schema, ps) && |ix| == |ps|
    requires forall i :: 0 <= i < |ps| ==> ix[i].offset == FILE_HEADER + |schema| + |Flatten(ps[..i])|
    ensures ReadSpec(file) == Ok(LoadedCapture(schema, ps))
  {
    var at := FILE_HEADER + |schema| + |Flatten(ps)|;
    HeaderReads(file, schema);
    FooterReads(file, at, |ix|);
    DataReadsBack(file, FILE_HEADER + |schema|, at, ps, ix);
    ReadFromParts(file, schema, at, |ix|, Offsets(file, at, |ix|).value, ps);
  }

  /** Saving a capture and reading it back returns the same schema and the same packets, whatever bytes the
      packets hold and whatever metadata was recorded. */
  lemma SaveLoadRoundTrip(file: seq<Byte>, schema: seq<Byte>, items: seq<Item>)
    requires Stored(file, schema, Packets(items), ItemIndex(schema, items)) && Storable(schema, Packets(items))
    ensures ReadSpec(file) == Ok(LoadedCapture(schema, Packets(items)))
  {
    StoredReadsBack(file, schema, Packets(items), ItemIndex(schema, items));
  }
}
