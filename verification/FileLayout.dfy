/** The bytes of a `.btlm` file, position by position, and what any file that loads must look like. */
module FileLayout {
  import opened Bytes
  import opened DrainCore
  import opened PacketCodec
  import opened PacketIndex
  import opened BtlmFile
  import opened LogReader

  /** "BTLM", version 1, the schema behind its length, packets, index entries of 28 bytes, and a footer that names the
      index and ends in "BTLI". */
  ghost predicate FileLaid(file: seq<Byte>, schema: seq<Byte>, ps: seq<PacketData>, ix: seq<IndexEntry>) {
    var at := 10 + |schema| + |Flatten(ps)|;
    && |file| == at + 28 * |ix| + 16
    && file[0] == 66 && file[1] == 84 && file[2] == 76 && file[3] == 77
    && Read(file, 4, 2) == 1 && Read(file, 6, 4) == |schema| && file[10..10 + |schema|] == schema
    && file[10 + |schema|..at] == Flatten(ps)
    && (forall i :: 0 <= i < |ix| ==> EntryAtOffset(file, at + 28 * i) == ix[i])
    && Read(file, |file| - 16, 8) == at && Read(file, |file| - 8, 4) == |ix|
    && file[|file| - 4] == 66 && file[|file| - 3] == 84 && file[|file| - 2] == 76 && file[|file| - 1] == 73
  }

  lemma Start(file: seq<Byte>, schema: seq<Byte>, ps: seq<PacketData>, ix: seq<IndexEntry>)
    requires Stored(file, schema, ps, ix) && Storable(schema, ps)
    ensures file[0] == 66 && file[1] == 84 && file[2] == 76 && file[3] == 77
    ensures Read(file, 4, 2) == 1 && Read(file, 6, 4) == |schema| && file[10..10 + |schema|] == schema
  {
    HeaderReads(file, schema);
    assert file[..4] == [66, 84, 76, 77];
    assert file[0] == file[..4][0] && file[1] == file[..4][1] && file[2] == file[..4][2] && file[3] == file[..4][3];
  }

  /** The four bytes of the footer magic. */
  lemma MagicBytes(s: seq<Byte>)
    requires |s| == 4 && s == LE(INDEX_MAGIC, 4)
    ensures s == [66, 84, 76, 73]
  {
    assert LE(0x494C5442, 4) == Digits(0x494C5442, 4) == [66] + LE(0x494C54, 3);
    assert LE(0x494C54, 3) == Digits(0x494C54, 3) == [84] + LE(0x494C, 2);
    assert LE(0x494C, 2) == Digits(0x494C, 2) == [76] + LE(0x49, 1);
    assert LE(0x49, 1) == Digits(0x49, 1) == [73] + LE(0, 0);
    assert LE(0, 0) == Digits(0, 0) == [];
  }

  lemma End(file: seq<Byte>, at: nat, count: nat)
    requires |file| >= 16 && file[|file| - 16..] == FooterBytes(at, count) && at < U64 && count < U32
    ensures Read(file, |file| - 16, 8) == at && Read(file, |file| - 8, 4) == count
    ensures file[|file| - 4] == 66 && file[|file| - 3] == 84 && file[|file| - 2] == 76 && file[|file| - 1] == 73
  {
    FooterReads(file, at, count);
    var f := FooterBytes(at, count);
    assert f[12..] == LE(INDEX_MAGIC, 4);
    MagicBytes(f[12..]);
    assert file[|file| - 16..][12..] == f[12..];
  }

  lemma {:induction false} EntryOfIndex(file: seq<Byte>, at: nat, n: nat, i: nat)
    requires at + 28 * n <= |file| && i < n
    ensures IndexAtOffset(file, at, n)[i] == EntryAtOffset(file, at + 28 * i)
  {
    if i < n - 1 { EntryOfIndex(file, at, n - 1, i); }
  }

  lemma StoredIsLaid(file: seq<Byte>, schema: seq<Byte>, ps: seq<PacketData>, ix: seq<IndexEntry>)
    requires Stored(file, schema, ps, ix) && Storable(schema, ps) && |ix| == |ps|
    requires forall i :: 0 <= i < |ix| ==> InRange(ix[i])
    ensures FileLaid(file, schema, ps, ix)
  {
    var at := 10 + |schema| + |Flatten(ps)|;
    Start(file, schema, ps, ix);
    End(file, at, |ix|);
    IndexReadsBack(file, at, IndexBytes(ix), ix, |ix|);
    IndexIsRead(file, at, ix);
  }

  lemma IndexIsRead(file: seq<Byte>, at: nat, ix: seq<IndexEntry>)
    requires at + 28 * |ix| <= |file| && IndexAtOffset(file, at, |ix|) == ix[..|ix|]
    ensures forall i :: 0 <= i < |ix| ==> EntryAtOffset(file, at + 28 * i) == ix[i]
  {
    forall i | 0 <= i < |ix| ensures EntryAtOffset(file, at + 28 * i) == ix[i] { EntryOfIndex(file, at, |ix|, i); }
  }

  // ----------------------------------------------------------------------------------- any file that loads

  /** Packet `i` is the bytes from its offset to the next one, the last to the index. */
  ghost predicate SliceLoaded(file: seq<Byte>, offs: seq<nat>, indexOffset: nat, i: nat, p: PacketData)
    requires i < |offs|
  {
    var start, end := offs[i], if i + 1 < |offs| then offs[i + 1] else indexOffset;
    start <= end && (if start == end then p == [] else end <= |file| && p == file[start..end])
  }

  lemma {:induction false} OffsetsLoaded(file: seq<Byte>, at: nat, n: nat, i: nat)
    requires Offsets(file, at, n).Ok? && i < n
    ensures |Offsets(file, at, n).value| == n && at + 28 * (i + 1) <= |file|
    ensures Offsets(file, at, n).value[i] == Read(file, at + 28 * i, 8)
  {
    if n > 1 { OffsetsLoaded(file, at, n - 1, if i < n - 1 then i else 0); }
  }

  lemma {:induction false} OffsetsCount(file: seq<Byte>, at: nat, n: nat)
    requires Offsets(file, at, n).Ok?
    ensures |Offsets(file, at, n).value| == n
  {
    if n > 0 { OffsetsCount(file, at, n - 1); }
  }

  lemma {:induction false} SlicesLoaded(file: seq<Byte>, offs: seq<nat>, indexOffset: nat, n: nat)
    requires n <= |offs| && Slices(file, offs, indexOffset, n).Ok?
    ensures |Slices(file, offs, indexOffset, n).value| == n
    ensures var ps := Slices(file, offs, indexOffset, n).value;
      forall i :: 0 <= i < n ==> SliceLoaded(file, offs, indexOffset, i, ps[i])
  {
    if n > 0 {
      SlicesLoaded(file, offs, indexOffset, n - 1);
      var init, all := Slices(file, offs, indexOffset, n - 1).value, Slices(file, offs, indexOffset, n).value;
      forall i | 0 <= i < n ensures SliceLoaded(file, offs, indexOffset, i, all[i]) {
        if i < n - 1 { assert all[i] == init[i]; }
      }
    }
  }

  /** What a file must be for the viewer to load it, and what is then loaded. */
  ghost predicate Genuine(file: seq<Byte>, c: LoadedCapture, offs: seq<nat>) {
    && |file| >= 16 && file[..4] == [66, 84, 76, 77] && Read(file, 4, 2) == 1
    && 10 + Read(file, 6, 4) <= |file| && c.schema == file[10..10 + Read(file, 6, 4)]
    && Read(file, |file| - 4, 4) == 0x494C5442
    && |c.packets| == |offs| == Read(file, |file| - 8, 4)
    && (forall i :: 0 <= i < |offs| ==> OffsetAt(file, offs, i))
    && (forall i :: 0 <= i < |offs| ==> SliceLoaded(file, offs, Read(file, |file| - 16, 8), i, c.packets[i]))
  }

  ghost predicate OffsetAt(file: seq<Byte>, offs: seq<nat>, i: nat)
    requires |file| >= 16 && i < |offs|
  {
    var at := Read(file, |file| - 16, 8) + 28 * i; at + 28 <= |file| && offs[i] == Read(file, at, 8)
  }

  lemma LoadedParts(file: seq<Byte>, c: LoadedCapture)
    requires ReadSpec(file) == Ok(c)
    ensures |file| >= 16 && file[..4] == [66, 84, 76, 77] && Read(file, 4, 2) == 1
    ensures 10 + Read(file, 6, 4) <= |file| && c.schema == file[10..10 + Read(file, 6, 4)]
    ensures Read(file, |file| - 4, 4) == 0x494C5442
    ensures var at := Read(file, |file| - 16, 8);
      var offs := Offsets(file, at, Read(file, |file| - 8, 4));
      offs.Ok? && Slices(file, offs.value, at, |offs.value|) == Ok(c.packets)
  {
  }

  /** For all bytes: what `read_btlm` loads is what such a file holds, and no other file loads. */
  lemma LoadedIsGenuine(file: seq<Byte>, c: LoadedCapture) returns (offs: seq<nat>)
    requires ReadSpec(file) == Ok(c)
    ensures Genuine(file, c, offs)
  {
    LoadedParts(file, c);
    var at, n := Read(file, |file| - 16, 8), Read(file, |file| - 8, 4);
    offs := Offsets(file, at, n).value;
    PartsGenuine(file, c, at, n, offs);
  }

  lemma PartsGenuine(file: seq<Byte>, c: LoadedCapture, at: nat, n: nat, offs: seq<nat>)
    requires |file| >= 16 && at == Read(file, |file| - 16, 8) && n == Read(file, |file| - 8, 4)
    requires Offsets(file, at, n) == Ok(offs) && Slices(file, offs, at, |offs|) == Ok(c.packets)
    ensures |c.packets| == |offs| == n
    ensures forall i :: 0 <= i < |offs| ==> OffsetAt(file, offs, i)
    ensures forall i :: 0 <= i < |offs| ==> SliceLoaded(file, offs, at, i, c.packets[i])
  {
    OffsetsCount(file, at, n);
    forall i | 0 <= i < |offs| ensures OffsetAt(file, offs, i) { OffsetsLoaded(file, at, n, i); }
    SlicesLoaded(file, offs, at, |offs|);
  }
}
