/** Reading a log: sequentially, or through the footer index with a time range. */
module LogReader {
  import opened Bytes
  import opened DrainCore
  import opened PacketCodec
  import opened PacketIndex
  import opened BtlmFile
  import opened PyDecoder
  import opened LogFile

  datatype Limit = NoLimit | Limit(t: nat)

  predicate InTime(lo: Limit, hi: Limit, t: nat) {
    (lo.Limit? ==> lo.t <= t) && (hi.Limit? ==> t <= hi.t)
  }

  function TimeFilter(es: seq<Entry>, lo: Limit, hi: Limit): seq<Entry> {
    if |es| == 0 then []
    else TimeFilter(es[..|es| - 1], lo, hi) + (if InTime(lo, hi, es[|es| - 1].timestamp) then [es[|es| - 1]] else [])
  }

  // -------------------------------------------------------------------------------------- sequentially

  /** The packets met walking from `pos` to the end of the data section, or to the first one cut short. */
  function Walk(file: seq<Byte>, pos: nat, end: nat): seq<PacketData>
    decreases |file| - pos
  {
    if pos >= end || !WholeAt(file, pos) then []
    else
      [file[pos..pos + SizeAt(file, pos)]] + Walk(file, pos + SizeAt(file, pos), end)
  }

  lemma WalkStep(file: seq<Byte>, pos: nat, end: nat, pkt: PacketData, next: nat)
    requires pos < end && WholeAt(file, pos) && next == pos + SizeAt(file, pos) && pkt == file[pos..next]
    ensures Walk(file, pos, end) == [pkt] + Walk(file, next, end)
  {
  }

  lemma DecodeStep(seen: seq<PacketData>, p: PacketData, later: seq<PacketData>, rd: Reader)
    ensures seen + ([p] + later) == (seen + [p]) + later
    ensures DecodeAll(seen + [p], rd) == DecodeAll(seen, rd) + Yield(PyDecode(p, rd))
  {
    GatherSnoc(seen, p, RowsOf(rd));
  }

  /** `_entries_sequential`, to the data end a footer gives or the end of the file: it decodes the packets it meets
      one after the other, up to the first that raises. */
  method EntriesSequential(file: seq<Byte>, dataStart: nat, end: nat, rd: Reader)
    returns (ok: bool, es: seq<Entry>, ghost read: nat)
    ensures
      var all := Walk(file, dataStart, end);
      && read <= |all| && AllDecode(all[..read], rd) && es == DecodeAll(all[..read], rd)
      && (ok <==> read == |all|) && (!ok ==> !Decodes(all[read], rd))
  {
    ok, es := true, [];
    var pos := dataStart;
    ghost var seen: seq<PacketData>, rest := [], Walk(file, dataStart, end);
    ghost var all := rest;
    while pos < end && WholeAt(file, pos)
      invariant es == DecodeAll(seen, rd) && AllDecode(seen, rd) && all == seen + rest
      invariant rest == Walk(file, pos, end)
      decreases |file| - pos
    {
      var next := pos + SizeAt(file, pos);
      var pkt := file[pos..next];
      var r := DecodePy(pkt, rd);
      ghost var later := Walk(file, next, end);
      WalkStep(file, pos, end, pkt, next);
      if r.Raises? {
        assert all[..|seen|] == seen && all[|seen|] == pkt;
        return false, es, |seen|;
      }
      DecodeStep(seen, pkt, later, rd);
      es := es + r.entries;
      seen, rest := seen + [pkt], later;
      pos := next;
    }
    assert rest == [] && seen + [] == seen && all[..|seen|] == seen;
    return true, es, |seen|;
  }

  // ---------------------------------------------------------------------------------- through the index

  predicate Skipped(m: Meta, lo: Limit, hi: Limit) {
    (hi.Limit? && m.tsMin > hi.t) || (lo.Limit? && m.tsMax < lo.t)
  }

  /** The bytes read for an index entry: header and table by the index's count, payload by the header. */
  function Fetch(file: seq<Byte>, e: IndexEntry): PacketData {
    var tableEnd := e.offset + PACKET_HEADER + ENTRY_HEADER * e.meta.count;
    if e.offset + PACKET_HEADER > |file| then []
    else Clamped(file, e.offset, tableEnd + Read(file, e.offset + 4, 4))
  }

  /** What one index entry contributes. */
  function Contribution(file: seq<Byte>, e: IndexEntry, lo: Limit, hi: Limit, rd: Reader): seq<Entry> {
    if Skipped(e.meta, lo, hi) then []
    else TimeFilter(Yield(PyDecode(Fetch(file, e), rd)), lo, hi)
  }

  /** The read raises on this entry. */
  predicate Blocks(file: seq<Byte>, e: IndexEntry, lo: Limit, hi: Limit, rd: Reader) {
    !Skipped(e.meta, lo, hi) && (|Fetch(file, e)| < PACKET_HEADER || !Decodes(Fetch(file, e), rd))
  }

  predicate NoneBlocks(file: seq<Byte>, ix: seq<IndexEntry>, lo: Limit, hi: Limit, rd: Reader) {
    forall i :: 0 <= i < |ix| ==> !Blocks(file, ix[i], lo, hi, rd)
  }

  function Indexed(file: seq<Byte>, ix: seq<IndexEntry>, lo: Limit, hi: Limit, rd: Reader): seq<Entry> {
    if |ix| == 0 then []
    else Indexed(file, ix[..|ix| - 1], lo, hi, rd) + Contribution(file, ix[|ix| - 1], lo, hi, rd)
  }

  /** The per-entry time check. */
  method FilterByTime(es: seq<Entry>, lo: Limit, hi: Limit) returns (r: seq<Entry>)
    ensures r == TimeFilter(es, lo, hi)
  {
    r := [];
    var i := 0;
    while i < |es|
      invariant 0 <= i <= |es| && r == TimeFilter(es[..i], lo, hi)
    {
      assert es[..i + 1][..i] == es[..i];
      if InTime(lo, hi, es[i].timestamp) { r := r + [es[i]]; }
      i := i + 1;
    }
    assert es[..|es|] == es;
  }

  /** One index entry: `ok` is false when its read raises. */
  method ReadOne(file: seq<Byte>, e: IndexEntry, lo: Limit, hi: Limit, rd: Reader) returns (ok: bool, kept: seq<Entry>)
    ensures ok == !Blocks(file, e, lo, hi, rd) && kept == Contribution(file, e, lo, hi, rd)
  {
    if Skipped(e.meta, lo, hi) { return true, []; }
    var pkt := Fetch(file, e);
    if |pkt| < PACKET_HEADER { return false, []; }
    var r := DecodePy(pkt, rd);
    if r.Raises? { return false, []; }
    kept := FilterByTime(r.entries, lo, hi);
    ok := true;
  }

  /** `_entries_indexed`: stops at the first entry that raises, having yielded what came before it. */
  method EntriesIndexed(file: seq<Byte>, ix: seq<IndexEntry>, lo: Limit, hi: Limit, rd: Reader)
    returns (es: seq<Entry>, stop: nat)
    ensures stop <= |ix| && es == Indexed(file, ix[..stop], lo, hi, rd)
    ensures NoneBlocks(file, ix[..stop], lo, hi, rd)
    ensures stop < |ix| ==> Blocks(file, ix[stop], lo, hi, rd)
  {
    es := [];
    stop := 0;
    while stop < |ix|
      invariant 0 <= stop <= |ix| && es == Indexed(file, ix[..stop], lo, hi, rd)
      invariant NoneBlocks(file, ix[..stop], lo, hi, rd)
    {
      IndexedSnoc(file, ix, stop, lo, hi, rd);
      var ok, kept := ReadOne(file, ix[stop], lo, hi, rd);
      if !ok { return; }
      NoneBlocksSnoc(file, ix, stop, lo, hi, rd);
      es := es + kept;
      stop := stop + 1;
    }
  }

  lemma NoneBlocksSnoc(file: seq<Byte>, ix: seq<IndexEntry>, i: nat, lo: Limit, hi: Limit, rd: Reader)
    requires i < |ix| && NoneBlocks(file, ix[..i], lo, hi, rd) && !Blocks(file, ix[i], lo, hi, rd)
    ensures NoneBlocks(file, ix[..i + 1], lo, hi, rd)
  {
    var longer := ix[..i + 1];
    forall k | 0 <= k < |longer| ensures !Blocks(file, longer[k], lo, hi, rd) {
      if k < i { assert ix[..i][k] == longer[k]; }
    }
  }

  lemma IndexedSnoc(file: seq<Byte>, ix: seq<IndexEntry>, i: nat, lo: Limit, hi: Limit, rd: Reader)
    requires i < |ix|
    ensures Indexed(file, ix[..i + 1], lo, hi, rd) ==
      Indexed(file, ix[..i], lo, hi, rd) + Contribution(file, ix[i], lo, hi, rd)
  {
    assert ix[..i + 1][..i] == ix[..i];
  }

  // ---------------------------------------------------------------------------------------- the footer

  /** The footer index, if the footer is genuine. */
  datatype Footer = Absent | Present(index: seq<IndexEntry>, dataEnd: nat)

  function EntryAtOffset(file: seq<Byte>, at: nat): IndexEntry
    requires at + INDEX_ENTRY <= |file|
  {
    IndexEntry(Read(file, at, 8), Meta(Read(file, at + 8, 8), Read(file, at + 16, 8), Read(file, at + 24, 4)))
  }

  function IndexAtOffset(file: seq<Byte>, at: nat, n: nat): (ix: seq<IndexEntry>)
    requires at + INDEX_ENTRY * n <= |file|
    ensures |ix| == n
  {
    if n == 0 then [] else IndexAtOffset(file, at, n - 1) + [EntryAtOffset(file, at + INDEX_ENTRY * (n - 1))]
  }

  function FooterOf(file: seq<Byte>, dataStart: nat): Footer {
    if |file| < dataStart + FOOTER then Absent
    else
      var foot := |file| - FOOTER;
      var at, n := Read(file, foot, 8), Read(file, foot + 8, 4);
      if Read(file, foot + 12, 4) != INDEX_MAGIC || at + INDEX_ENTRY * n + FOOTER != |file| then Absent
      else Present(IndexAtOffset(file, at, n), at)
  }

  /** `_try_load_index`. */
  method TryLoadIndex(file: seq<Byte>, dataStart: nat) returns (r: Footer)
    ensures r == FooterOf(file, dataStart)
  {
    if |file| < dataStart + FOOTER { return Absent; }
    var foot := |file| - FOOTER;
    var at, n := Read(file, foot, 8), Read(file, foot + 8, 4);
    if Read(file, foot + 12, 4) != INDEX_MAGIC { return Absent; }
    if at + INDEX_ENTRY * n + FOOTER != |file| { return Absent; }
    var ix: seq<IndexEntry> := [];
    var i := 0;
    while i < n
      invariant 0 <= i <= n && ix == IndexAtOffset(file, at, i)
    {
      ix := ix + [EntryAtOffset(file, at + INDEX_ENTRY * i)];
      i := i + 1;
    }
    r := Present(ix, at);
  }

  lemma EntryReadsBack(file: seq<Byte>, slot: nat, e: IndexEntry)
    requires slot + INDEX_ENTRY <= |file| && file[slot..slot + INDEX_ENTRY] == IndexEntryBytes(e)
    requires e.offset < U64 && e.meta.tsMin < U64 && e.meta.tsMax < U64 && e.meta.count < U32
    ensures EntryAtOffset(file, slot) == e
  {
    PowValues();
    FourParts(LE(e.offset, 8), LE(e.meta.tsMin, 8), LE(e.meta.tsMax, 8), LE(e.meta.count, 4));
    SliceSlice(file, slot, slot + INDEX_ENTRY, 0, 8);
    SliceSlice(file, slot, slot + INDEX_ENTRY, 8, 16);
    SliceSlice(file, slot, slot + INDEX_ENTRY, 16, 24);
    SliceSlice(file, slot, slot + INDEX_ENTRY, 24, 28);
    ReadLE(file, slot, e.offset, 8);
    ReadLE(file, slot + 8, e.meta.tsMin, 8);
    ReadLE(file, slot + 16, e.meta.tsMax, 8);
    ReadLE(file, slot + 24, e.meta.count, 4);
  }

  predicate InRange(e: IndexEntry) {
    e.offset < U64 && e.meta.tsMin < U64 && e.meta.tsMax < U64 && e.meta.count < U32
  }

  lemma SlotReadsBack(file: seq<Byte>, at: nat, section: seq<Byte>, slot: nat, e: IndexEntry)
    requires at + |section| <= |file| && file[at..at + |section|] == section && slot + INDEX_ENTRY <= |section|
    requires section[slot..slot + INDEX_ENTRY] == IndexEntryBytes(e) && InRange(e)
    ensures EntryAtOffset(file, at + slot) == e
  {
    Nested(file, at, |section|, section, slot, INDEX_ENTRY, IndexEntryBytes(e));
    EntryReadsBack(file, at + slot, e);
  }

  lemma {:induction false} IndexReadsBack(file: seq<Byte>, at: nat, section: seq<Byte>, ix: seq<IndexEntry>, n: nat)
    requires section == IndexBytes(ix) && at + |section| <= |file| && file[at..at + |section|] == section && n <= |ix|
    requires forall i :: 0 <= i < |ix| ==> InRange(ix[i])
    ensures IndexAtOffset(file, at, n) == ix[..n]
  {
    if n > 0 {
      IndexReadsBack(file, at, section, ix, n - 1);
      IndexEntryAt(ix, n - 1);
      assert InRange(ix[n - 1]);
      SlotReadsBack(file, at, section, INDEX_ENTRY * (n - 1), ix[n - 1]);
      IndexGrows(file, at, ix, n);
    }
  }

  lemma IndexGrows(file: seq<Byte>, at: nat, ix: seq<IndexEntry>, n: nat)
    requires 0 < n <= |ix| && at + INDEX_ENTRY * n <= |file| && IndexAtOffset(file, at, n - 1) == ix[..n - 1]
    requires EntryAtOffset(file, at + INDEX_ENTRY * (n - 1)) == ix[n - 1]
    ensures IndexAtOffset(file, at, n) == ix[..n]
  {
    assert ix[..n] == ix[..n - 1] + [ix[n - 1]];
  }

  lemma FooterFromParts(file: seq<Byte>, base: nat, at: nat, ix: seq<IndexEntry>)
    requires base + FOOTER <= |file| == at + INDEX_ENTRY * |ix| + FOOTER
    requires Read(file, |file| - FOOTER, 8) == at && Read(file, |file| - FOOTER + 8, 4) == |ix|
    requires Read(file, |file| - FOOTER + 12, 4) == INDEX_MAGIC
    requires IndexAtOffset(file, at, |ix|) == ix
    ensures FooterOf(file, base) == Present(ix, at)
  {
  }

  lemma StoredFooter(file: seq<Byte>, schema: seq<Byte>, ps: seq<PacketData>, ix: seq<IndexEntry>)
    requires Stored(file, schema, ps, ix) && Storable(schema, ps) && |ix| == |ps|
    requires forall i :: 0 <= i < |ix| ==> InRange(ix[i])
    ensures FooterOf(file, FILE_HEADER + |schema|) == Present(ix, FILE_HEADER + |schema| + |Flatten(ps)|)
  {
    var at := FILE_HEADER + |schema| + |Flatten(ps)|;
    FooterReads(file, at, |ix|);
    IndexReadsBack(file, at, IndexBytes(ix), ix, |ix|);
    assert ix[..|ix|] == ix;
    FooterFromParts(file, FILE_HEADER + |schema|, at, ix);
  }

  lemma IndexInRange(ps: seq<PacketData>, base: nat, i: nat)
    requires WellFormed(ps) && i < |ps| && base + |Flatten(ps)| < U64
    ensures InRange(IndexOf(ps, base)[i])
  {
    IndexAt(ps, base, i);
    PacketAt(ps, i);
    MetaBounds(ps[i]);
  }

  /** The reader finds in the footer exactly the index the writer kept, and where the packets end. */
  lemma FooterRoundTrip(file: seq<Byte>, schema: seq<Byte>, ps: seq<PacketData>)
    requires ClosedLog(file, schema, ps) && Storable(schema, ps)
    ensures
      var base := FILE_HEADER + |schema|;
      FooterOf(file, base) == Present(IndexOf(ps, base), base + |Flatten(ps)|)
  {
    var ix := IndexOf(ps, FILE_HEADER + |schema|);
    forall i | 0 <= i < |ix| ensures InRange(ix[i]) { IndexInRange(ps, FILE_HEADER + |schema|, i); }
    StoredFooter(file, schema, ps, ix);
  }

  // -------------------------------------------------------------------- indexed reads equal filtered reads

  lemma {:induction false} TimeFilterAppend(a: seq<Entry>, b: seq<Entry>, lo: Limit, hi: Limit)
    ensures TimeFilter(a + b, lo, hi) == TimeFilter(a, lo, hi) + TimeFilter(b, lo, hi)
  {
    if |b| == 0 {
      assert a + b == a;
    } else {
      TimeFilterAppend(a, b[..|b| - 1], lo, hi);
      assert (a + b)[..|a + b| - 1] == a + b[..|b| - 1];
    }
  }

  /** An entry is kept as often as it occurs if its time lies in the range, ends included, and not at all otherwise. */
  lemma {:induction false} KeptInTime(es: seq<Entry>, lo: Limit, hi: Limit, e: Entry)
    ensures multiset(TimeFilter(es, lo, hi))[e] ==
      if (lo.NoLimit? || lo.t <= e.timestamp) && (hi.NoLimit? || e.timestamp <= hi.t) then multiset(es)[e] else 0
  {
    if |es| > 0 {
      var init, last := es[..|es| - 1], es[|es| - 1];
      assert es == init + [last];
      KeptInTime(init, lo, hi, e);
    }
  }

  lemma {:induction false} NoneInTime(es: seq<Entry>, lo: Limit, hi: Limit)
    requires forall i :: 0 <= i < |es| ==> !InTime(lo, hi, es[i].timestamp)
    ensures TimeFilter(es, lo, hi) == []
  {
    if |es| > 0 { NoneInTime(es[..|es| - 1], lo, hi); }
  }

  /** Every decoded entry carries some row's timestamp. */
  lemma {:induction false} DecodedTimes(p: PacketData, base: nat, rd: Reader, n: nat, lo: nat, hi: nat)
    requires RowAt(n) <= |p| && forall i :: 0 <= i < n ==> lo <= Read(p, RowAt(i) + 8, 8) <= hi
    ensures forall k :: 0 <= k < |DecodeRows(p, base, rd, n)| ==> lo <= DecodeRows(p, base, rd, n)[k].timestamp <= hi
  {
    if n > 0 { DecodedTimes(p, base, rd, n - 1, lo, hi); }
  }

  /** Skipping a packet by its metadata loses nothing. */
  lemma SkippedIsEmpty(p: PacketData, rd: Reader, lo: Limit, hi: Limit)
    requires TableInside(p) && Skipped(MetaOf(p), lo, hi)
    ensures TimeFilter(Yield(PyDecode(p, rd)), lo, hi) == []
  {
    var m := MetaOf(p);
    MetaBounds(p);
    forall i | 0 <= i < Count(p) ensures m.tsMin <= Read(p, RowAt(i) + 8, 8) <= m.tsMax {
      assert m.tsMin <= RowTimestamp(p, i) <= m.tsMax;
    }
    DecodedTimes(p, PayloadBase(p), rd, Count(p), m.tsMin, m.tsMax);
    NoneInTime(Yield(PyDecode(p, rd)), lo, hi);
  }

  /** The packet's times reach into the range. */
  predicate Reaches(m: Meta, lo: Limit, hi: Limit) {
    (lo.NoLimit? || lo.t <= m.tsMax) && (hi.NoLimit? || m.tsMin <= hi.t)
  }

  /** An index entry that names its packet contributes exactly the packet's entries in the range, and raises exactly
      when the packet reaches into the range and does not decode. */
  lemma ContributionIsFiltered(file: seq<Byte>, e: IndexEntry, p: PacketData, lo: Limit, hi: Limit, rd: Reader)
    requires TableInside(p) && e.meta == MetaOf(p) && Fetch(file, e) == p
    ensures Contribution(file, e, lo, hi, rd) == TimeFilter(Yield(PyDecode(p, rd)), lo, hi)
    ensures Blocks(file, e, lo, hi, rd) <==> Reaches(MetaOf(p), lo, hi) && !Decodes(p, rd)
  {
    if Skipped(e.meta, lo, hi) { SkippedIsEmpty(p, rd, lo, hi); }
  }

  /** Index entries of packets in the order of the packets themselves. */
  ghost predicate Names(file: seq<Byte>, ix: seq<IndexEntry>, ps: seq<PacketData>) {
    && |ix| == |ps| && WellFormed(ps)
    && forall i :: 0 <= i < |ix| ==> Fetch(file, ix[i]) == ps[i] && ix[i].meta == MetaOf(ps[i])
  }

  lemma {:induction false} IndexedIsFiltered(file: seq<Byte>, ix: seq<IndexEntry>, ps: seq<PacketData>, lo: Limit,
                                             hi: Limit, rd: Reader)
    requires Names(file, ix, ps)
    ensures Indexed(file, ix, lo, hi, rd) == TimeFilter(DecodeAll(ps, rd), lo, hi)
  {
    var n := |ix|;
    if n > 0 {
      IndexedIsFiltered(file, ix[..n - 1], ps[..n - 1], lo, hi, rd);
      ContributionIsFiltered(file, ix[n - 1], ps[n - 1], lo, hi, rd);
      TimeFilterAppend(DecodeAll(ps[..n - 1], rd), Yield(PyDecode(ps[n - 1], rd)), lo, hi);
    }
  }

  /** The read raises exactly on the entries of packets that reach into the range and do not decode. */
  ghost predicate RaisesWhereDue(file: seq<Byte>, ix: seq<IndexEntry>, ps: seq<PacketData>, lo: Limit, hi: Limit,
                                 rd: Reader)
    requires |ix| == |ps| && WellFormed(ps)
  {
    forall i :: 0 <= i < |ix| ==>
      (Blocks(file, ix[i], lo, hi, rd) <==> Reaches(MetaOf(ps[i]), lo, hi) && !Decodes(ps[i], rd))
  }

  lemma NamedRaises(file: seq<Byte>, ix: seq<IndexEntry>, ps: seq<PacketData>, lo: Limit, hi: Limit, rd: Reader)
    requires Names(file, ix, ps)
    ensures RaisesWhereDue(file, ix, ps, lo, hi, rd)
  {
    forall i | 0 <= i < |ix|
      ensures Blocks(file, ix[i], lo, hi, rd) <==> Reaches(MetaOf(ps[i]), lo, hi) && !Decodes(ps[i], rd)
    {
      ContributionIsFiltered(file, ix[i], ps[i], lo, hi, rd);
    }
  }

  /** A whole packet in the file is what its index entry fetches. */
  lemma FetchWhole(file: seq<Byte>, e: IndexEntry, p: PacketData)
    requires SelfDelimiting(p) && e.offset + |p| <= |file| && file[e.offset..e.offset + |p|] == p && e.meta == MetaOf(p)
    ensures Fetch(file, e) == p
  {
    MetaBounds(p);
    ReadSlice(file, e.offset, e.offset + |p|, 4, 4);
  }

  lemma LaidPacket(file: seq<Byte>, base: nat, end: nat, ps: seq<PacketData>, i: nat)
    requires base <= end <= |file| && file[base..end] == Flatten(ps) && i < |ps|
    ensures var at := base + |Flatten(ps[..i])|; at + |ps[i]| <= end && file[at..at + |ps[i]|] == ps[i]
  {
    PacketAt(ps, i);
    var off := |Flatten(ps[..i])|;
    SliceSlice(file, base, end, off, off + |ps[i]|);
  }

  lemma FetchIndexed(file: seq<Byte>, base: nat, end: nat, ps: seq<PacketData>, e: IndexEntry, i: nat)
    requires base <= end <= |file| && file[base..end] == Flatten(ps) && i < |ps| && SelfDelimiting(ps[i])
    requires e == IndexEntry(base + |Flatten(ps[..i])|, MetaOf(ps[i]))
    ensures Fetch(file, e) == ps[i]
  {
    LaidPacket(file, base, end, ps, i);
    FetchWhole(file, e, ps[i]);
  }

  lemma IndexNamesPackets(file: seq<Byte>, base: nat, end: nat, ps: seq<PacketData>)
    requires base <= end <= |file| && file[base..end] == Flatten(ps) && AllDelimited(ps)
    ensures WellFormed(ps) && Names(file, IndexOf(ps, base), ps)
  {
    assert WellFormed(ps) by { forall i | 0 <= i < |ps| ensures TableInside(ps[i]) { assert SelfDelimiting(ps[i]); } }
    var ix := IndexOf(ps, base);
    forall i | 0 <= i < |ix| ensures Fetch(file, ix[i]) == ps[i] && ix[i].meta == MetaOf(ps[i]) {
      assert SelfDelimiting(ps[i]);
      IndexAt(ps, base, i);
      FetchIndexed(file, base, end, ps, ix[i], i);
    }
  }

  /** Walking over packets laid end to end finds exactly them. */
  lemma {:induction false} WalkFinds(file: seq<Byte>, pos: nat, end: nat, ps: seq<PacketData>)
    requires pos <= end <= |file| && file[pos..end] == Flatten(ps) && AllDelimited(ps)
    ensures Walk(file, pos, end) == ps
    decreases |ps|
  {
    if |ps| > 0 {
      var p, rest := ps[0], Flatten(ps[1..]);
      assert SelfDelimiting(p) && file[pos..end] == p + rest;
      SliceSlice(file, pos, end, 0, |p|);
      SliceSlice(file, pos, end, |p|, end - pos);
      DelimitedAt(file, pos, p);
      WalkFinds(file, pos + |p|, end, ps[1..]);
      assert ps == [p] + ps[1..];
    }
  }

  /** A time-range read through the index contributes exactly the time-filtered sequential read, which is every
      packet's entries in order; it raises only where a packet that reaches into the range does not decode, so not at
      all when the sequential read does not. */
  ghost predicate IndexedReadIsFilteredRead(file: seq<Byte>, base: nat, ps: seq<PacketData>, lo: Limit, hi: Limit,
                                            rd: Reader)
    requires WellFormed(ps)
  {
    var foot := FooterOf(file, base);
    && foot.Present? && |foot.index| == |ps|
    && Walk(file, base, foot.dataEnd) == ps
    && Indexed(file, foot.index, lo, hi, rd) == TimeFilter(DecodeAll(ps, rd), lo, hi)
    && RaisesWhereDue(file, foot.index, ps, lo, hi, rd)
    && (AllDecode(ps, rd) ==> NoneBlocks(file, foot.index, lo, hi, rd))
  }

  /** What reading relies on: the packets end to end, an index naming them, and a footer holding it. */
  ghost predicate Readable(file: seq<Byte>, base: nat, end: nat, ps: seq<PacketData>, ix: seq<IndexEntry>) {
    && base <= end <= |file| && file[base..end] == Flatten(ps) && AllDelimited(ps)
    && Names(file, ix, ps) && FooterOf(file, base) == Present(ix, end)
  }

  lemma ReadableReads(file: seq<Byte>, base: nat, end: nat, ps: seq<PacketData>, ix: seq<IndexEntry>, lo: Limit,
                      hi: Limit, rd: Reader)
    requires Readable(file, base, end, ps, ix)
    ensures IndexedReadIsFilteredRead(file, base, ps, lo, hi, rd)
  {
    WalkFinds(file, base, end, ps);
    IndexedIsFiltered(file, ix, ps, lo, hi, rd);
    NamedRaises(file, ix, ps, lo, hi, rd);
  }

  lemma LogNamesPackets(file: seq<Byte>, schema: seq<Byte>, ps: seq<PacketData>)
    requires ClosedLog(file, schema, ps) && AllDelimited(ps)
    ensures var base := FILE_HEADER + |schema|;
      && base + |Flatten(ps)| <= |file| && file[base..base + |Flatten(ps)|] == Flatten(ps)
      && Names(file, IndexOf(ps, base), ps)
  {
    IndexNamesPackets(file, FILE_HEADER + |schema|, FILE_HEADER + |schema| + |Flatten(ps)|, ps);
  }

  /** Every closed log is so. */
  lemma ClosedLogIsReadable(file: seq<Byte>, schema: seq<Byte>, ps: seq<PacketData>)
    requires ClosedLog(file, schema, ps) && AllDelimited(ps) && Storable(schema, ps)
    ensures var base := FILE_HEADER + |schema|; Readable(file, base, base + |Flatten(ps)|, ps, IndexOf(ps, base))
  {
    FooterRoundTrip(file, schema, ps);
    LogNamesPackets(file, schema, ps);
  }

  lemma SomehowReadable(file: seq<Byte>, schema: seq<Byte>, base: nat, ps: seq<PacketData>)
    requires ClosedLog(file, schema, ps) && AllDelimited(ps) && Storable(schema, ps) && base == FILE_HEADER + |schema|
    ensures exists end, ix :: Readable(file, base, end, ps, ix)
  {
    ClosedLogIsReadable(file, schema, ps);
  }

  /** This holds of every file LogWriter closes; nothing is assumed about the order of packets or timestamps. */
  lemma IndexedEqualsFilteredSequential(file: seq<Byte>, schema: seq<Byte>, ps: seq<PacketData>, lo: Limit, hi: Limit,
                                        rd: Reader)
    requires ClosedLog(file, schema, ps) && AllDelimited(ps) && Storable(schema, ps)
    ensures IndexedReadIsFilteredRead(file, FILE_HEADER + |schema|, ps, lo, hi, rd)
  {
    var base := FILE_HEADER + |schema|;
    SomehowReadable(file, schema, base, ps);
    var end, ix :| Readable(file, base, end, ps, ix);
    ReadableReads(file, base, end, ps, ix, lo, hi, rd);
  }

  /** An indexed time-range read of a closed log yields an entry as often as the packets hold it if `lo` <= its time <=
      `hi`, and not at all otherwise. */
  lemma RangeReadExactly(file: seq<Byte>, schema: seq<Byte>, ps: seq<PacketData>, lo: Limit, hi: Limit, rd: Reader,
                         e: Entry)
    requires ClosedLog(file, schema, ps) && AllDelimited(ps) && Storable(schema, ps)
    ensures FooterOf(file, FILE_HEADER + |schema|).Present?
    ensures multiset(Indexed(file, FooterOf(file, FILE_HEADER + |schema|).index, lo, hi, rd))[e] ==
      if (lo.NoLimit? || lo.t <= e.timestamp) && (hi.NoLimit? || e.timestamp <= hi.t)
      then multiset(DecodeAll(ps, rd))[e] else 0
  {
    IndexedEqualsFilteredSequential(file, schema, ps, lo, hi, rd);
    KeptInTime(DecodeAll(ps, rd), lo, hi, e);
  }
}
