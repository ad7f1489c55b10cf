/**
  Opening a log that lost its end.  Without a footer the index is rebuilt by scanning to the end of the file.
  A cut inside the packets is harmless.  A cut inside the index or footer that `close` was writing leaves index
  bytes behind the packets, and the scan takes them for one more packet as soon as enough of them are there.
*/
module CrashRecovery {
  import opened Bytes
  import opened Bits
  import opened DrainCore
  import opened PacketCodec
  import opened PacketIndex
  import opened BtlmFile
  import opened LogFile
  import opened LogReader

  // ------------------------------------------------------------------------------- digits of an integer

  lemma DivChain(n: nat, a: nat, d: nat)
    requires a > 0 && d > 0
    ensures n / (a * d) == (n / a) / d
  {
    DivNonNegative(n, a);
    var h, l := n / a, n % a;
    DivNonNegative(h, d);
    var q, r := h / d, h % d;
    Recompose(n, a, d, h, l, q, r);
    Gap(a, r, d);
    RemainderUnique(a * d, n, q, l + a * r);
  }

  lemma {:induction false} LESplit(n: nat, a: nat, b: nat)
    ensures n / Pow256(a) >= 0
    ensures LE(n, a + b) == LE(n, a) + LE(n / Pow256(a), b)
  {
    DivNonNegative(n, Pow256(a));
    if a > 0 {
      LESplit(n / 256, a - 1, b);
      DivChain(n, 256, Pow256(a - 1));
      assert LE(n, a + b) == Digits(n, a + b) == LowDigit(n, a + b) == [n % 256] + LE(n / 256, a + b - 1);
      assert LE(n, a) == Digits(n, a) == LowDigit(n, a) == [n % 256] + LE(n / 256, a - 1);
    } else {
      assert LE(n, 0) == Digits(n, 0) == [];
    }
  }

  lemma {:induction false} UnLEMod(n: nat, w: nat)
    ensures UnLE(LE(n, w)) == n % Pow256(w)
  {
    assert LE(n, w) == Digits(n, w);
    if w > 0 {
      assert Digits(n, w) == LowDigit(n, w) == [n % 256] + LE(n / 256, w - 1);
      UnLEMod(n / 256, w - 1);
      SplitNumber(n, 256, Pow256(w - 1));
    }
  }

  /** The low `a` and the high `b` bytes of an integer of `a + b` bytes. */
  lemma Halves(s: seq<Byte>, n: nat, a: nat, b: nat)
    requires s == LE(n, a + b)
    ensures UnLE(s[..a]) == n % Pow256(a) && n / Pow256(a) >= 0 && UnLE(s[a..]) == n / Pow256(a) % Pow256(b)
  {
    LESplit(n, a, b);
    assert s[..a] == LE(n, a) && s[a..] == LE(n / Pow256(a), b);
    UnLEMod(n, a);
    UnLEMod(n / Pow256(a), b);
  }

  lemma ReadLow(buf: seq<Byte>, at: nat, n: nat)
    requires at + 8 <= |buf| && buf[at..at + 8] == LE(n, 8)
    ensures Read(buf, at, 2) == n % U16
  {
    PowValues();
    var s := buf[at..at + 8];
    Halves(s, n, 2, 6);
    SliceSlice(buf, at, at + 8, 0, 2);
    assert s[..2] == s[0..2];
  }

  lemma ReadHigh(buf: seq<Byte>, at: nat, n: nat)
    requires at + 8 <= |buf| && buf[at..at + 8] == LE(n, 8) && n < U64
    ensures Read(buf, at + 4, 4) == n / U32
  {
    PowValues();
    var s := buf[at..at + 8];
    Halves(s, n, 4, 4);
    SliceSlice(buf, at, at + 8, 4, 8);
    assert s[4..] == s[4..8];
  }

  // ------------------------------------------------------------------------------------- the phantom packet

  /** The size a packet header would announce that is really the start of an index of packets from `base` on. */
  function PhantomSize(base: nat): (n: nat)
    ensures n >= PACKET_HEADER
  {
    PACKET_HEADER + ENTRY_HEADER * (base % U16) + base / U32
  }

  lemma IndexReadsAsHeader(map_: seq<Byte>, at: nat, base: nat)
    requires at + PACKET_HEADER <= |map_| && map_[at..at + 8] == LE(base, 8) && base < U64
    ensures SizeAt(map_, at) == PhantomSize(base)
  {
    ReadLow(map_, at, base);
    ReadHigh(map_, at, base);
  }

  lemma EntryStartsWithOffset(file: seq<Byte>, at: nat, section: seq<Byte>, e: IndexEntry)
    requires INDEX_ENTRY <= |section| && at + |section| <= |file| && file[at..at + |section|] == section
    requires section[0..INDEX_ENTRY] == IndexEntryBytes(e)
    ensures file[at..at + 8] == LE(e.offset, 8)
  {
    var b := IndexEntryBytes(e);
    FourParts(LE(e.offset, 8), LE(e.meta.tsMin, 8), LE(e.meta.tsMax, 8), LE(e.meta.count, 4));
    assert section[0..8] == b[..8];
    Nested(file, at, |section|, section, 0, 8, LE(e.offset, 8));
  }

  /** The first index entry starts with the offset of the first packet. */
  lemma IndexStartsWithBase(file: seq<Byte>, at: nat, ix: seq<IndexEntry>, section: seq<Byte>)
    requires |ix| > 0 && section == IndexBytes(ix) && at + |section| <= |file| && file[at..at + |section|] == section
    ensures file[at..at + 8] == LE(ix[0].offset, 8)
  {
    IndexEntryAt(ix, 0);
    EntryStartsWithOffset(file, at, section, ix[0]);
  }

  /** Behind the packets of a cut file lies a phantom exactly when enough of a non-empty index is left. */
  lemma PhantomIff(file: seq<Byte>, at: nat, base: nat, ix: seq<IndexEntry>, cut: nat)
    requires |file| == at + INDEX_ENTRY * |ix| + FOOTER && at <= cut < |file| && base < U64
    requires file[at..at + INDEX_ENTRY * |ix|] == IndexBytes(ix) && (|ix| > 0 ==> ix[0].offset == base)
    ensures WholeAt(file[..cut], at) <==> |ix| > 0 && cut >= at + PhantomSize(base)
  {
    var map_ := file[..cut];
    if |ix| > 0 && cut >= at + PACKET_HEADER {
      IndexStartsWithBase(file, at, ix, IndexBytes(ix));
      assert map_ == file[0..cut];
      SliceSlice(file, 0, cut, at, at + 8);
      IndexReadsAsHeader(map_, at, base);
    }
  }

  // ------------------------------------------------------------------------------------- the scan of a cut file

  /** Packets lying wholly in the bytes are found, and the scan goes on behind them. */
  lemma {:induction false} ScanThrough(map_: seq<Byte>, pos: nat, end: nat, ps: seq<PacketData>, data: seq<Byte>,
                                       beyond: seq<IndexEntry>)
    returns (ix: seq<IndexEntry>)
    requires AllDelimited(ps) && WellFormed(ps) && data == Flatten(ps) && end == pos + |data| <= |map_|
    requires map_[pos..end] == data && beyond == ScanFrom(map_, end)
    ensures HeadIndex(ps, pos, |ps|) == ix && ScanFrom(map_, pos) == ix + beyond
    decreases |ps|
  {
    if |ps| == 0 {
      ix := NothingThrough(map_, pos, ps, beyond);
      return;
    }
    var p, tail := ps[0], Flatten(ps[1..]);
    assert SelfDelimiting(p);
    FirstAndRest(map_, pos, end, data, p, tail);
    var later := ScanThrough(map_, pos + |p|, end, ps[1..], tail, beyond);
    ix := ConsThrough(map_, pos, ps, later, beyond);
  }

  lemma NothingThrough(map_: seq<Byte>, pos: nat, ps: seq<PacketData>, beyond: seq<IndexEntry>)
    returns (ix: seq<IndexEntry>)
    requires ps == [] && beyond == ScanFrom(map_, pos)
    ensures HeadIndex(ps, pos, 0) == ix && ScanFrom(map_, pos) == ix + beyond
  {
    ix := [];
    assert [] + beyond == beyond;
  }

  lemma FirstAndRest(map_: seq<Byte>, pos: nat, end: nat, data: seq<Byte>, p: PacketData, tail: seq<Byte>)
    requires data == p + tail && end == pos + |data| <= |map_| && map_[pos..end] == data
    ensures map_[pos..pos + |p|] == p && map_[pos + |p|..end] == tail
  {
    Nested(map_, pos, |data|, data, 0, |p|, p);
    Nested(map_, pos, |data|, data, |p|, |tail|, tail);
  }

  lemma ConsThrough(map_: seq<Byte>, pos: nat, ps: seq<PacketData>, later: seq<IndexEntry>, beyond: seq<IndexEntry>)
    returns (ix: seq<IndexEntry>)
    requires WellFormed(ps) && |ps| > 0 && SelfDelimiting(ps[0]) && pos + |ps[0]| <= |map_|
    requires map_[pos..pos + |ps[0]|] == ps[0]
    requires HeadIndex(ps[1..], pos + |ps[0]|, |ps| - 1) == later && ScanFrom(map_, pos + |ps[0]|) == later + beyond
    ensures HeadIndex(ps, pos, |ps|) == ix && ScanFrom(map_, pos) == ix + beyond
  {
    var e := IndexEntry(pos, MetaOf(ps[0]));
    ix := [e] + later;
    HeadCons(ps, pos, e, later);
    ScanCons(map_, pos, ps[0], e, later, beyond);
  }

  lemma HeadCons(ps: seq<PacketData>, pos: nat, e: IndexEntry, later: seq<IndexEntry>)
    requires WellFormed(ps) && |ps| > 0 && e == IndexEntry(pos, MetaOf(ps[0]))
    requires HeadIndex(ps[1..], pos + |ps[0]|, |ps| - 1) == later
    ensures HeadIndex(ps, pos, |ps|) == [e] + later
  {
  }

  lemma ScanCons(map_: seq<Byte>, pos: nat, p: PacketData, e: IndexEntry, later: seq<IndexEntry>,
                 beyond: seq<IndexEntry>)
    requires SelfDelimiting(p) && pos + |p| <= |map_| && map_[pos..pos + |p|] == p && e == IndexEntry(pos, MetaOf(p))
    requires ScanFrom(map_, pos + |p|) == later + beyond
    ensures ScanFrom(map_, pos) == ([e] + later) + beyond
  {
    ScanStep(map_, pos, p);
    assert [e] + (later + beyond) == ([e] + later) + beyond;
  }

  lemma {:induction false} AllWhole(ps: seq<PacketData>, budget: nat)
    requires |Flatten(ps)| <= budget
    ensures WholePackets(ps, budget) == |ps|
    decreases |ps|
  {
    if |ps| > 0 { AllWhole(ps[1..], budget - |ps[0]|); }
  }

  /** The scan of a file cut behind its packets: the writer's index, then whatever lies behind. */
  lemma ScanPastData(map_: seq<Byte>, base: nat, ps: seq<PacketData>)
    requires AllDelimited(ps) && WellFormed(ps) && base + |Flatten(ps)| <= |map_|
    requires map_[base..base + |Flatten(ps)|] == Flatten(ps)
    ensures ScanFrom(map_, base) == IndexOf(ps, base) + ScanFrom(map_, base + |Flatten(ps)|)
  {
    var end := base + |Flatten(ps)|;
    var ix := ScanThrough(map_, base, end, ps, Flatten(ps), ScanFrom(map_, end));
    HeadIndexIs(ps, base, |ps|, ix);
    assert IndexOf(ps, base)[..|ps|] == IndexOf(ps, base);
  }

  /** The part of a closed log behind its schema: packets, index, footer. */
  ghost predicate Tail(file: seq<Byte>, base: nat, end: nat, ps: seq<PacketData>, ix: seq<IndexEntry>) {
    && WellFormed(ps) && AllDelimited(ps) && base < U64 && ix == IndexOf(ps, base)
    && end == base + |Flatten(ps)| && |file| == end + INDEX_ENTRY * |ix| + FOOTER
    && file[base..end] == Flatten(ps) && file[end..end + INDEX_ENTRY * |ix|] == IndexBytes(ix)
  }

  lemma PrefixOfData(file: seq<Byte>, base: nat, end: nat, cut: nat, data: seq<Byte>)
    requires base <= cut <= end <= |file| && file[base..end] == data
    ensures file[..cut][base..] == data[..cut - base]
  {
    assert data[..cut - base] == file[base..end][..cut - base] == file[base..cut];
  }

  lemma CutBeforeDataEnd(file: seq<Byte>, base: nat, end: nat, ps: seq<PacketData>, ix: seq<IndexEntry>, cut: nat)
    requires Tail(file, base, end, ps, ix) && base <= cut <= end
    ensures ScanFrom(file[..cut], base) == ix[..WholePackets(ps, cut - base)]
  {
    PrefixOfData(file, base, end, cut, Flatten(ps));
    CutInsideData(file[..cut], base, ps);
  }

  lemma FirstOffset(ps: seq<PacketData>, base: nat)
    requires WellFormed(ps) && |ps| > 0
    ensures IndexOf(ps, base)[0].offset == base
  {
    IndexAt(ps, base, 0);
    assert ps[..0] == [];
  }

  lemma PhantomBehindData(file: seq<Byte>, base: nat, end: nat, ps: seq<PacketData>, ix: seq<IndexEntry>, cut: nat)
    requires Tail(file, base, end, ps, ix) && end <= cut < |file|
    ensures ScanFrom(file[..cut], end) == [] <==> |ps| == 0 || cut < end + PhantomSize(base)
  {
    if |ps| > 0 { FirstOffset(ps, base); }
    PhantomIff(file, end, base, ix, cut);
    ScanEmptyIff(file[..cut], end);
  }

  lemma CutAfterDataEnd(file: seq<Byte>, base: nat, end: nat, ps: seq<PacketData>, ix: seq<IndexEntry>, cut: nat)
    requires Tail(file, base, end, ps, ix) && end <= cut <= |file|
    ensures ScanFrom(file[..cut], base) == ix + ScanFrom(file[..cut], end)
  {
    assert file[..cut][base..end] == file[base..end];
    ScanPastData(file[..cut], base, ps);
  }

  lemma ScanEmptyIff(map_: seq<Byte>, pos: nat)
    ensures ScanFrom(map_, pos) == [] <==> !WholeAt(map_, pos)
  {
  }

  /** The scan begins with the first `k` index entries, and is no more than these exactly when `clean`. */
  ghost predicate StartsWith(scan: seq<IndexEntry>, ix: seq<IndexEntry>, k: nat, clean: bool)
    requires k <= |ix|
  {
    ix[..k] <= scan && (scan == ix[..k] <==> clean)
  }

  lemma WholeIndexFirst(scan: seq<IndexEntry>, ix: seq<IndexEntry>, beyond: seq<IndexEntry>, clean: bool)
    requires scan == ix + beyond && (beyond == [] <==> clean)
    ensures StartsWith(scan, ix, |ix|, clean)
  {
    assert ix[..|ix|] == ix;
    if scan == ix { assert |beyond| == 0; }
  }

  /** What a scan of the first `cut` bytes finds: the writer's entries of the packets wholly inside come first, and
      they are all there is if and only if the file held no packet or the cut leaves less of the index than the
      phantom packet its first bytes announce. */
  ghost predicate ScanOfCut(file: seq<Byte>, base: nat, ps: seq<PacketData>, cut: nat)
    requires WellFormed(ps) && base <= cut <= |file|
  {
    Verdict(base, ps, cut, WholePackets(ps, cut - base), ScanFrom(file[..cut], base))
  }

  ghost predicate Verdict(base: nat, ps: seq<PacketData>, cut: nat, k: nat, scan: seq<IndexEntry>)
    requires WellFormed(ps) && base <= cut && k <= |ps|
  {
    && StartsWith(scan, IndexOf(ps, base), k, |ps| == 0 || cut < base + |Flatten(ps)| + PhantomSize(base))
    && base + |Flatten(ps[..k])| <= cut && (k < |ps| ==> cut < base + |Flatten(ps[..k + 1])|)
  }

  lemma ScanInside(file: seq<Byte>, base: nat, end: nat, ps: seq<PacketData>, ix: seq<IndexEntry>, cut: nat)
    requires Tail(file, base, end, ps, ix) && base <= cut < end
    ensures ScanOfCut(file, base, ps, cut)
  {
    WholePacketsIsMaximal(ps, cut - base);
    CutBeforeDataEnd(file, base, end, ps, ix, cut);
  }

  lemma ScanBeyond(file: seq<Byte>, base: nat, end: nat, ps: seq<PacketData>, ix: seq<IndexEntry>, cut: nat)
    requires Tail(file, base, end, ps, ix) && end <= cut < |file|
    ensures ScanOfCut(file, base, ps, cut)
  {
    CutAfterDataEnd(file, base, end, ps, ix, cut);
    PhantomBehindData(file, base, end, ps, ix, cut);
    BeyondVerdict(base, ps, ix, cut, ScanFrom(file[..cut], base), ScanFrom(file[..cut], end));
    AllWhole(ps, cut - base);
  }

  lemma BeyondVerdict(base: nat, ps: seq<PacketData>, ix: seq<IndexEntry>, cut: nat, scan: seq<IndexEntry>,
                      beyond: seq<IndexEntry>)
    requires WellFormed(ps) && ix == IndexOf(ps, base) && base + |Flatten(ps)| <= cut && scan == ix + beyond
    requires beyond == [] <==> |ps| == 0 || cut < base + |Flatten(ps)| + PhantomSize(base)
    ensures Verdict(base, ps, cut, |ps|, scan)
  {
    assert ps[..|ps|] == ps;
    WholeIndexFirst(scan, ix, beyond, |ps| == 0 || cut < base + |Flatten(ps)| + PhantomSize(base));
  }

  lemma TailScan(file: seq<Byte>, base: nat, end: nat, ps: seq<PacketData>, ix: seq<IndexEntry>, cut: nat)
    requires Tail(file, base, end, ps, ix) && base <= cut < |file|
    ensures ScanOfCut(file, base, ps, cut)
  {
    if cut < end { ScanInside(file, base, end, ps, ix, cut); } else { ScanBeyond(file, base, end, ps, ix, cut); }
  }

  lemma StoredTail(file: seq<Byte>, schema: seq<Byte>, base: nat, end: nat, ps: seq<PacketData>, ix: seq<IndexEntry>)
    requires Stored(file, schema, ps, ix) && |schema| < U32 && base == FILE_HEADER + |schema|
    requires end == base + |Flatten(ps)|
    requires WellFormed(ps) && AllDelimited(ps) && ix == IndexOf(ps, base)
    ensures Tail(file, base, end, ps, ix)
  {
  }

  lemma SomeTail(file: seq<Byte>, schema: seq<Byte>, base: nat, ps: seq<PacketData>)
    requires ClosedLog(file, schema, ps) && AllDelimited(ps) && |schema| < U32 && base == FILE_HEADER + |schema|
    ensures exists end, ix :: Tail(file, base, end, ps, ix)
  {
    StoredTail(file, schema, base, base + |Flatten(ps)|, ps, IndexOf(ps, base));
  }

  /** A log cut anywhere after its schema: inside its packets, or inside the index and footer that `close` writes. */
  lemma TruncatedScanMatchesWriter(file: seq<Byte>, schema: seq<Byte>, ps: seq<PacketData>, cut: nat)
    requires ClosedLog(file, schema, ps) && AllDelimited(ps) && |schema| < U32 && FILE_HEADER + |schema| <= cut < |file|
    ensures ScanOfCut(file, FILE_HEADER + |schema|, ps, cut)
  {
    var base := FILE_HEADER + |schema|;
    SomeTail(file, schema, base, ps);
    var end, ix :| Tail(file, base, end, ps, ix);
    TailScan(file, base, end, ps, ix, cut);
  }

  // ------------------------------------------------------------------------------------------ a witness

  lemma {:induction false} ZeroValue(s: seq<Byte>)
    requires forall i :: 0 <= i < |s| ==> s[i] == 0
    ensures UnLE(s) == 0
  {
    if |s| > 0 { ZeroValue(s[1..]); }
  }

  /** Sixteen zero bytes are an empty packet that announces its own length. */
  lemma ZeroPacket()
    ensures SelfDelimiting(Zeros(PACKET_HEADER))
  {
    var p := Zeros(PACKET_HEADER);
    ZeroValue(p[0..2]);
    ZeroValue(p[4..8]);
  }

  lemma OnePacket(p: PacketData)
    requires SelfDelimiting(p)
    ensures WellFormed([p]) && AllDelimited([p]) && Flatten([p]) == p
  {
    assert Flatten([p]) == p + Flatten([p][1..]);
  }

  /** A closed log for any schema and packets. */
  lemma LogExists(schema: seq<Byte>, ps: seq<PacketData>) returns (file: seq<Byte>)
    requires WellFormed(ps)
    ensures ClosedLog(file, schema, ps)
  {
    var base := FILE_HEADER + |schema|;
    var ix := IndexOf(ps, base);
    file := HeaderAndSchema(schema) + Flatten(ps) + IndexBytes(ix) + FooterBytes(base + |Flatten(ps)|, |ix|);
    FourParts(HeaderAndSchema(schema), Flatten(ps), IndexBytes(ix), FooterBytes(base + |Flatten(ps)|, |ix|));
  }

  /** With a schema of 65526 bytes the packets start at 65536, so the index reads as an empty packet: cut sixteen
      bytes into its index, a log of one sixteen-byte packet (ZeroPacket is one) is indexed as more than one. */
  lemma PhantomWitness(schema: seq<Byte>, p: PacketData) returns (file: seq<Byte>)
    requires |schema| == 65526 && SelfDelimiting(p) && |p| == PACKET_HEADER
    ensures ClosedLog(file, schema, [p]) && AllDelimited([p]) && |file| > 65568
    ensures |ScanFrom(file[..65568], 65536)| > 1
  {
    OnePacket(p);
    file := LogExists(schema, [p]);
    PhantomAt(file, schema, 65536, [p]);
  }

  /** One such file: a schema of zeros and one empty packet. */
  lemma PhantomFile() returns (file: seq<Byte>)
    ensures ClosedLog(file, Zeros(65526), [Zeros(PACKET_HEADER)]) && |file| > 65568
    ensures |ScanFrom(file[..65568], 65536)| > 1
  {
    ZeroPacket();
    file := PhantomWitness(Zeros(65526), Zeros(PACKET_HEADER));
  }

  lemma PhantomAt(file: seq<Byte>, schema: seq<Byte>, base: nat, ps: seq<PacketData>)
    requires ClosedLog(file, schema, ps) && AllDelimited(ps) && |schema| < U32 && base == FILE_HEADER + |schema| == U16
    requires |ps| == 1 && |Flatten(ps)| == PACKET_HEADER
    ensures |file| > base + 2 * PACKET_HEADER && |ScanFrom(file[..base + 2 * PACKET_HEADER], base)| > |ps|
  {
    SomeTail(file, schema, base, ps);
    var end, ix :| Tail(file, base, end, ps, ix);
    MoreThanWritten(file, base, end, ps, ix, base + 2 * PACKET_HEADER);
  }

  lemma MoreThanWritten(file: seq<Byte>, base: nat, end: nat, ps: seq<PacketData>, ix: seq<IndexEntry>, cut: nat)
    requires Tail(file, base, end, ps, ix) && |ps| > 0 && end + PhantomSize(base) <= cut < |file|
    ensures |ScanFrom(file[..cut], base)| > |ps|
  {
    CutAfterDataEnd(file, base, end, ps, ix, cut);
    PhantomBehindData(file, base, end, ps, ix, cut);
  }

  // ------------------------------------------------------------------------------------ opening a capture

  /** Which index an opened file gets: the footer's, or else the scan's. */
  function OpenedIndex(file: seq<Byte>, dataStart: nat): seq<IndexEntry> {
    var foot := FooterOf(file, dataStart);
    if foot.Present? then foot.index else ScanFrom(file, dataStart)
  }

  /** The end of `Capture_init`. */
  method OpenIndex(file: seq<Byte>, dataStart: nat) returns (index: seq<IndexEntry>)
    ensures index == OpenedIndex(file, dataStart)
  {
    var foot := TryLoadIndex(file, dataStart);
    if foot.Present? { return foot.index; }
    var end;
    index, end := BuildIndex(file, dataStart);
  }

  /** Walking over packets laid end to end goes on behind them. */
  lemma {:induction false} WalkThrough(map_: seq<Byte>, pos: nat, end: nat, ps: seq<PacketData>, data: seq<Byte>)
    requires AllDelimited(ps) && data == Flatten(ps) && end == pos + |data| <= |map_| && map_[pos..end] == data
    ensures Walk(map_, pos, |map_|) == ps + Walk(map_, end, |map_|)
    decreases |ps|
  {
    if |ps| > 0 {
      var p, tail := ps[0], Flatten(ps[1..]);
      assert SelfDelimiting(p);
      FirstAndRest(map_, pos, end, data, p, tail);
      WalkThrough(map_, pos + |p|, end, ps[1..], tail);
      WalkCons(map_, pos, p, ps[1..], Walk(map_, end, |map_|));
      assert ps == [p] + ps[1..];
    }
  }

  lemma WalkCons(map_: seq<Byte>, pos: nat, p: PacketData, rest: seq<PacketData>, beyond: seq<PacketData>)
    requires SelfDelimiting(p) && pos + |p| <= |map_| && map_[pos..pos + |p|] == p
    requires Walk(map_, pos + |p|, |map_|) == rest + beyond
    ensures Walk(map_, pos, |map_|) == ([p] + rest) + beyond
  {
    DelimitedAt(map_, pos, p);
    WalkStep(map_, pos, |map_|, p, pos + |p|);
    assert [p] + (rest + beyond) == ([p] + rest) + beyond;
  }

  /** The sequential read meets as many packets as the scan indexes. */
  lemma {:induction false} WalkMeetsScanned(map_: seq<Byte>, pos: nat)
    ensures |Walk(map_, pos, |map_|)| == |ScanFrom(map_, pos)|
    decreases |map_| - pos
  {
    if WholeAt(map_, pos) { WalkMeetsScanned(map_, pos + SizeAt(map_, pos)); }
  }

  lemma HeadOfData(file: seq<Byte>, base: nat, end: nat, cut: nat, a: seq<Byte>, b: seq<Byte>)
    requires end == base + |a + b| <= |file| && file[base..end] == a + b && base + |a| <= cut <= |file|
    ensures file[..cut][base..base + |a|] == a
  {
    assert file[..cut][base..base + |a|] == file[base..end][..|a|];
  }

  lemma WalkStarts(file: seq<Byte>, base: nat, end: nat, ps: seq<PacketData>, ix: seq<IndexEntry>, cut: nat, k: nat)
    requires Tail(file, base, end, ps, ix) && k <= |ps| && base + |Flatten(ps[..k])| <= cut <= |file|
    ensures ps[..k] <= Walk(file[..cut], base, cut)
  {
    FlattenSplit(ps, k);
    var data := Flatten(ps[..k]);
    HeadOfData(file, base, end, cut, data, Flatten(ps[k..]));
    WalkThrough(file[..cut], base, base + |data|, ps[..k], data);
  }

  /** What opening a cut log without a footer gives: an index with the same verdict as the scan's, and a sequential
      read that meets the packets wholly inside first, and no others exactly when there is no phantom. */
  ghost predicate OpensAsCut(file: seq<Byte>, base: nat, ps: seq<PacketData>, cut: nat)
    requires WellFormed(ps) && base <= cut <= |file|
  {
    var k, walk := WholePackets(ps, cut - base), Walk(file[..cut], base, cut);
    && Verdict(base, ps, cut, k, OpenedIndex(file[..cut], base))
    && ps[..k] <= walk && (walk == ps[..k] <==> |ps| == 0 || cut < base + |Flatten(ps)| + PhantomSize(base))
  }

  lemma SameVerdict(walk: seq<PacketData>, head: seq<PacketData>, base: nat, ps: seq<PacketData>, cut: nat, k: nat,
                    scan: seq<IndexEntry>)
    requires WellFormed(ps) && base <= cut && k <= |ps| && Verdict(base, ps, cut, k, scan)
    requires |walk| == |scan| && |head| == k && head <= walk
    ensures walk == head <==> |ps| == 0 || cut < base + |Flatten(ps)| + PhantomSize(base)
  {
    var first := IndexOf(ps, base)[..k];
    assert |scan| == k <==> scan == first;
  }

  lemma TailOpens(file: seq<Byte>, base: nat, end: nat, ps: seq<PacketData>, ix: seq<IndexEntry>, cut: nat)
    requires Tail(file, base, end, ps, ix) && base <= cut < |file| && FooterOf(file[..cut], base).Absent?
    ensures OpensAsCut(file, base, ps, cut)
  {
    var k, walk := WholePackets(ps, cut - base), Walk(file[..cut], base, cut);
    TailScan(file, base, end, ps, ix, cut);
    WalkMeetsScanned(file[..cut], base);
    WalkStarts(file, base, end, ps, ix, cut, k);
    SameVerdict(walk, ps[..k], base, ps, cut, k, ScanFrom(file[..cut], base));
  }

  /** Any log cut after its schema, unless its last sixteen bytes happen to form a footer. */
  lemma CutLogOpens(file: seq<Byte>, schema: seq<Byte>, ps: seq<PacketData>, cut: nat)
    requires ClosedLog(file, schema, ps) && AllDelimited(ps) && |schema| < U32 && FILE_HEADER + |schema| <= cut < |file|
    requires FooterOf(file[..cut], FILE_HEADER + |schema|).Absent?
    ensures OpensAsCut(file, FILE_HEADER + |schema|, ps, cut)
  {
    var base := FILE_HEADER + |schema|;
    SomeTail(file, schema, base, ps);
    var end, ix :| Tail(file, base, end, ps, ix);
    TailOpens(file, base, end, ps, ix, cut);
  }

  // -------------------------------------------------------------------------------- a footer in a payload

  lemma EndsInFooter(map_: seq<Byte>, base: nat, at: nat)
    requires base <= at < U64 && |map_| == at + FOOTER && map_[at..] == FooterBytes(at, 0)
    ensures OpenedIndex(map_, base) == []
  {
    FooterReads(map_, at, 0);
    FooterFromParts(map_, base, at, []);
  }

  /** A packet of one entry whose payload is a footer for an empty index that ends where the packet ends. */
  lemma FooterPacket(e: Entry, at: nat) returns (p: PacketData)
    requires ValidEntry(e) && e.payload == FooterBytes(at, 0)
    ensures SelfDelimiting(p) && |p| == 48 && p[32..] == FooterBytes(at, 0)
  {
    p := PacketBytes([e], 0);
    assert PayloadBytes([e]) == PayloadBytes([e][..0]) + e.payload == e.payload;
    EncodedParts([e], 0);
    HeaderFields(p, 1, |e.payload|, 0);
  }

  /** Such a packet, written and then cut off from the index that was to follow, takes the file's packets from view:
      the log opens with an empty index. */
  lemma FooterInPayload(schema: seq<Byte>, e: Entry) returns (file: seq<Byte>, p: PacketData)
    requires |schema| < U32 && ValidEntry(e) && e.payload == FooterBytes(FILE_HEADER + |schema| + 32, 0)
    ensures ClosedLog(file, schema, [p]) && SelfDelimiting(p) && FILE_HEADER + |schema| + |p| <= |file|
    ensures OpenedIndex(file[..FILE_HEADER + |schema| + |p|], FILE_HEADER + |schema|) == []
  {
    var base := FILE_HEADER + |schema|;
    p := FooterPacket(e, base + 32);
    OnePacket(p);
    file := LogExists(schema, [p]);
    SomeTail(file, schema, base, [p]);
    var end, ix :| Tail(file, base, end, [p], ix);
    LastBytes(file, base, p);
    EndsInFooter(file[..base + |p|], base, base + 32);
  }

  lemma LastBytes(file: seq<Byte>, base: nat, p: PacketData)
    requires 32 <= |p| && base + |p| <= |file| && file[base..base + |p|] == p
    ensures file[..base + |p|][base + 32..] == p[32..]
  {
    assert file[..base + |p|][base + 32..] == file[base..base + |p|][32..];
  }

  /** An intact log opens with the writer's index. */
  lemma IntactLogOpens(file: seq<Byte>, schema: seq<Byte>, ps: seq<PacketData>)
    requires ClosedLog(file, schema, ps) && Storable(schema, ps)
    ensures OpenedIndex(file, FILE_HEADER + |schema|) == IndexOf(ps, FILE_HEADER + |schema|)
  {
    FooterRoundTrip(file, schema, ps);
  }
}
