/** Python's stream decoder: bytes arrive in arbitrary chunks, entries come out packet by packet. */
module StreamDecoder {
  import opened Bytes
  import opened DrainCore
  import opened PacketCodec
  import opened PacketIndex
  import opened PyDecoder
  import opened Framing

  function DropsOf(p: PacketData): nat { if |p| < PACKET_HEADER then 0 else Read(p, 8, 4) }

  function DropTotal(ps: seq<PacketData>): nat {
    if |ps| == 0 then 0 else DropTotal(ps[..|ps| - 1]) + DropsOf(ps[|ps| - 1])
  }

  lemma DropSnoc(ps: seq<PacketData>, p: PacketData)
    ensures DropTotal(ps + [p]) == DropTotal(ps) + DropsOf(p)
  {
    assert (ps + [p])[..|ps|] == ps;
  }

  lemma BeforeSnoc(ps: seq<PacketData>, p: PacketData, c: Cut)
    ensures Before(ps, Before([p], c)) == Before(ps + [p], c)
  {
  }

  lemma FedOne(done: seq<PacketData>, pkt: PacketData, rd: Reader)
    requires AllDecode(done, rd) && Decodes(pkt, rd)
    ensures AllDecode(done + [pkt], rd) && DropTotal(done + [pkt]) == DropTotal(done) + DropsOf(pkt)
    ensures DecodeAll(done + [pkt], rd) == DecodeAll(done, rd) + RowsOf(rd)(pkt)
  {
    GatherSnoc(done, pkt, RowsOf(rd));
    DropSnoc(done, pkt);
  }

  class PacketDecoder {
    var buf: seq<Byte>
    var dropped: nat
    const rd: Reader
    const maxPacket: nat

    constructor (rd: Reader, maxPacket: nat)
      ensures buf == [] && dropped == 0 && this.rd == rd && this.maxPacket == maxPacket
    {
      buf, dropped := [], 0;
      this.rd, this.maxPacket := rd, maxPacket;
    }

    /** `feed`.  When a packet's table is cut short the call raises: `bad` is that packet, what follows it
        stays buffered, and the entries before it are lost to the caller. */
    method Feed(data: seq<Byte>) returns (ok: bool, es: seq<Entry>, ghost bad: nat)
      modifies this
      ensures ok ==> var c := CutFrames(old(buf) + data, maxPacket);
        && AllDecode(c.packets, rd) && es == DecodeAll(c.packets, rd)
        && buf == c.rest && dropped == old(dropped) + DropTotal(c.packets)
      ensures !ok ==> var c := CutFrames(old(buf) + data, maxPacket);
        && bad < |c.packets| && AllDecode(c.packets[..bad], rd) && !Decodes(c.packets[bad], rd)
        && dropped == old(dropped) + DropTotal(c.packets[..bad])
        && CutFrames(buf, maxPacket) == Cut(c.packets[bad + 1..], c.rest, c.cleared)
    {
      buf := buf + data;
      ghost var later := CutFrames(buf, maxPacket);
      ghost var c, done: seq<PacketData> := later, [];
      es, bad := [], 0;
      while true
        invariant c == Before(done, later) && later == CutFrames(buf, maxPacket) && AllDecode(done, rd)
        invariant es == DecodeAll(done, rd) && dropped == old(dropped) + DropTotal(done)
        decreases |buf|
      {
        var got, pkt := TakeFrame();
        if !got {
          NothingFollows(c, done, later);
          return true, es, bad;
        }
        later := CutFrames(buf, maxPacket);
        BeforeSnoc(done, pkt, later);
        var parsed, rows, drops := Parse(pkt);
        if !parsed {
          RaisedAt(c, done, pkt, later);
          return false, es, |done|;
        }
        FedOne(done, pkt, rd);
        dropped := dropped + drops;
        es := es + rows;
        done := done + [pkt];
      }
    }

    method Parse(pkt: PacketData) returns (parsed: bool, rows: seq<Entry>, drops: nat)
      ensures parsed == Decodes(pkt, rd) && (parsed ==> rows == RowsOf(rd)(pkt) && drops == DropsOf(pkt))
    {
      var r := DecodePy(pkt, rd);
      if r.Raises? { return false, [], 0; }
      return true, r.entries, r.dropped;
    }

    /** Takes a whole frame off the buffer; an oversized length empties it. */
    method TakeFrame() returns (got: bool, pkt: PacketData)
      modifies this`buf
      ensures got ==> |buf| < |old(buf)| && CutFrames(old(buf), maxPacket) == Before([pkt], CutFrames(buf, maxPacket))
      ensures !got ==> CutFrames(old(buf), maxPacket).packets == [] && CutFrames(old(buf), maxPacket).rest == buf
    {
      got, pkt := false, [];
      if |buf| < 4 { return; }
      var len := Read(buf, 0, 4);
      if len > maxPacket {
        buf := [];
        return;
      }
      if |buf| < 4 + len { return; }
      got, pkt := true, buf[4..4 + len];
      CutStep(buf, pkt, buf[4 + len..], maxPacket);
      buf := buf[4 + len..];
    }

    /** `reset`. */
    method Reset()
      modifies this`buf
      ensures buf == []
    {
      buf := [];
    }
  }

  lemma NothingFollows(c: Cut, done: seq<PacketData>, later: Cut)
    requires c == Before(done, later) && later.packets == []
    ensures c.packets == done && c.rest == later.rest
  {
  }

  lemma RaisedAt(c: Cut, done: seq<PacketData>, pkt: PacketData, later: Cut)
    requires c == Before(done + [pkt], later)
    ensures c.packets[..|done|] == done && c.packets[|done|] == pkt
    ensures later == Cut(c.packets[|done| + 1..], c.rest, c.cleared)
  {
  }

  // ---------------------------------------------------------------------------------- whole streams

  /** Feeding chunk after chunk from an empty buffer. */
  function Fed(chunks: seq<seq<Byte>>, max: nat): Cut {
    if |chunks| == 0 then Cut([], [], false)
    else
      var before := Fed(chunks[..|chunks| - 1], max);
      var c := CutFrames(before.rest + chunks[|chunks| - 1], max);
      Cut(before.packets + c.packets, c.rest, before.cleared || c.cleared)
  }

  lemma {:induction false} ClearedStays(a: seq<Byte>, b: seq<Byte>, max: nat)
    requires CutFrames(a, max).cleared
    ensures CutFrames(a + b, max).cleared
    decreases |a|
  {
    FrontStays(a, b, max);
    if HasFrame(a, max) {
      var n := 4 + LengthOf(a);
      FrontCut(a, b, max);
      CutStep(a, a[4..n], a[n..], max);
      ClearedStays(a[n..], b, max);
      CutStep(a + b, a[4..n], a[n..] + b, max);
    }
  }

  /** Every way of chunking a stream gives what cutting it in one piece gives. */
  lemma {:induction false} ChunkingIsIrrelevant(chunks: seq<seq<Byte>>, max: nat)
    requires !CutFrames(Flatten(chunks), max).cleared
    ensures Fed(chunks, max) == CutFrames(Flatten(chunks), max)
  {
    if |chunks| > 0 {
      var init, last := chunks[..|chunks| - 1], chunks[|chunks| - 1];
      var a := Flatten(init);
      FlattenSnoc(init, last);
      assert init + [last] == chunks;
      if CutFrames(a, max).cleared { ClearedStays(a, last, max); }
      ChunkingIsIrrelevant(init, max);
      CutContinues(a, last, max);
    }
  }

  /** For every list of frames within the size limit and every way of chunking any prefix of their stream,
      the packets fed are the frames wholly inside the prefix, in order, and the buffer is the incomplete tail. */
  lemma StreamDelivered(ps: seq<PacketData>, chunks: seq<seq<Byte>>, n: nat, max: nat)
    requires Sendable(ps, max) && n <= |StreamOf(ps)| && Flatten(chunks) == StreamOf(ps)[..n]
    ensures var k := WholeFrames(ps, n);
      && |StreamOf(ps[..k])| <= n && (k < |ps| ==> |StreamOf(ps[..k + 1])| > n)
      && Fed(chunks, max) == Cut(ps[..k], StreamOf(ps)[..n][|StreamOf(ps[..k])|..], false)
  {
    CutsWholeFrames(ps, StreamOf(ps)[..n], n, max);
    WholeFramesIsMaximal(ps, n);
    ChunkingIsIrrelevant(chunks, max);
  }

  /** What the successive calls return, end to end. */
  function Returned(chunks: seq<seq<Byte>>, max: nat, rd: Reader): seq<Entry> {
    if |chunks| == 0 then []
    else
      var init := chunks[..|chunks| - 1];
      Returned(init, max, rd) + DecodeAll(CutFrames(Fed(init, max).rest + chunks[|chunks| - 1], max).packets, rd)
  }

  lemma {:induction false} ReturnedIsDecoded(chunks: seq<seq<Byte>>, max: nat, rd: Reader)
    ensures Returned(chunks, max, rd) == DecodeAll(Fed(chunks, max).packets, rd)
  {
    if |chunks| > 0 {
      var init := chunks[..|chunks| - 1];
      ReturnedIsDecoded(init, max, rd);
      GatherAppend(Fed(init, max).packets, CutFrames(Fed(init, max).rest + chunks[|chunks| - 1], max).packets,
        RowsOf(rd));
    }
  }

  lemma FedSnoc(chunks: seq<seq<Byte>>, i: nat, max: nat, rd: Reader)
    requires i < |chunks|
    ensures var before, c := Fed(chunks[..i], max), CutFrames(Fed(chunks[..i], max).rest + chunks[i], max);
      && Fed(chunks[..i + 1], max) == Cut(before.packets + c.packets, c.rest, before.cleared || c.cleared)
      && Returned(chunks[..i + 1], max, rd) == Returned(chunks[..i], max, rd) + DecodeAll(c.packets, rd)
  {
    assert chunks[..i + 1][..i] == chunks[..i];
  }

  lemma {:induction false} FedGrows(chunks: seq<seq<Byte>>, i: nat, max: nat)
    requires i <= |chunks|
    ensures Fed(chunks[..i], max).packets <= Fed(chunks, max).packets
    decreases |chunks| - i
  {
    if i == |chunks| {
      assert chunks[..i] == chunks;
    } else {
      FedSnoc(chunks, i, max, Reader(AcceptAll, _ => true));
      FedGrows(chunks, i + 1, max);
    }
  }

  lemma {:induction false} BadIsFed(chunks: seq<seq<Byte>>, i: nat, max: nat, bad: nat, rd: Reader)
    requires i < |chunks|
    requires var c := CutFrames(Fed(chunks[..i], max).rest + chunks[i], max);
      bad < |c.packets| && !Decodes(c.packets[bad], rd)
    ensures !AllDecode(Fed(chunks, max).packets, rd)
  {
    FedSnoc(chunks, i, max, Reader(AcceptAll, _ => true));
    FedGrows(chunks, i + 1, max);
    var before, all := Fed(chunks[..i], max).packets, Fed(chunks, max).packets;
    assert !Decodes(all[|before| + bad], rd);
  }

  /** A new decoder fed chunk after chunk until it raises. */
  method FeedAll(chunks: seq<seq<Byte>>, max: nat, rd: Reader) returns (ok: bool, es: seq<Entry>, rest: seq<Byte>)
    ensures ok <==> AllDecode(Fed(chunks, max).packets, rd)
    ensures ok ==> es == Returned(chunks, max, rd) && rest == Fed(chunks, max).rest
  {
    var d := new PacketDecoder(rd, max);
    es := [];
    var i := 0;
    while i < |chunks|
      invariant 0 <= i <= |chunks| && fresh(d) && d.rd == rd && d.maxPacket == max
      invariant d.buf == Fed(chunks[..i], max).rest && AllDecode(Fed(chunks[..i], max).packets, rd)
      invariant es == Returned(chunks[..i], max, rd)
    {
      var rows;
      ghost var bad;
      ok, rows, bad := d.Feed(chunks[i]);
      if !ok {
        BadIsFed(chunks, i, max, bad, rd);
        return false, [], [];
      }
      FedSnoc(chunks, i, max, rd);
      es := es + rows;
      i := i + 1;
    }
    assert chunks[..|chunks|] == chunks;
    return true, es, d.buf;
  }

  /** So for decodable packets no call raises, and the concatenated results are the decoding of the complete frames,
      in order. */
  lemma ResultsDelivered(ps: seq<PacketData>, chunks: seq<seq<Byte>>, n: nat, max: nat, rd: Reader)
    requires AllDecode(ps, rd) && Sendable(ps, max) && n <= |StreamOf(ps)| && Flatten(chunks) == StreamOf(ps)[..n]
    ensures AllDecode(Fed(chunks, max).packets, rd)
    ensures Returned(chunks, max, rd) == DecodeAll(ps[..WholeFrames(ps, n)], rd)
  {
    StreamDelivered(ps, chunks, n, max);
    ReturnedIsDecoded(chunks, max, rd);
  }
}
