/** Bulk ingest of framed packets into the live capture, optionally only the newest ones. */
module StreamIngest {
  import opened Bytes
  import opened PacketIndex
  import opened PacketCodec
  import opened DrainCore
  import opened Framing
  import LiveCapture

  /** There is no size limit here: every 32-bit length is taken. */
  function Cuts(data: seq<Byte>): Cut { CutFrames(data, U32) }

  function Consumed(data: seq<Byte>): nat { |data| - |Cuts(data).rest| }

  lemma FrameAt(data: seq<Byte>, pos: nat)
    requires pos <= |data|
    ensures !Oversized(data[pos..], U32)
    ensures pos + 4 <= |data| ==> LengthOf(data[pos..]) == Read(data, pos, 4)
    ensures HasFrame(data[pos..], U32) <==> pos + 4 <= |data| && pos + 4 + Read(data, pos, 4) <= |data|
  {
    if pos + 4 <= |data| {
      ReadSlice(data, pos, |data|, 0, 4);
      assert data[pos..|data|] == data[pos..];
    }
  }

  /** Having cut `done` off the front up to `pos`. */
  ghost predicate CutTo(data: seq<Byte>, pos: nat, done: seq<PacketData>, later: Cut) {
    pos <= |data| && later == Cuts(data[pos..]) && Cuts(data) == Before(done, later)
  }

  lemma CutStart(data: seq<Byte>)
    ensures CutTo(data, 0, [], Cuts(data))
  {
    assert data[0..] == data;
  }

  lemma CutNext(data: seq<Byte>, pos: nat, done: seq<PacketData>, later: Cut, pkt: PacketData, next: nat)
    requires CutTo(data, pos, done, later) && pos + 4 <= |data| && next == pos + 4 + Read(data, pos, 4) <= |data|
    requires pkt == data[pos + 4..next]
    ensures CutTo(data, next, done + [pkt], Cuts(data[next..])) && later.packets == [pkt] + Cuts(data[next..]).packets
  {
    FrameAt(data, pos);
    var rest := data[pos..];
    var n := 4 + LengthOf(rest);
    assert rest[4..n] == pkt && rest[n..] == data[next..];
    CutStep(rest, pkt, data[next..], U32);
    var tail := Cuts(data[next..]);
    assert done + ([pkt] + tail.packets) == (done + [pkt]) + tail.packets;
  }

  /** First pass: how many whole packets there are, and where they end. */
  method CountFrames(data: seq<Byte>) returns (n: nat, consumed: nat)
    ensures n == |Cuts(data).packets| && consumed == Consumed(data) && !Cuts(data).cleared
  {
    var pos := 0;
    ghost var done: seq<PacketData>, later := [], Cuts(data);
    CutStart(data);
    n := 0;
    while pos + 4 <= |data|
      invariant CutTo(data, pos, done, later) && n == |done|
      decreases |data| - pos
    {
      var len := Read(data, pos, 4);
      if pos + 4 + len > |data| { break; }
      CutNext(data, pos, done, later, data[pos + 4..pos + 4 + len], pos + 4 + len);
      done, later := done + [data[pos + 4..pos + 4 + len]], Cuts(data[pos + 4 + len..]);
      n := n + 1;
      pos := pos + 4 + len;
    }
    FrameAt(data, pos);
    consumed := pos;
  }

  /** Inside the consumed part there is always a next frame, and outside there is none. */
  lemma MoreIffConsumed(data: seq<Byte>, pos: nat, done: seq<PacketData>, later: Cut)
    requires CutTo(data, pos, done, later)
    ensures pos + 4 <= Consumed(data) <==> |later.packets| > 0
    ensures |later.packets| > 0 ==> pos + 4 <= |data| && pos + 4 + Read(data, pos, 4) <= |data|
    ensures |later.packets| > 0 <==> HasFrame(data[pos..], U32)
  {
    FrameAt(data, pos);
    if HasFrame(data[pos..], U32) {
      var n := 4 + LengthOf(data[pos..]);
      CutStep(data[pos..], data[pos..][4..n], data[pos..][n..], U32);
    }
  }

  /** How many of the oldest packets to pass over. */
  function Skipped(n: nat, maxPending: nat): (k: nat)
    ensures k <= n && n - k == if maxPending == 0 then n else Min(n, maxPending)
  {
    if maxPending > 0 && n > maxPending then n - maxPending else 0
  }

  /** The C code trusts the entry count of any packet with a header. */
  ghost predicate Trusted(ps: seq<PacketData>) {
    forall i :: 0 <= i < |ps| ==> |ps[i]| >= PACKET_HEADER ==> TableInside(ps[i])
  }

  /** The next packet of the walk. */
  method NextFrame(data: seq<Byte>, pos: nat, ghost done: seq<PacketData>, ghost later: Cut)
    returns (pkt: PacketData, next: nat, ghost after: Cut)
    requires CutTo(data, pos, done, later) && pos + 4 <= Consumed(data)
    ensures CutTo(data, next, done + [pkt], after) && pos < next
  {
    MoreIffConsumed(data, pos, done, later);
    var len := Read(data, pos, 4);
    pkt, next := data[pos + 4..pos + 4 + len], pos + 4 + len;
    CutNext(data, pos, done, later, pkt, next);
    after := Cuts(data[next..]);
  }

  lemma WalkEnds(data: seq<Byte>, pos: nat, done: seq<PacketData>, later: Cut)
    requires CutTo(data, pos, done, later) && pos + 4 > Consumed(data)
    ensures done == Cuts(data).packets
  {
    MoreIffConsumed(data, pos, done, later);
  }

  lemma KeepOne<T>(done: seq<T>, x: T, skip: nat)
    ensures From(done + [x], skip) == if |done| < skip then [] else From(done, skip) + [x]
  {
  }

  /** What is left after passing over the first `skip`. */
  function From<T>(s: seq<T>, skip: nat): seq<T> { if |s| <= skip then [] else s[skip..] }

  /** Second pass: walks again, passing over the first `skip` packets. */
  method FramesFrom(data: seq<Byte>, skip: nat, consumed: nat) returns (pkts: seq<PacketData>)
    requires consumed == Consumed(data)
    ensures pkts == From(Cuts(data).packets, skip)
  {
    var pos: nat, idx: nat := 0, 0;
    ghost var done: seq<PacketData>, later := [], Cuts(data);
    CutStart(data);
    pkts := [];
    while pos + 4 <= consumed
      invariant CutTo(data, pos, done, later) && idx == |done| && pkts == From(done, skip)
      decreases |data| - pos
    {
      var pkt, next;
      ghost var after;
      pkt, next, after := NextFrame(data, pos, done, later);
      KeepOne(done, pkt, skip);
      if idx >= skip { pkts := pkts + [pkt]; }
      done, later := done + [pkt], after;
      pos, idx := next, idx + 1;
    }
    WalkEnds(data, pos, done, later);
  }

  /** Packets are ingested in order until a runt is refused. */
  method IngestAll(lc: LiveCapture.LiveCapture, pkts: seq<PacketData>) returns (ok: bool, ghost stop: nat)
    requires lc.Valid() && Trusted(pkts)
    modifies lc, lc.buf, lc.index
    ensures lc.Valid() && (fresh(lc.buf) || lc.buf == old(lc.buf)) && (fresh(lc.index) || lc.index == old(lc.index))
    ensures stop <= |pkts| && lc.ingested == old(lc.ingested) + pkts[..stop]
    ensures if ok then stop == |pkts| else stop < |pkts| && |pkts[stop]| < PACKET_HEADER
  {
    var i := 0;
    while i < |pkts|
      invariant 0 <= i <= |pkts| && lc.ingested == old(lc.ingested) + pkts[..i]
      invariant lc.Valid() && (fresh(lc.buf) || lc.buf == old(lc.buf)) && (fresh(lc.index) || lc.index == old(lc.index))
    {
      ok := lc.Ingest(pkts[i]);
      if !ok { return false, i; }
      TakeOne(pkts, 0, i);
      i := i + 1;
    }
    return true, i;
  }

  lemma TakeOne<T>(s: seq<T>, from: nat, i: nat)
    requires from <= i < |s|
    ensures s[from..i + 1] == s[from..i] + [s[i]]
  {
  }

  /** `add_stream`: `ok` is false when a runt packet stops it, just before packet `stop`. */
  method AddStream(lc: LiveCapture.LiveCapture, data: seq<Byte>, maxPending: nat)
    returns (ok: bool, consumed: nat, ghost stop: nat)
    requires lc.Valid() && Trusted(Cuts(data).packets)
    modifies lc, lc.buf, lc.index
    ensures lc.Valid() && (fresh(lc.buf) || lc.buf == old(lc.buf)) && (fresh(lc.index) || lc.index == old(lc.index))
    ensures var ps := Cuts(data).packets;
      var skip := Skipped(|ps|, maxPending);
      && skip <= stop <= |ps| && lc.ingested == old(lc.ingested) + ps[skip..stop]
      && (ok ==> stop == |ps| && consumed == Consumed(data))
      && (ok ==> |lc.ingested| == |old(lc.ingested)| + (if maxPending == 0 then |ps| else Min(|ps|, maxPending)))
      && (!ok ==> stop < |ps| && |ps[stop]| < PACKET_HEADER)
  {
    var n;
    n, consumed := CountFrames(data);
    var skip := Skipped(n, maxPending);
    var pkts := FramesFrom(data, skip, consumed);
    ghost var taken;
    ok, taken := IngestAll(lc, pkts);
    stop := skip + taken;
    assert pkts[..taken] == Cuts(data).packets[skip..stop];
  }
}
