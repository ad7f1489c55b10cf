/** The server's connection loop over a backlog: packed drains, and what the receiver decodes of what is sent. */
module BacklogServer {
  import opened Bytes
  import opened Wire
  import opened DrainCore
  import opened PacketCodec
  import opened ClientDrain
  import opened PackedLoss
  import E = EndToEnd
  import R = RingBuffer

  function EntriesOf(p: seq<Byte>): seq<Entry> {
    if Decoded(p).Ok? then Decoded(p).value.entries else []
  }

  function DropsOf(p: seq<Byte>): nat {
    if Decoded(p).Ok? then Decoded(p).value.dropped else 0
  }

  /** What a receiver decodes of the packets sent, in order. */
  function Received(sent: seq<seq<Byte>>): seq<Entry> {
    if |sent| == 0 then [] else Received(sent[..|sent| - 1]) + EntriesOf(sent[|sent| - 1])
  }

  /** The drops it is told of. */
  function Told(sent: seq<seq<Byte>>): nat {
    if |sent| == 0 then 0 else Told(sent[..|sent| - 1]) + DropsOf(sent[|sent| - 1])
  }

  lemma SentOne(sent: seq<seq<Byte>>, p: seq<Byte>)
    ensures Received(sent + [p]) == Received(sent) + EntriesOf(p) && Told(sent + [p]) == Told(sent) + DropsOf(p)
  {
    assert (sent + [p])[..|sent|] == sent;
  }

  lemma {:induction false} ServeSnoc(f: Filter, c: Served, view: nat -> Obs, head: nat, cap: nat, bufSize: nat,
                                     calls: nat)
    ensures Serve(f, c, view, head, cap, bufSize, calls + 1) ==
            PackedCall(f, Serve(f, c, view, head, cap, bufSize, calls), view, head, cap, bufSize)
    decreases calls
  {
    if calls > 0 { ServeSnoc(f, PackedCall(f, c, view, head, cap, bufSize), view, head, cap, bufSize, calls - 1); }
  }

  lemma EntriesAppend(a: seq<Delivery>, b: seq<Delivery>)
    ensures Entries(a + b) == Entries(a) + Entries(b)
  {
  }

  /** The packet of a call carries exactly what the call delivered. */
  lemma CallSends(f: Filter, c: Served, reported: nat, view: nat -> Obs, head: nat, cap: nat, bufSize: nat, last: Call)
    requires reported <= c.dropped && BeginPacked(c.cursor, c.dropped, head, cap, bufSize).Enter?
    requires ValidView(view, SkipCursor(c.cursor, head, cap), head)
    requires var begun := BeginPacked(c.cursor, c.dropped, head, cap, bufSize);
      last == Loop(f, begun.mode, begun.call, view, head)
    ensures reported <= last.dropped
    ensures var p := PacketBytes(Entries(last.out), Report(last.dropped, reported));
      EntriesOf(p) == Entries(last.out) && DropsOf(p) == Report(last.dropped, reported)
  {
    E.PackedCallDecodes(f, c.cursor, c.dropped, reported, head, cap, bufSize, view);
  }

  lemma CallMoves(f: Filter, c: Served, view: nat -> Obs, head: nat, cap: nat, bufSize: nat)
    requires ValidView(view, SkipCursor(c.cursor, head, cap), head)
    ensures SkipCursor(c.cursor, head, cap) <= PackedCall(f, c, view, head, cap, bufSize).cursor
    ensures StartCall(c.cursor, c.dropped, head, cap).dropped <= PackedCall(f, c, view, head, cap, bufSize).dropped
  {
    var begun := BeginPacked(c.cursor, c.dropped, head, cap, bufSize);
    if begun.Enter? { LoopKeepsCallInv(f, begun.mode, begun.call, begun.call, view, head); }
  }

  /** Of `dropped`, as much is reported as the receiver can be told. */
  ghost predicate UpToDate(dropped: nat, before: nat, reported: nat) {
    dropped - before < 0x1_0000_0000 ==> reported == dropped
  }

  /** The connection loop, `calls` times round, for whatever the ring shows.  Once a packet was sent, the receiver has
      been told of the `known` drops counted when the last one was, as far as 32 bits reach. */
  method ServeClient(c: Client, head: nat, cap: nat, view: nat -> Obs, buf: array<Byte>, calls: nat)
    returns (sent: seq<seq<Byte>>, ghost all: Served, ghost known: nat)
    requires c.Valid() && c.active && ValidView(view, SkipCursor(c.cursor, head, cap), head)
    modifies c, buf
    ensures c.Valid() && c.active && c.filter == old(c.filter)
    ensures all == Serve(c.filter, Served(old(c.cursor), old(c.dropped), [], 0), view, head, cap, buf.Length, calls)
    ensures c.cursor == all.cursor && c.dropped == all.dropped
    ensures Received(sent) == Entries(all.out) && c.reported == old(c.reported) + Told(sent)
    ensures |sent| > 0 ==>
      StartCall(old(c.cursor), old(c.dropped), head, cap).dropped <= known <= c.dropped
    ensures |sent| > 0 ==> UpToDate(known, old(c.reported), c.reported)
  {
    ghost var start := Served(c.cursor, c.dropped, [], 0);
    sent, all, known := [], start, 0;
    ghost var skipped := StartCall(c.cursor, c.dropped, head, cap).dropped;
    var i := 0;
    while i < calls
      invariant 0 <= i <= calls && c.Valid() && c.active && c.filter == old(c.filter)
      invariant all == Serve(c.filter, start, view, head, cap, buf.Length, i)
      invariant c.cursor == all.cursor && c.dropped == all.dropped
      invariant ValidView(view, SkipCursor(c.cursor, head, cap), head)
      invariant Received(sent) == Entries(all.out) && c.reported == old(c.reported) + Told(sent)
      invariant old(c.dropped) <= c.dropped && (i > 0 ==> skipped <= c.dropped)
      invariant i == 0 ==> sent == [] && c.dropped == old(c.dropped) && c.cursor == old(c.cursor)
      invariant |sent| > 0 ==> skipped <= known <= c.dropped && UpToDate(known, old(c.reported), c.reported)
    {
      ServeSnoc(c.filter, start, view, head, cap, buf.Length, i);
      CallMoves(c.filter, all, view, head, cap, buf.Length);
      ghost var before := |sent|;
      sent, all := ServeOnce(c, head, cap, view, buf, sent, all);
      i := i + 1;
      if |sent| > before { known := c.dropped; }
    }
  }

  /** One turn of the loop: a packet that is not empty is sent. */
  method ServeOnce(c: Client, head: nat, cap: nat, view: nat -> Obs, buf: array<Byte>, sent0: seq<seq<Byte>>,
                   ghost all0: Served)
    returns (sent: seq<seq<Byte>>, ghost all: Served)
    requires c.Valid() && c.active && ValidView(view, SkipCursor(c.cursor, head, cap), head)
    requires c.cursor == all0.cursor && c.dropped == all0.dropped && Received(sent0) == Entries(all0.out)
    modifies c, buf
    ensures c.Valid() && c.active && c.filter == old(c.filter)
    ensures all == PackedCall(c.filter, all0, view, head, cap, buf.Length)
    ensures c.cursor == all.cursor && c.dropped == all.dropped && Received(sent) == Entries(all.out)
    ensures c.reported + Told(sent0) == old(c.reported) + Told(sent)
    ensures if |sent| == |sent0| then c.reported == old(c.reported)
      else |sent| == |sent0| + 1 && UpToDate(c.dropped, old(c.reported), c.reported)
  {
    all := PackedCall(c.filter, all0, view, head, cap, buf.Length);
    ghost var reported := c.reported;
    var n;
    ghost var last;
    n, last := c.DrainPacked(head, cap, view, buf);
    sent := sent0;
    EntriesAppend(all0.out, last.out);
    if n > 0 {
      CallSends(c.filter, all0, reported, view, head, cap, buf.Length, last);
      SentOne(sent0, buf[..n]);
      sent := sent0 + [buf[..n]];
    }
  }

  lemma QuietIsValid(view: nat -> Obs, log: seq<Entry>, from: nat)
    requires from <= |log| && Quiescent(view, log, from) && ValidLog(log)
    ensures ValidView(view, from, |log|)
  {
  }

  lemma BacklogArrives(f: Filter, c: Served, view: nat -> Obs, log: seq<Entry>, cap: nat, bufSize: nat, calls: nat)
    requires c.cursor <= |log| && cap > 0 && ValidLog(log) && WorstCaseRows(bufSize) > 0 && c.out == []
    requires Quiescent(view, log, SkipCursor(c.cursor, |log|, cap))
    requires Min(WorstCaseRows(bufSize), |log| - SkipCursor(c.cursor, |log|, cap)) < U16
    requires calls > |Selected(f, log, SkipCursor(c.cursor, |log|, cap))| / (WorstCaseRows(bufSize) + 1)
    ensures
      var from, w := SkipCursor(c.cursor, |log|, cap), WorstCaseRows(bufSize) + 1;
      var sel, d := Selected(f, log, from), Serve(f, c, view, |log|, cap, bufSize, calls);
      && Entries(d.out) == Entries(Thinned(sel, w)) && |Entries(d.out)| == |sel| - |sel| / w
      && d.dropped == c.dropped + (from - c.cursor) && d.cursor == |log|
  {
    BacklogLoss(f, c, view, log, cap, bufSize, calls);
    ThinnedAt(Selected(f, log, SkipCursor(c.cursor, |log|, cap)), WorstCaseRows(bufSize), 0);
  }

  /** A backlog in a quiet ring, served to the end: the receiver decodes every selected entry but each (rows + 1)-th
      one, and of these |sel| / (rows + 1) missing entries no drop count tells. */
  method ServeBacklog(c: Client, cap: nat, view: nat -> Obs, log: seq<Entry>, buf: array<Byte>, calls: nat)
    returns (sent: seq<seq<Byte>>)
    requires c.Valid() && c.active && c.cursor <= |log| && cap > 0 && ValidLog(log) && WorstCaseRows(buf.Length) > 0
    requires Quiescent(view, log, SkipCursor(c.cursor, |log|, cap))
    requires Min(WorstCaseRows(buf.Length), |log| - SkipCursor(c.cursor, |log|, cap)) < U16
    requires calls > |Selected(c.filter, log, SkipCursor(c.cursor, |log|, cap))| / (WorstCaseRows(buf.Length) + 1)
    modifies c, buf
    ensures c.Valid() && c.active && c.cursor == |log|
    ensures
      var from, w := SkipCursor(old(c.cursor), |log|, cap), WorstCaseRows(buf.Length) + 1;
      var sel := Selected(old(c.filter), log, from);
      && Received(sent) == Entries(Thinned(sel, w)) && |Received(sent)| == |sel| - |sel| / w
      && c.dropped == old(c.dropped) + (from - old(c.cursor))
      && old(c.reported) + Told(sent) == c.reported <= c.dropped
      && (|sent| > 0 && c.dropped - old(c.reported) < 0x1_0000_0000 ==> Told(sent) == c.dropped - old(c.reported))
  {
    QuietIsValid(view, log, SkipCursor(c.cursor, |log|, cap));
    BacklogArrives(c.filter, Served(c.cursor, c.dropped, [], 0), view, log, cap, buf.Length, calls);
    ghost var all, known;
    sent, all, known := ServeClient(c, |log|, cap, view, buf, calls);
  }

  /** Two entries logged, a client from the start of the log, a buffer of 264 bytes: one call sends the first entry
      and reports no drop, the next finds nothing, and the second entry never arrives. */
  method SilentLoss(e0: Entry, e1: Entry) returns (packet: seq<Byte>, again: int)
    requires ValidEntry(e0) && ValidEntry(e1)
    ensures packet == PacketBytes([e0], 0) && EntriesOf(packet) == [e0] && DropsOf(packet) == 0
    ensures again == 0
  {
    var ring := new R.Ring(4);
    var c := new Client(0, AcceptAll);
    ring.Log(e0);
    ring.Log(e1);
    var view := ring.Snapshot();
    packet, again := DrainTwice(c, view, [e0, e1]);
  }

  method DrainTwice(c: Client, view: nat -> Obs, log: seq<Entry>) returns (packet: seq<Byte>, again: int)
    requires c.Valid() && c.active && c.cursor == 0 && c.dropped == 0 && c.filter == AcceptAll
    requires |log| == 2 && ValidLog(log) && Quiescent(view, log, 0)
    modifies c
    ensures packet == PacketBytes([log[0]], 0) && EntriesOf(packet) == [log[0]] && DropsOf(packet) == 0
    ensures again == 0 && c.cursor == 2 && c.dropped == 0
  {
    packet := DrainFirst(c, view, log);
    again := DrainNothing(c, 2, 4, view);
  }

  method DrainFirst(c: Client, view: nat -> Obs, log: seq<Entry>) returns (packet: seq<Byte>)
    requires c.Valid() && c.active && c.cursor == 0 && c.dropped == 0 && c.filter == AcceptAll
    requires |log| == 2 && ValidLog(log) && Quiescent(view, log, 0)
    modifies c
    ensures c.Valid() && c.active && c.cursor == 2 && c.dropped == 0
    ensures packet == PacketBytes([log[0]], 0) && EntriesOf(packet) == [log[0]] && DropsOf(packet) == 0
  {
    var buf := new Byte[264](_ => 0);
    ghost var before := Served(0, 0, [], 0);
    LossOfTwo(before, view, log, 4, 264);
    var n;
    ghost var last;
    n, last := c.DrainPacked(2, 4, view, buf);
    CallSends(AcceptAll, before, 0, view, 2, 4, 264, last);
    assert Entries(last.out) == [log[0]];
    packet := buf[..n];
  }

  method DrainNothing(c: Client, head: nat, cap: nat, view: nat -> Obs) returns (n: int)
    requires c.Valid() && c.active && c.cursor == head
    modifies c
    ensures n == 0 && c.cursor == head && c.dropped == old(c.dropped)
  {
    var buf := new Byte[264](_ => 0);
    ghost var last;
    n, last := c.DrainPacked(head, cap, view, buf);
  }

  lemma LossOfTwo(c: Served, view: nat -> Obs, log: seq<Entry>, cap: nat, bufSize: nat)
    requires c == Served(0, 0, [], 0) && |log| == 2 <= cap && bufSize == 264 && ValidLog(log) && Quiescent(view, log, 0)
    ensures ValidView(view, 0, 2)
    ensures BeginPacked(0, 0, 2, cap, bufSize) == Enter(Pack(264, 1), Call(0, 0, 0, [], 0, 0, false))
    ensures PackedCall(AcceptAll, c, view, 2, cap, bufSize) == Served(2, 0, [Delivery(0, log[0])], 1)
  {
    QuietIsValid(view, log, 0);
    PackedDrain(AcceptAll, c, view, log, cap, bufSize);
    assert Selected(AcceptAll, log, 2) == [] && Selected(AcceptAll, log, 1) == [Delivery(1, log[1])];
    assert Selected(AcceptAll, log, 0) == [Delivery(0, log[0]), Delivery(1, log[1])];
  }
}
