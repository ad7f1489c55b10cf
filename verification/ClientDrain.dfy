/**
  A client of the ring as the C code has it: a mutable record whose drain calls advance the cursor, count
  drops and, for the packed drain, build a packet in place in the caller's buffer.  The shared ring is seen
  through `view`: what the call reads when it polls a slot.  No restriction ties `view` to a quiet ring.
*/
module ClientDrain {
  import opened Bytes
  import opened Wire
  import opened DrainCore
  import opened PacketCodec
  import opened SlotFates

  function Entries(out: seq<Delivery>): (es: seq<Entry>)
    ensures |es| == |out| && forall i :: 0 <= i < |es| ==> es[i] == out[i].entry
  {
    seq(|out|, i requires 0 <= i < |out| => out[i].entry)
  }

  lemma EntriesSnoc(out: seq<Delivery>, d: Delivery)
    ensures Entries(out + [d]) == Entries(out) + [d.entry]
    ensures PayloadTotal(out + [d]) == PayloadTotal(out) + |d.entry.payload|
  {
    assert (out + [d])[..|out|] == out;
  }

  lemma {:induction false} PayloadLength(out: seq<Delivery>)
    ensures |PayloadBytes(Entries(out))| == PayloadTotal(out)
  {
    if |out| > 0 {
      var init := out[..|out| - 1];
      assert out == init + [out[|out| - 1]];
      EntriesSnoc(init, out[|out| - 1]);
      SnocBytes(Entries(init), out[|out| - 1].entry);
      PayloadLength(init);
    }
  }

  class Client {
    var cursor: nat
    var dropped: nat
    var reported: nat
    var filter: Filter
    var active: bool

    ghost predicate Valid()
      reads this
    {
      reported <= dropped
    }

    /** `btelem_client_open`: the client starts at the current head with no drops. */
    constructor (head: nat, filter: Filter)
      ensures Valid() && cursor == head && dropped == 0 && reported == 0 && this.filter == filter && active
    {
      cursor, dropped, reported, this.filter, active := head, 0, 0, filter, true;
    }

    /** `btelem_client_set_filter`: an empty list accepts everything; otherwise the listed ids below 512 are accepted,
        which may be none. */
    method SetFilter(ids: seq<nat>)
      modifies this`filter
      ensures ids == [] ==> filter == AcceptAll
      ensures ids != [] ==> filter.Only? && forall id :: id in filter.ids <==> id in ids && id < 512
    {
      var marked: set<nat> := {};
      var k := 0;
      while k < |ids|
        invariant 0 <= k <= |ids| && forall id :: id in marked <==> id in ids[..k] && id < 512
      {
        assert ids[..k + 1] == ids[..k] + [ids[k]];
        if ids[k] < MAX_IDS { marked := marked + {ids[k]}; }
        k := k + 1;
      }
      assert ids[..|ids|] == ids;
      filter := if |ids| > 0 then Only(marked) else AcceptAll;
    }

    /** `btelem_drain`: `out` lists the emit calls, `view` also answers whether each asks to stop. */
    method Drain(head: nat, cap: nat, view: nat -> Obs) returns (emitted: int, out: seq<Delivery>)
      requires Valid()
      modifies this
      ensures Valid() && reported == old(reported) && filter == old(filter) && active == old(active)
      ensures !old(active) ==> emitted == -1 && out == [] && cursor == old(cursor) && dropped == old(dropped)
      ensures old(active) ==>
        var a := Loop(filter, Emit, StartCall(old(cursor), old(dropped), head, cap), view, head);
        && cursor == a.cursor && dropped == a.dropped && out == a.out
        && Told(filter, view, StartCall(old(cursor), old(dropped), head, cap), a, head)
        && emitted == |out| - (if |out| > 0 && view(out[|out| - 1].slot).stop then 1 else 0)
    {
      if !active { return -1, []; }
      LoopTold(filter, StartCall(cursor, dropped, head, cap), view, head);
      SkipLapped(head, cap);
      emitted, out := DrainLoop(head, view);
    }

    /** The emitting loop, from wherever the cursor is. */
    method DrainLoop(head: nat, view: nat -> Obs) returns (emitted: int, out: seq<Delivery>)
      requires Valid()
      modifies this`cursor, this`dropped
      ensures Valid()
      ensures var a := Loop(filter, Emit, Call(old(cursor), old(dropped), 0, [], 0, 0, false), view, head);
        && cursor == a.cursor && dropped == a.dropped && out == a.out
        && emitted == |out| - (if |out| > 0 && view(out[|out| - 1].slot).stop then 1 else 0)
    {
      emitted, out := 0, [];
      ghost var first := Call(cursor, dropped, 0, [], 0, 0, false);
      ghost var a := first;
      while cursor < head
        invariant Valid() && reported == old(reported) && filter == old(filter) && active == old(active)
        invariant cursor == a.cursor && dropped == a.dropped && out == a.out && !a.stopped
        invariant emitted == |out| && (|out| > 0 ==> !view(out[|out| - 1].slot).stop)
        invariant Loop(filter, Emit, first, view, head) == Loop(filter, Emit, a, view, head)
      {
        var o := view(cursor);
        a := Iterate(filter, Emit, a, o);
        if o.before != cursor + 1 { break; }
        if o.after != o.before {
          dropped := dropped + 1;
          cursor := cursor + 1;
          continue;
        }
        cursor := cursor + 1;
        if !Accepts(filter, o.entry.id) { continue; }
        out := out + [Delivery(cursor - 1, o.entry)];
        if o.stop { break; }
        emitted := emitted + 1;
      }
    }

    /** `btelem_drain_packed`: the packet is built behind a worst-case table, moved down, and headed.  `last`
        is the finished call; when it packed anything, the first `n` bytes are exactly its packet. */
    method DrainPacked(head: nat, cap: nat, view: nat -> Obs, buf: array<Byte>) returns (n: int, ghost last: Call)
      requires Valid()
      modifies this, buf
      ensures Valid() && filter == old(filter) && active == old(active)
      ensures !old(active) ==> n == -1 && cursor == old(cursor) && dropped == old(dropped) && reported == old(reported)
      ensures old(active) ==> cursor == last.cursor && dropped == last.dropped >= old(reported)
      ensures old(active) ==>
        match BeginPacked(old(cursor), old(dropped), head, cap, buf.Length)
        case Return(rc, first) => n == rc && last == first
        case Enter(m, first) => last == Loop(filter, m, first, view, head) && Fates(filter, view, first, last)
      ensures old(active) && last.out == [] ==> n <= 0 && reported == old(reported)
      ensures old(active) && last.out != [] ==>
        var delta := Report(dropped, old(reported));
        && reported == old(reported) + delta
        && n == |PacketBytes(Entries(last.out), delta)| <= buf.Length
        && buf[..n] == PacketBytes(Entries(last.out), delta)
        && TellsDrops(dropped, old(reported), reported, Read(buf[..n], 8, 4))
    {
      last := Call(cursor, dropped, 0, [], 0, 0, false);
      if !active { return -1, last; }
      var begun := BeginPack(head, cap, buf.Length);
      last := begun.call;
      if begun.Return? { return begun.rc, last; }
      var maxEntries := begun.mode.maxEntries;
      var count, offset;
      cursor, dropped, count, offset, last := PackLoop(cursor, dropped, filter, head, view, buf, maxEntries);
      LoopCountsUp(filter, begun.mode, begun.call, view, head);
      LoopFates(filter, begun.mode, begun.call, view, head);
      if count == 0 { return 0, last; }
      n := SealPacket(buf, maxEntries, count, offset, last);
      DropField(Entries(last.out), Report(dropped, old(reported)));
    }

    /** The end of the packed drain: what is newly dropped is reported, and the packet closed. */
    method SealPacket(buf: array<Byte>, maxEntries: nat, count: nat, offset: nat, ghost last: Call) returns (n: nat)
      requires Valid() && PackedSoFar(buf[..], maxEntries, last) && count == |last.out| && offset == last.bytes
      modifies this`reported, buf
      ensures var delta := Report(dropped, old(reported));
        && reported == old(reported) + delta <= dropped
        && n == |PacketBytes(Entries(last.out), delta)| <= buf.Length
        && buf[..n] == PacketBytes(Entries(last.out), delta)
    {
      var delta := Report(dropped, reported);
      reported := reported + delta;
      n := Seal(buf, PACKET_HEADER + ENTRY_HEADER * maxEntries, ENTRY_HEADER * count, offset,
                HeaderBytes(count, offset, delta), Table(last.out), Payloads(last.out));
    }

    /** The opening of the packed drain: skip forward, bail out, or size the worst-case table. */
    method BeginPack(head: nat, cap: nat, bufSize: nat) returns (begun: Begun)
      requires Valid()
      modifies this`cursor, this`dropped
      ensures Valid() && cursor == begun.call.cursor && dropped == begun.call.dropped
      ensures begun == BeginPacked(old(cursor), old(dropped), head, cap, bufSize)
    {
      SkipLapped(head, cap);
      ghost var first := StartCall(old(cursor), old(dropped), head, cap);
      var call := Call(cursor, dropped, 0, [], 0, 0, false);
      if cursor >= head { return Return(0, call); }
      if bufSize < PACKET_HEADER { return Return(-1, call); }
      var available := head - cursor;
      if available > cap { available := cap; }
      var maxEntries := (bufSize - PACKET_HEADER) / PER_ENTRY;
      if maxEntries > available { maxEntries := available; }
      if maxEntries == 0 { return Return(0, call); }
      return Enter(Pack(bufSize, maxEntries), call);
    }

    /** Overwrite detection, shared by both drains. */
    method SkipLapped(head: nat, cap: nat)
      requires Valid()
      modifies this`cursor, this`dropped
      ensures Valid()
      ensures var first := StartCall(old(cursor), old(dropped), head, cap);
        cursor == first.cursor && dropped == first.dropped
    {
      if head > cap {
        var oldest := head - cap;
        if cursor < oldest {
          dropped := dropped + (oldest - cursor);
          cursor := oldest;
        }
      }
    }
  }

  /** What the packing loop does with one observation. */
  datatype Verdict = Uncommitted | Torn | FilteredOut | Full | Take

  function Judge(filter: Filter, o: Obs, cursor: nat, count: nat, offset: nat, capacity: int,
                 maxEntries: nat): Verdict {
    if o.before != cursor + 1 then Uncommitted
    else if o.after != o.before then Torn
    else if !Accepts(filter, o.entry.id) then FilteredOut
    else if offset + |o.entry.payload| > capacity then Full
    else if count >= maxEntries % U16 then Full
    else Take
  }

  function Settled(v: Verdict, a: Call, e: Entry): Call {
    match v
    case Uncommitted => a.(stopped := true)
    case Torn => a.(dropped := a.dropped + 1, cursor := a.cursor + 1)
    case FilteredOut => a.(filtered := a.filtered + 1, cursor := a.cursor + 1)
    case Full => a.(lost := a.lost + 1, cursor := a.cursor + 1, stopped := true)
    case Take => Deliver(a, a.cursor, e).(cursor := a.cursor + 1)
  }

  lemma JudgeIsIterate(filter: Filter, m: Mode, a: Call, o: Obs)
    requires m.Pack?
    ensures Iterate(filter, m, a, o) ==
            Settled(Judge(filter, o, a.cursor, |a.out|, a.bytes, PayloadCapacity(m), m.maxEntries), a, o.entry)
  {
  }

  /** The packing loop: rows grow from the front, payloads from behind the worst-case table. */
  method PackLoop(cursor0: nat, dropped0: nat, filter: Filter, head: nat, view: nat -> Obs, buf: array<Byte>,
                  maxEntries: nat)
    returns (cursor: nat, dropped: nat, count: nat, offset: nat, ghost last: Call)
    requires 0 < maxEntries && PACKET_HEADER + ENTRY_HEADER * maxEntries <= buf.Length
    modifies buf
    ensures last == Loop(filter, Pack(buf.Length, maxEntries), Call(cursor0, dropped0, 0, [], 0, 0, false), view, head)
    ensures cursor == last.cursor && dropped == last.dropped && count == |last.out| && offset == last.bytes
    ensures PackedSoFar(buf[..], maxEntries, last)
  {
    ghost var m := Pack(buf.Length, maxEntries);
    ghost var first := Call(cursor0, dropped0, 0, [], 0, 0, false);
    last := first;
    cursor, dropped, count, offset := cursor0, dropped0, 0, 0;
    var stop := false;
    while cursor < head && !stop
      invariant cursor == last.cursor && dropped == last.dropped && count == |last.out| && offset == last.bytes
      invariant stop == last.stopped
      invariant Loop(filter, m, first, view, head) == Loop(filter, m, last, view, head)
      invariant PackedSoFar(buf[..], maxEntries, last)
      decreases !stop, head - cursor
    {
      ghost var prev := last;
      cursor, dropped, count, offset, stop, last :=
        PackStep(filter, view(cursor), buf, maxEntries, cursor, dropped, count, offset, last);
      LoopUnfolds(filter, m, prev, view, head);
    }
  }

  /** One iteration; `stop` stands for the loop's breaks. */
  method PackStep(filter: Filter, o: Obs, buf: array<Byte>, maxEntries: nat,
                  cursor0: nat, dropped0: nat, count0: nat, offset0: nat, ghost a: Call)
    returns (cursor: nat, dropped: nat, count: nat, offset: nat, stop: bool, ghost next: Call)
    requires PACKET_HEADER + ENTRY_HEADER * maxEntries <= buf.Length && !a.stopped
    requires cursor0 == a.cursor && dropped0 == a.dropped && count0 == |a.out| && offset0 == a.bytes
    requires PackedSoFar(buf[..], maxEntries, a)
    modifies buf
    ensures next == Iterate(filter, Pack(buf.Length, maxEntries), a, o)
    ensures cursor == next.cursor && dropped == next.dropped && count == |next.out| && offset == next.bytes
    ensures stop == next.stopped && PackedSoFar(buf[..], maxEntries, next)
  {
    cursor, dropped, count, offset := cursor0, dropped0, count0, offset0;
    var capacity := buf.Length - PACKET_HEADER - maxEntries * ENTRY_HEADER;
    var verdict := Judge(filter, o, cursor, count, offset, capacity, maxEntries);
    JudgeIsIterate(filter, Pack(buf.Length, maxEntries), a, o);
    next := Settled(verdict, a, o.entry);
    stop := false;
    match verdict {
      case Uncommitted => stop := true;
      case Torn => dropped, cursor := dropped + 1, cursor + 1;
      case FilteredOut => cursor := cursor + 1;
      case Full => stop, cursor := true, cursor + 1;
      case Take =>
        TakeEntry(buf, maxEntries, count, offset, a, next, o.entry);
        offset, count, cursor := offset + |o.entry.payload|, count + 1, cursor + 1;
    }
  }

  /** The buffer holds the rows and payloads of everything packed so far. */
  ghost predicate PackedSoFar(buf: seq<Byte>, maxEntries: nat, a: Call) {
    && |a.out| <= maxEntries && a.bytes == |Payloads(a.out)|
    && Built(buf, PACKET_HEADER + ENTRY_HEADER * maxEntries, Table(a.out), Payloads(a.out))
  }

  /** Packs one entry: a row and its payload. */
  method TakeEntry(buf: array<Byte>, maxEntries: nat, count: nat, offset: nat, ghost a: Call, ghost next: Call,
                   e: Entry)
    requires next.out == a.out + [Delivery(a.cursor, e)] && next.bytes == a.bytes + |e.payload|
    requires PackedSoFar(buf[..], maxEntries, a) && count == |a.out| < maxEntries && offset == a.bytes
    requires PACKET_HEADER + ENTRY_HEADER * maxEntries + offset + |e.payload| <= buf.Length
    modifies buf
    ensures PackedSoFar(buf[..], maxEntries, next)
  {
    OutSnoc(a.out, Delivery(a.cursor, e));
    var p := PACKET_HEADER + ENTRY_HEADER * maxEntries;
    AppendEntry(buf, PACKET_HEADER + ENTRY_HEADER * count, RowBytes(e, offset), p + offset, e.payload,
                p, Table(a.out), Payloads(a.out));
  }

  /** The buffer during packing: a table after the header, and payloads from `p` on, behind the gap. */
  ghost predicate Built(buf: seq<Byte>, p: nat, table: seq<Byte>, pays: seq<Byte>) {
    && PACKET_HEADER + |table| <= p && p + |pays| <= |buf|
    && buf[PACKET_HEADER..PACKET_HEADER + |table|] == table
    && buf[p..p + |pays|] == pays
  }

  /** One packed entry: its row after the rows, its payload after the payloads. */
  method AppendEntry(buf: array<Byte>, rowAt: nat, row: seq<Byte>, payAt: nat, pay: seq<Byte>,
                     p: nat, ghost table: seq<Byte>, ghost pays: seq<Byte>)
    requires Built(buf[..], p, table, pays)
    requires rowAt == PACKET_HEADER + |table| && rowAt + |row| <= p
    requires payAt == p + |pays| && payAt + |pay| <= buf.Length
    modifies buf
    ensures Built(buf[..], p, table + row, pays + pay)
  {
    ghost var s := buf[..];
    Put(buf, rowAt, row);
    ghost var s1 := buf[..];
    Put(buf, payAt, pay);
    OverlayNext(s, PACKET_HEADER, rowAt, row, table);
    OverlayOutside(s, rowAt, row, p, payAt);
    OverlayOutside(s1, payAt, pay, PACKET_HEADER, rowAt + |row|);
    OverlayNext(s1, p, payAt, pay, pays);
  }

  /** Closes the gap between the real table and the payloads, then writes the packet header. */
  method Seal(buf: array<Byte>, p: nat, rows: nat, offset: nat, header: seq<Byte>, ghost table: seq<Byte>,
              ghost pays: seq<Byte>)
    returns (n: nat)
    requires Built(buf[..], p, table, pays) && rows == |table| && offset == |pays| && |header| == PACKET_HEADER
    modifies buf
    ensures n == |header + table + pays| <= buf.Length
    ensures buf[..n] == header + table + pays
  {
    var dst := PACKET_HEADER + rows;
    ghost var s := buf[..];
    assert buf[p..p + offset] == s[p..p + offset];
    if dst != p {
      Move(buf, dst, p, offset);
      OverlayNext(s, PACKET_HEADER, dst, pays, table);
    } else {
      JoinSlices(s, PACKET_HEADER, dst, dst + offset);
    }
    ghost var s1 := buf[..];
    assert s1[PACKET_HEADER..dst + offset] == table + pays;
    Put(buf, 0, header);
    n := dst + offset;
    OverlayInside(s1, 0, header);
    OverlayOutside(s1, 0, header, PACKET_HEADER, n);
    ghost var s2 := buf[..];
    JoinSlices(s2, 0, PACKET_HEADER, n);
    assert buf[..n] == s2[0..n];
  }

  function Table(out: seq<Delivery>): (t: seq<Byte>)
    ensures |t| == ENTRY_HEADER * |out|
  {
    TableBytes(Entries(out))
  }

  function Payloads(out: seq<Delivery>): seq<Byte> {
    PayloadBytes(Entries(out))
  }

  lemma OutSnoc(out: seq<Delivery>, d: Delivery)
    ensures Table(out + [d]) == Table(out) + RowBytes(d.entry, |Payloads(out)|)
    ensures Payloads(out + [d]) == Payloads(out) + d.entry.payload
  {
    EntriesSnoc(out, d);
    SnocBytes(Entries(out), d.entry);
  }

  lemma SnocBytes(es: seq<Entry>, e: Entry)
    ensures PayloadBytes(es + [e]) == PayloadBytes(es) + e.payload
    ensures TableBytes(es + [e]) == TableBytes(es) + RowBytes(e, |PayloadBytes(es)|)
  {
    assert (es + [e])[..|es|] == es;
  }

  lemma {:induction false} LoopCountsUp(f: Filter, m: Mode, a: Call, view: nat -> Obs, head: nat)
    ensures a.dropped <= Loop(f, m, a, view, head).dropped
    decreases if Finished(a, head) then 0 else 1 + head - a.cursor
  {
    if !Finished(a, head) {
      LoopCountsUp(f, m, Iterate(f, m, a, view(a.cursor)), view, head);
    }
  }

  /** Deliveries of a balanced packed call fit the fields of the packet format. */
  lemma PackedEncodable(m: Mode, first: Call, a: Call, head: nat)
    requires m.Pack? && CallInv(m, first, a, head)
    ensures Encodable(Entries(a.out))
  {
    PayloadLength(a.out);
    PayloadTotalBound(a.out);
    assert |PayloadBytes(Entries(a.out))| <= MAX_PAYLOAD * U16;
  }
}
