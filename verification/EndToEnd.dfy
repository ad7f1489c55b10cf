/** From BTELEM_LOG to the decoder: what a receiver reads out of a packet is what producers logged. */
module EndToEnd {
  import opened Bytes
  import opened Wire
  import opened DrainCore
  import opened RingProtocol
  import opened RingSafety
  import P = PacketCodec
  import D = ClientDrain

  lemma PacketEncodable(log: seq<Logged>, p: Packet)
    requires PacketInv(log, p)
    ensures P.Encodable(D.Entries(p.entries))
  {
    D.PayloadLength(p.entries);
    PayloadTotalBound(p.entries);
    forall i | 0 <= i < |p.entries| ensures ValidEntry(D.Entries(p.entries)[i]) {
      assert ValidEntry(p.entries[i].entry);
    }
  }

  /** In every disciplined interleaving, the bytes of every packet a client was ever given decode to records
      exactly as their producers logged them, in slot order, with the drop count the client accounted for. */
  lemma PacketsCarryTheLog(tr: seq<State>, i: nat, cid: Cid, k: nat)
    requires Run(tr) && Disciplined(tr) && i < |tr| && cid in tr[i].clients && k < |tr[i].clients[cid].packets|
    ensures
      var p := tr[i].clients[cid].packets[k];
      var r := P.Decoded(P.PacketBytes(D.Entries(p.entries), p.dropped));
      && r.Ok? && r.value.dropped == p.dropped && |r.value.entries| == |p.entries|
      && (forall j :: 0 <= j < |p.entries| ==>
            p.entries[j].slot < |tr[i].log| && r.value.entries[j] == tr[i].log[p.entries[j].slot].entry)
      && (forall a, b :: 0 <= a < b < |p.entries| ==> p.entries[a].slot < p.entries[b].slot)
  {
    RunInv(tr, i);
    var c := tr[i].clients[cid];
    assert ClientInv(tr[i], c);
    var p := c.packets[k];
    assert PacketInv(tr[i].log, p);
    PacketEncodable(tr[i].log, p);
    P.RoundTrip(D.Entries(p.entries), p.dropped);
  }

  /** For every buffer size, ring state and interference, what one packed drain leaves in the buffer decodes to
      exactly the entries it packed, in order, with the drop count it reported. */
  lemma PackedCallDecodes(f: Filter, cursor: nat, dropped: nat, reported: nat, head: nat, cap: nat, bufSize: nat,
                          view: nat -> Obs)
    requires reported <= dropped && BeginPacked(cursor, dropped, head, cap, bufSize).Enter?
    requires ValidView(view, SkipCursor(cursor, head, cap), head)
    ensures
      var begun := BeginPacked(cursor, dropped, head, cap, bufSize);
      var a := Loop(f, begun.mode, begun.call, view, head);
      && reported <= a.dropped
      && var es, delta := D.Entries(a.out), Report(a.dropped, reported);
         && P.Decoded(P.PacketBytes(es, delta)) == Ok(P.Packet(|es|, 0, PayloadTotal(a.out), delta, es))
         && TellsDrops(a.dropped, reported, reported + delta, P.Decoded(P.PacketBytes(es, delta)).value.dropped)
  {
    var begun := BeginPacked(cursor, dropped, head, cap, bufSize);
    var a := Loop(f, begun.mode, begun.call, view, head);
    LoopKeepsCallInv(f, begun.mode, begun.call, begun.call, view, head);
    D.PackedEncodable(begun.mode, begun.call, a, head);
    D.PayloadLength(a.out);
    P.RoundTrip(D.Entries(a.out), Report(a.dropped, reported));
  }
}
