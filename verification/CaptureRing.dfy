/** The viewer's raw-packet recorder: a queue with a byte budget, saved to `.btlm` on demand. */
module CaptureRing {
  import opened Bytes
  import opened DrainCore
  import opened PacketCodec
  import opened PacketIndex
  import opened BtlmFile

  datatype Blob = NoSchema | Schema(bytes: seq<Byte>)

  /** Dropping the first `k` leaves the longest run of newest packets that fits the budget. */
  ghost predicate LongestFit(accepted: seq<PacketData>, k: nat, cap: nat) {
    && k <= |accepted| && |Flatten(accepted[k..])| <= cap
    && forall j :: 0 <= j < k ==> |Flatten(accepted[j..])| > cap
  }

  /** The same while evicting: everything dropped so far had to go. */
  ghost predicate DroppedHadToGo(accepted: seq<PacketData>, k: nat, cap: nat) {
    k <= |accepted| && forall j :: 0 <= j < k ==> |Flatten(accepted[j..])| > cap
  }

  lemma SuffixHead(ps: seq<PacketData>, k: nat)
    requires k < |ps|
    ensures |Flatten(ps[k..])| == |ps[k]| + |Flatten(ps[k + 1..])|
  {
    assert ps[k..][1..] == ps[k + 1..];
  }

  /** One more packet makes no suffix smaller. */
  lemma SuffixGrows(ps: seq<PacketData>, p: PacketData, k: nat)
    requires k <= |ps|
    ensures (ps + [p])[k..] == ps[k..] + [p] && |Flatten((ps + [p])[k..])| == |Flatten(ps[k..])| + |p|
  {
    assert (ps + [p])[k..] == ps[k..] + [p];
    FlattenSnoc(ps[k..], p);
  }

  lemma HadToGoGrows(ps: seq<PacketData>, p: PacketData, k: nat, cap: nat)
    requires DroppedHadToGo(ps, k, cap)
    ensures DroppedHadToGo(ps + [p], k, cap)
  {
    forall j | 0 <= j < k ensures |Flatten((ps + [p])[j..])| > cap { SuffixGrows(ps, p, j); }
  }

  lemma HadToGoMore(ps: seq<PacketData>, k: nat, cap: nat)
    requires DroppedHadToGo(ps, k, cap) && k < |ps| && |Flatten(ps[k..])| > cap
    ensures DroppedHadToGo(ps, k + 1, cap)
  {
  }

  /** There is only one such cut, so the contents are determined by what was accepted. */
  lemma LongestFitUnique(ps: seq<PacketData>, a: nat, b: nat, cap: nat)
    requires LongestFit(ps, a, cap) && LongestFit(ps, b, cap)
    ensures a == b
  {
  }

  ghost predicate Honest(items: seq<Item>) {
    forall i :: 0 <= i < |items| ==> TableInside(items[i].data) && items[i].meta == MetaOf(items[i].data)
  }

  class Capture {
    var schema: Blob
    var items: seq<Item>
    var bytes: nat
    const capBytes: nat
    var total: nat
    var dropped: nat
    ghost var accepted: seq<PacketData>

    /** The queue is what was accepted, less what was dropped. */
    ghost predicate Queue()
      reads this
    {
      && dropped <= |accepted| && Packets(items) == accepted[dropped..] && Honest(items)
      && bytes == |Flatten(accepted[dropped..])| && total == |accepted|
    }

    ghost predicate Valid()
      reads this
    {
      Queue() && LongestFit(accepted, dropped, capBytes)
    }

    constructor (cap: nat)
      ensures Valid() && accepted == [] && capBytes == cap
    {
      schema, items, bytes, capBytes, total, dropped := NoSchema, [], 0, cap, 0, 0;
      accepted := [];
    }

    method EvictToFit()
      requires Queue() && DroppedHadToGo(accepted, dropped, capBytes)
      modifies this`items, this`bytes, this`dropped
      ensures Valid()
    {
      while bytes > capBytes
        invariant Queue() && DroppedHadToGo(accepted, dropped, capBytes)
        decreases |items|
      {
        if |items| == 0 { break; }
        PopFront();
      }
    }

    method PopFront()
      requires Queue() && |items| > 0 && bytes > capBytes && DroppedHadToGo(accepted, dropped, capBytes)
      modifies this`items, this`bytes, this`dropped
      ensures Queue() && DroppedHadToGo(accepted, dropped, capBytes)
      ensures dropped == old(dropped) + 1 && |items| == old(|items|) - 1
    {
      SuffixHead(accepted, dropped);
      HadToGoMore(accepted, dropped, capBytes);
      var pkt := items[0].data;
      assert Packets(items)[0] == accepted[dropped];
      assert Packets(items)[1..] == accepted[dropped..][1..] == accepted[dropped + 1..];
      assert Packets(items[1..]) == Packets(items)[1..];
      items := items[1..];
      bytes := bytes - |pkt|;
      dropped := dropped + 1;
    }

    /** `push_packet`: a packet whose table cannot be read is refused, any other is accepted. */
    method PushPacket(p: PacketData) returns (ok: bool)
      requires Valid()
      modifies this`items, this`bytes, this`total, this`dropped, this`accepted
      ensures Valid() && ok == TableInside(p)
      ensures accepted == if ok then old(accepted) + [p] else old(accepted)
      ensures old(dropped) <= dropped
    {
      if |p| < PACKET_HEADER { return false; }
      if |p| < PayloadBase(p) { return false; }
      var m := ScanMeta(p);
      Enqueue(Item(p, m));
      ghost var before := dropped;
      EvictToFit();
      LongestFitLater(accepted, before, dropped, capBytes);
      ok := true;
    }

    method Enqueue(it: Item)
      requires Valid() && TableInside(it.data) && it.meta == MetaOf(it.data)
      modifies this`items, this`bytes, this`total, this`accepted
      ensures Queue() && DroppedHadToGo(accepted, dropped, capBytes) && accepted == old(accepted) + [it.data]
    {
      SuffixGrows(accepted, it.data, dropped);
      HadToGoGrows(accepted, it.data, dropped, capBytes);
      bytes := bytes + |it.data|;
      items := items + [it];
      total := total + 1;
      accepted := accepted + [it.data];
    }

    /** `set_schema`: true when an earlier, different schema was replaced. */
    method SetSchema(blob: seq<Byte>) returns (differs: bool)
      requires Valid()
      modifies this`schema
      ensures Valid() && schema == Schema(blob)
      ensures differs <==> old(schema).Schema? && old(schema).bytes != blob
    {
      differs := schema.Schema? && schema.bytes != blob;
      schema := Schema(blob);
    }

    /** `clear`. */
    method Clear()
      modifies this
      ensures Valid() && accepted == [] && schema == NoSchema && total == dropped == 0
    {
      schema, items, bytes, total, dropped := NoSchema, [], 0, 0, 0;
      accepted := [];
    }

    /** `save_btlm`: what is written reads back as the retained packets, provided the format's widths suffice. */
    method Save() returns (ok: bool, file: seq<Byte>)
      requires Valid()
      ensures ok == schema.Schema?
      ensures ok ==> Stored(file, schema.bytes, accepted[dropped..], ItemIndex(schema.bytes, items))
      ensures ok && Storable(schema.bytes, accepted[dropped..]) ==>
        ReadSpec(file) == BtlmFile.Ok(BtlmFile.LoadedCapture(schema.bytes, accepted[dropped..]))
    {
      if schema.NoSchema? { return false, []; }
      file := WriteBtlm(schema.bytes, items);
      ok := true;
      if Storable(schema.bytes, accepted[dropped..]) { SaveLoadRoundTrip(file, schema.bytes, items); }
    }
  }

  lemma LongestFitLater(ps: seq<PacketData>, before: nat, after: nat, cap: nat)
    requires DroppedHadToGo(ps, before, cap) && LongestFit(ps, after, cap)
    ensures before <= after
  {
  }

  /** A packet larger than the whole budget empties the queue, itself included. */
  lemma OversizedEmptiesQueue(accepted: seq<PacketData>, p: PacketData, k: nat, cap: nat)
    requires |p| > cap && LongestFit(accepted + [p], k, cap)
    ensures k == |accepted| + 1
  {
    if k <= |accepted| { SuffixGrows(accepted, p, k); }
  }
}
