/** The ring as an object, driven by one thread: initialisation, logging, and a full drain. */
module RingBuffer {
  import opened Bytes
  import opened Bits
  import opened DrainCore
  import opened ClientDrain
  import opened SlotFates

  /** Both reads of one cell with nothing in between. */
  function ReadCell(seqs: seq<nat>, entries: seq<Entry>, capacity: nat, slot: nat): (o: Obs)
    requires IsPowerOf2(capacity) && |seqs| == |entries| == capacity
    ensures o == Obs(seqs[slot % capacity], entries[slot % capacity], seqs[slot % capacity], false)
  {
    MaskIsMod(capacity, slot);
    var i := And(slot, capacity - 1);
    Obs(seqs[i], entries[i], seqs[i], false)
  }

  class Ring {
    var head: nat
    const capacity: nat
    const mask: nat
    const seqs: array<nat>
    const entries: array<Entry>
    /** Everything ever logged. */
    ghost var log: seq<Entry>

    /** Every slot of the last lap is published in its cell. */
    ghost predicate Valid()
      reads this, seqs, entries
    {
      && IsPowerOf2(capacity) && mask == capacity - 1
      && seqs.Length == capacity && entries.Length == capacity
      && |log| == head
      && forall s :: 0 <= s < head <= s + capacity ==> seqs[s % capacity] == s + 1 && entries[s % capacity] == log[s]
    }

    /** Called only with an accepted capacity; `Init` is the checked entry point. */
    constructor (entryCount: nat)
      requires IsPowerOf2(entryCount)
      ensures Valid() && capacity == entryCount && log == [] && fresh(seqs) && fresh(entries)
    {
      head := 0;
      capacity := entryCount;
      mask := entryCount - 1;
      seqs := new nat[entryCount](_ => 0);
      entries := new Entry[entryCount](_ => Entry(0, 0, []));
      log := [];
    }

    /** `BTELEM_LOG_ID` run to completion. */
    method Log(e: Entry)
      requires Valid()
      modifies this, seqs, entries
      ensures Valid() && log == old(log) + [e]
    {
      var slot := head;
      head := head + 1;
      var i := And(slot, mask);
      MaskIsMod(capacity, slot);
      forall s | 0 <= s < slot && slot + 1 <= s + capacity ensures s % capacity != slot % capacity {
        ApartInWindow(capacity, s, slot);
      }
      seqs[i] := 0;
      entries[i] := e;
      seqs[i] := slot + 1;
      log := log + [e];
    }

    /** What an undisturbed poll of slot `s` reads. */
    function Snapshot(): (view: nat -> Obs)
      requires Valid()
      reads this, seqs, entries
      ensures forall s :: 0 <= s < head <= s + capacity ==> view(s) == Obs(s + 1, log[s], s + 1, false)
    {
      var q, es, cap := seqs[..], entries[..], capacity;
      var view := (s: nat) => ReadCell(q, es, cap, s);
      view
    }

    /** One full drain with an accepting callback: exactly the filtered last min(head - cursor, capacity)
        entries of the unbounded log, in order, and as announced by `btelem_client_available`. */
    method DrainAll(c: Client) returns (emitted: int, out: seq<Delivery>)
      requires Valid() && c.Valid() && c.active && c.cursor <= head
      modifies c
      ensures Valid() && c.Valid()
      ensures
        var n := Min(head - old(c.cursor), capacity);
        && out == Selected(old(c.filter), log, head - n) && emitted == |out|
        && Delivers(out, old(c.filter), log, head - n)
        && c.cursor == head && c.dropped == old(c.dropped) + (head - old(c.cursor) - n)
        && (old(c.cursor) < head ==>
              Available(old(c.cursor), head, capacity) == Availability(n, Overwritten(c.dropped - old(c.dropped))))
    {
      var view := Snapshot();
      SelectedDelivers(c.filter, log, head - Min(head - c.cursor, capacity));
      emitted, out := DrainQuiet(c, head, capacity, view, log);
    }
  }

  /** Over a quiet ring the drain delivers everything and is never asked to stop. */
  lemma AcceptingDrain(f: Filter, cursor: nat, dropped: nat, cap: nat, view: nat -> Obs, log: seq<Entry>)
    requires cursor <= |log|
    requires forall s :: 0 <= s < |log| <= s + cap ==> view(s) == Obs(s + 1, log[s], s + 1, false)
    ensures DrainsEverything(f, cursor, dropped, cap, view, log)
    ensures var out := Loop(f, Emit, StartCall(cursor, dropped, |log|, cap), view, |log|).out;
      |out| > 0 ==> !view(out[|out| - 1].slot).stop
  {
    FullDrain(f, cursor, dropped, cap, view, log);
    LastStop(f, log, |log| - Min(|log| - cursor, cap));
  }

  method DrainQuiet(c: Client, head: nat, cap: nat, view: nat -> Obs, ghost log: seq<Entry>)
    returns (emitted: int, out: seq<Delivery>)
    requires c.Valid() && c.active && c.cursor <= head == |log|
    requires forall s :: 0 <= s < |log| <= s + cap ==> view(s) == Obs(s + 1, log[s], s + 1, false)
    modifies c
    ensures c.Valid()
    ensures
      var n := Min(head - old(c.cursor), cap);
      && out == Selected(old(c.filter), log, head - n) && emitted == |out|
      && c.cursor == head && c.dropped == old(c.dropped) + (head - old(c.cursor) - n)
      && (old(c.cursor) < head ==>
            Available(old(c.cursor), head, cap) == Availability(n, Overwritten(c.dropped - old(c.dropped))))
  {
    AcceptingDrain(c.filter, c.cursor, c.dropped, cap, view, log);
    emitted, out := c.Drain(head, cap, view);
  }

  lemma {:induction false} LastStop(f: Filter, log: seq<Entry>, from: nat)
    requires from <= |log|
    ensures forall i :: 0 <= i < |Selected(f, log, from)| ==> from <= Selected(f, log, from)[i].slot < |log|
    decreases |log| - from
  {
    if from < |log| { LastStop(f, log, from + 1); }
  }

  lemma ApartInWindow(cap: nat, a: nat, b: nat)
    requires cap > 0 && a < b < a + cap
    ensures a % cap != b % cap
  {
    var qa, qb := a / cap, b / cap;
    assert a == cap * qa + a % cap && b == cap * qb + b % cap;
    if a % cap == b % cap {
      if qa < qb { Gap(cap, qa, qb); }
    }
  }

  /** `btelem_init`: fails exactly on capacities that are not powers of two. */
  method Init(entryCount: nat) returns (r: Ring?)
    ensures r == null <==> !IsPowerOf2(entryCount)
    ensures r != null ==> fresh(r) && r.Valid() && r.capacity == entryCount && r.log == []
  {
    if !IsPowerOf2(entryCount) { return null; }
    r := new Ring(entryCount);
  }
}
