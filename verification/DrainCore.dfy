/**
  One call of `btelem_drain` or `btelem_drain_packed`, seen from the client: the loop body as a function of
  what the client observes in the ring at its cursor.  The interleaved protocol (RingProtocol) and the
  imperative client (ClientDrain) both run this body, so what is proved of it holds for both.
*/
module DrainCore {
  import opened Bytes

  const MAX_PAYLOAD: nat := 232
  const MAX_IDS: nat := 512
  const PACKET_HEADER: nat := 16
  const ENTRY_HEADER: nat := 16
  /** Header plus worst-case payload: what one packed entry may need. */
  const PER_ENTRY: nat := ENTRY_HEADER + MAX_PAYLOAD

  datatype Entry = Entry(timestamp: nat, id: nat, payload: seq<Byte>)

  predicate ValidEntry(e: Entry) {
    e.timestamp < U64 && e.id < MAX_IDS && |e.payload| <= MAX_PAYLOAD
  }

  datatype Filter = AcceptAll | Only(ids: set<nat>)

  predicate Accepts(f: Filter, id: nat) {
    f.AcceptAll? || id in f.ids
  }

  /** What one loop iteration reads: the sequence number before the copy, the copy, the sequence number
      after it, and (for `btelem_drain`) whether the emit callback asked to stop. */
  datatype Obs = Obs(before: nat, entry: Entry, after: nat, stop: bool)

  datatype Delivery = Delivery(slot: nat, entry: Entry)

  datatype Mode = Emit | Pack(bufSize: nat, maxEntries: nat)

  /** The client's fields and the call's results while a call runs.  `bytes` is the payload
      delivered so far; `lost` counts the entry a packed call consumes when it finds the packet full. */
  datatype Call = Call(cursor: nat, dropped: nat, filtered: nat, out: seq<Delivery>, bytes: nat, lost: nat,
                       stopped: bool)

  function PayloadTotal(out: seq<Delivery>): (n: nat) {
    if |out| == 0 then 0 else PayloadTotal(out[..|out| - 1]) + |out[|out| - 1].entry.payload|
  }

  function PayloadCapacity(m: Mode): (n: int)
    requires m.Pack?
  {
    m.bufSize - PACKET_HEADER - m.maxEntries * ENTRY_HEADER
  }

  /** The number of table rows the packed loop compares against: `max_entries` after its 16-bit cast. */
  function Rows(m: Mode): (n: nat)
    requires m.Pack?
    ensures n <= m.maxEntries && n < U16
  {
    m.maxEntries % U16
  }

  function Deliver(a: Call, slot: nat, e: Entry): Call {
    a.(out := a.out + [Delivery(slot, e)], bytes := a.bytes + |e.payload|)
  }

  function Consume(m: Mode, a: Call, e: Entry, stop: bool): Call {
    var b := a.(cursor := a.cursor + 1);
    match m
    case Emit => Deliver(b, a.cursor, e).(stopped := stop)
    case Pack(_, _) =>
      if a.bytes + |e.payload| > PayloadCapacity(m) || |a.out| >= Rows(m) then
        b.(lost := a.lost + 1, stopped := true)
      else
        Deliver(b, a.cursor, e)
  }

  /** The loop body: check the sequence number, copy, check again, filter, deliver. */
  function Iterate(f: Filter, m: Mode, a: Call, o: Obs): Call {
    if o.before != a.cursor + 1 then a.(stopped := true)
    else if o.after != o.before then a.(dropped := a.dropped + 1, cursor := a.cursor + 1)
    else if !Accepts(f, o.entry.id) then a.(filtered := a.filtered + 1, cursor := a.cursor + 1)
    else Consume(m, a, o.entry, o.stop)
  }

  predicate Finished(a: Call, head: nat) {
    a.stopped || a.cursor >= head
  }

  /** A whole call, given what is observed at each slot. */
  function Loop(f: Filter, m: Mode, a: Call, view: nat -> Obs, head: nat): Call
    decreases if Finished(a, head) then 0 else 1 + head - a.cursor
  {
    if Finished(a, head) then a else Loop(f, m, Iterate(f, m, a, view(a.cursor)), view, head)
  }

  lemma LoopUnfolds(f: Filter, m: Mode, a: Call, view: nat -> Obs, head: nat)
    requires !Finished(a, head)
    ensures Loop(f, m, a, view, head) == Loop(f, m, Iterate(f, m, a, view(a.cursor)), view, head)
  {
  }

  /** Overwrite detection: a cursor behind the oldest slot still in the ring jumps to it. */
  function SkipCursor(cursor: nat, head: nat, cap: nat): (r: nat)
    ensures cursor <= r && (cursor <= head ==> r <= head)
    ensures r != cursor ==> r + cap == head
    ensures head <= r + cap || cursor > head
  {
    if head > cap && cursor < head - cap then head - cap else cursor
  }

  function StartCall(cursor: nat, dropped: nat, head: nat, cap: nat): (a: Call)
    ensures a.cursor - cursor == a.dropped - dropped
  {
    var c := SkipCursor(cursor, head, cap);
    Call(c, dropped + (c - cursor), 0, [], 0, 0, false)
  }

  /** How many worst-case entries a buffer holds. */
  function WorstCaseRows(bufSize: nat): (n: nat)
    ensures bufSize < 16 ==> n == 0
    ensures bufSize >= 16 ==> 16 + 248 * n <= bufSize < 16 + 248 * (n + 1)
  {
    if bufSize < PACKET_HEADER then 0 else (bufSize - PACKET_HEADER) / PER_ENTRY
  }

  /** `max_entries`: as many worst-case entries as the buffer holds, and no more than are available. */
  function MaxEntries(bufSize: nat, available: nat, cap: nat): (n: nat)
    requires bufSize >= PACKET_HEADER
    ensures n * PER_ENTRY <= bufSize - PACKET_HEADER
    ensures n <= available
  {
    Min(WorstCaseRows(bufSize), Min(available, cap))
  }

  /** The drop count a packet reports: what is new since the last report, saturating at 32 bits. */
  function Report(dropped: nat, reported: nat): nat
    requires reported <= dropped
  {
    Min(dropped - reported, U32 - 1)
  }

  /** What telling the receiver of drops means: with `before` reported of `dropped`, a packet that says `told` brings
      the client up to date, or says 2^32 - 1 when that is not enough, and the rest stays to be reported. */
  ghost predicate TellsDrops(dropped: nat, before: nat, after: nat, told: nat) {
    && after == before + told
    && (dropped - before < 0x1_0000_0000 ==> after == dropped)
    && (dropped - before >= 0x1_0000_0000 ==> told == 0xFFFF_FFFF)
  }

  /** How a packed call begins: it returns at once, or enters its loop in a mode. */
  datatype Begun = Return(rc: int, call: Call) | Enter(mode: Mode, call: Call)

  function BeginPacked(cursor: nat, dropped: nat, head: nat, cap: nat, bufSize: nat): Begun {
    var first := StartCall(cursor, dropped, head, cap);
    if first.cursor >= head then Return(0, first)
    else if bufSize < PACKET_HEADER then Return(-1, first)
    else
      var m := MaxEntries(bufSize, head - first.cursor, cap);
      if m == 0 then Return(0, first) else Enter(Pack(bufSize, m), first)
  }

  /** A mode a packed call can be in: the table is sized for worst-case payloads. */
  predicate ValidMode(m: Mode) {
    m.Pack? ==> 0 < m.maxEntries && PACKET_HEADER + m.maxEntries * PER_ENTRY <= m.bufSize
  }

  predicate ValidOut(out: seq<Delivery>) {
    forall i :: 0 <= i < |out| ==> ValidEntry(out[i].entry)
  }

  lemma {:induction false} PayloadTotalBound(out: seq<Delivery>)
    requires ValidOut(out)
    ensures PayloadTotal(out) <= MAX_PAYLOAD * |out|
  {
    if |out| > 0 {
      PayloadTotalBound(out[..|out| - 1]);
      assert ValidEntry(out[|out| - 1].entry);
    }
  }

  /** The account of a running call that began at `first`. */
  ghost predicate CallInv(m: Mode, first: Call, a: Call, head: nat) {
    && ValidOut(a.out) && a.bytes == PayloadTotal(a.out)
    && first.cursor <= a.cursor && first.dropped <= a.dropped
    && (a.cursor <= head || a.cursor == first.cursor)
    // conservation: every slot passed is delivered, filtered, dropped or lost
    && a.cursor - first.cursor == |a.out| + a.filtered + (a.dropped - first.dropped) + a.lost
    // deliveries carry strictly increasing slots inside the window of the call
    && (forall i :: 0 <= i < |a.out| ==> first.cursor <= a.out[i].slot < a.cursor)
    && (forall i, j :: 0 <= i < j < |a.out| ==> a.out[i].slot < a.out[j].slot)
    && (m.Emit? ==> a.lost == 0)
    && (m.Pack? ==>
          && |a.out| <= Rows(m)
          && a.lost <= 1
          && (a.lost == 1 ==> a.stopped && |a.out| == Rows(m)))
  }

  /** The payload-space test cannot fail while the table has a free row. */
  lemma PayloadFitsWhileRowsRemain(m: Mode, out: seq<Delivery>, e: Entry)
    requires m.Pack? && ValidMode(m) && ValidOut(out) && ValidEntry(e) && |out| < Rows(m)
    ensures PayloadTotal(out) + |e.payload| <= PayloadCapacity(m)
  {
    PayloadTotalBound(out);
    assert |out| + 1 <= m.maxEntries;
    assert MAX_PAYLOAD * (|out| + 1) <= MAX_PAYLOAD * m.maxEntries;
  }

  lemma IterateKeepsCallInv(f: Filter, m: Mode, first: Call, a: Call, o: Obs, head: nat)
    requires ValidMode(m) && CallInv(m, first, a, head) && !Finished(a, head)
    requires o.before == a.cursor + 1 && o.after == o.before ==> ValidEntry(o.entry)
    ensures CallInv(m, first, Iterate(f, m, a, o), head)
  {
    if o.before == a.cursor + 1 && o.after == o.before && Accepts(f, o.entry.id) {
      var d := Delivery(a.cursor, o.entry);
      assert (a.out + [d])[..|a.out|] == a.out;
      if m.Pack? && |a.out| < Rows(m) {
        PayloadFitsWhileRowsRemain(m, a.out, o.entry);
      }
    }
  }

  ghost predicate ValidView(view: nat -> Obs, from: nat, head: nat) {
    forall s :: from <= s < head && view(s).before == s + 1 && view(s).after == s + 1 ==> ValidEntry(view(s).entry)
  }

  lemma {:induction false} LoopKeepsCallInv(f: Filter, m: Mode, first: Call, a: Call, view: nat -> Obs, head: nat)
    requires ValidMode(m) && CallInv(m, first, a, head) && ValidView(view, a.cursor, head)
    ensures CallInv(m, first, Loop(f, m, a, view, head), head)
    ensures Finished(Loop(f, m, a, view, head), head)
    decreases if Finished(a, head) then 0 else 1 + head - a.cursor
  {
    if !Finished(a, head) {
      var b := Iterate(f, m, a, view(a.cursor));
      IterateKeepsCallInv(f, m, first, a, view(a.cursor), head);
      LoopKeepsCallInv(f, m, first, b, view, head);
    }
  }

  /** What a packed call would take with room without end: the committed, untorn, accepted slots up to the first
      uncommitted one. */
  function Due(f: Filter, view: nat -> Obs, s: nat, head: nat): nat
    decreases head - s
  {
    if s >= head || view(s).before != s + 1 then 0
    else (if view(s).after == s + 1 && Accepts(f, view(s).entry.id) then 1 else 0) + Due(f, view, s + 1, head)
  }

  lemma {:induction false} DueBound(f: Filter, view: nat -> Obs, s: nat, head: nat)
    requires s <= head
    ensures Due(f, view, s, head) <= head - s
    decreases head - s
  {
    if s < head { DueBound(f, view, s + 1, head); }
  }

  /** The loop takes what is due, or loses an entry on the way. */
  lemma {:induction false} LoopTakesDue(f: Filter, m: Mode, a: Call, view: nat -> Obs, head: nat)
    requires m.Pack? && !a.stopped
    ensures
      var b, due := Loop(f, m, a, view, head), Due(f, view, a.cursor, head);
      && a.lost <= b.lost
      && |b.out| + (b.lost - a.lost) <= |a.out| + due
      && (b.lost == a.lost ==> |b.out| == |a.out| + due)
    decreases head - a.cursor
  {
    if a.cursor < head {
      var b := Iterate(f, m, a, view(a.cursor));
      if !b.stopped { LoopTakesDue(f, m, b, view, head); }
    }
  }

  /** Exactly when a finished packed call has lost an entry: more was due than its table has rows. */
  lemma LossIffTooMuchDue(f: Filter, m: Mode, first: Call, a: Call, b: Call, view: nat -> Obs, head: nat)
    requires m.Pack? && !a.stopped && a.lost == 0 && b == Loop(f, m, a, view, head) && CallInv(m, first, b, head)
    ensures b.lost == 1 <==> |a.out| + Due(f, view, a.cursor, head) > Rows(m)
    ensures |b.out| == Min(|a.out| + Due(f, view, a.cursor, head), Rows(m))
  {
    LoopTakesDue(f, m, a, view, head);
  }

  /** The account of a finished packed call of which `due` entries were due. */
  ghost predicate Accounted(m: Mode, first: Call, a: Call, due: nat, head: nat)
    requires m.Pack?
  {
    && a.cursor - first.cursor == |a.out| + a.filtered + (a.dropped - first.dropped) + a.lost
    && a.lost <= 1 && a.cursor <= head
    && |a.out| == Min(due, m.maxEntries % U16)
    && (a.lost == 1 <==> due > m.maxEntries % U16)
    && (m.maxEntries < U16 ==> (a.lost == 1 <==> due > WorstCaseRows(m.bufSize)))
  }

  lemma CastExact(m: Mode, available: nat, cap: nat, due: nat)
    requires m.Pack? && PACKET_HEADER <= m.bufSize && due <= available <= cap
    requires m.maxEntries == MaxEntries(m.bufSize, available, cap) < U16
    ensures due > m.maxEntries % U16 <==> due > WorstCaseRows(m.bufSize)
  {
  }

  /** The accounting of one packed call, for every observation the shared ring can produce.  It packs what is due
      up to the cast `max_entries`, and it loses an entry if and only if more is due; when the cast is exact, that
      is if more is due than worst-case entries fit the buffer. */
  lemma PackedCallAccount(f: Filter, first: Call, view: nat -> Obs, head: nat, cap: nat, bufSize: nat)
    requires PACKET_HEADER <= bufSize && first == StartCall(first.cursor, first.dropped, head, cap)
    requires first.cursor < head <= first.cursor + cap
    requires ValidView(view, first.cursor, head)
    requires MaxEntries(bufSize, head - first.cursor, cap) > 0
    ensures
      var m := Pack(bufSize, MaxEntries(bufSize, head - first.cursor, cap));
      Accounted(m, first, Loop(f, m, first, view, head), Due(f, view, first.cursor, head), head)
  {
    var m := Pack(bufSize, MaxEntries(bufSize, head - first.cursor, cap));
    var a := Loop(f, m, first, view, head);
    LoopKeepsCallInv(f, m, first, first, view, head);
    LossIffTooMuchDue(f, m, first, first, a, view, head);
    DueBound(f, view, first.cursor, head);
    if m.maxEntries < U16 { CastExact(m, head - first.cursor, cap, Due(f, view, first.cursor, head)); }
  }

  /** When the 16-bit cast truncates to zero the first accepted entry is consumed and nothing is packed:
      the bound above is exact in the cast value, not in `max_entries`. */
  lemma CastToZeroLosesFirstEntry(f: Filter, first: Call, view: nat -> Obs, head: nat, m: Mode)
    requires m.Pack? && m.maxEntries > 0 && m.maxEntries % U16 == 0
    requires first.cursor < head && first.out == [] && first.bytes == 0 && !first.stopped
    requires view(first.cursor).before == view(first.cursor).after == first.cursor + 1
    requires Accepts(f, view(first.cursor).entry.id)
    ensures var a := Loop(f, m, first, view, head);
      a.out == [] && a.lost == first.lost + 1 && a.cursor == first.cursor + 1
  {
    var b := Iterate(f, m, first, view(first.cursor));
    assert b.stopped;
    assert Loop(f, m, first, view, head) == Loop(f, m, b, view, head) == b;
  }

  // ---------------------------------------------------------------------------------------------------
  // A call replayed from the list of its observations, one per iteration.

  function Replay(f: Filter, m: Mode, first: Call, obs: seq<Obs>): Call {
    if |obs| == 0 then first else Iterate(f, m, Replay(f, m, first, obs[..|obs| - 1]), obs[|obs| - 1])
  }

  /** Each observation was made by an unfinished call, one slot further than the one before. */
  ghost predicate Advancing(f: Filter, m: Mode, first: Call, obs: seq<Obs>, head: nat) {
    |obs| == 0 ||
    var init := obs[..|obs| - 1];
    var a := Replay(f, m, first, init);
    Advancing(f, m, first, init, head) && a.cursor == first.cursor + |init| && !Finished(a, head)
  }

  function ViewOf(from: nat, obs: seq<Obs>): nat -> Obs {
    (s: nat) => if from <= s < from + |obs| then obs[s - from] else Obs(0, Entry(0, 0, []), 0, false)
  }

  lemma {:induction false} LoopReplays(f: Filter, m: Mode, first: Call, obs: seq<Obs>, view: nat -> Obs, head: nat)
    requires Advancing(f, m, first, obs, head)
    requires forall k :: 0 <= k < |obs| ==> view(first.cursor + k) == obs[k]
    ensures Loop(f, m, first, view, head) == Loop(f, m, Replay(f, m, first, obs), view, head)
  {
    if |obs| > 0 {
      var init := obs[..|obs| - 1];
      LoopReplays(f, m, first, init, view, head);
      assert view(first.cursor + |init|) == obs[|obs| - 1];
    }
  }

  /** Replaying a finished list of observations is the whole-call loop over the view they define. */
  lemma ReplayIsLoop(f: Filter, m: Mode, first: Call, obs: seq<Obs>, head: nat)
    requires Advancing(f, m, first, obs, head) && Finished(Replay(f, m, first, obs), head)
    ensures Loop(f, m, first, ViewOf(first.cursor, obs), head) == Replay(f, m, first, obs)
  {
    LoopReplays(f, m, first, obs, ViewOf(first.cursor, obs), head);
  }

  // ---------------------------------------------------------------------------------------------------
  // A quiescent ring: every slot still held is published.

  /** Entries of `log` from `from` on that pass the filter, with their slots. */
  function Selected(f: Filter, log: seq<Entry>, from: nat): seq<Delivery>
    requires from <= |log|
    decreases |log| - from
  {
    if from == |log| then []
    else (if Accepts(f, log[from].id) then [Delivery(from, log[from])] else []) + Selected(f, log, from + 1)
  }

  ghost predicate Quiescent(view: nat -> Obs, log: seq<Entry>, from: nat)
    requires from <= |log|
  {
    forall s :: from <= s < |log| ==> view(s) == Obs(s + 1, log[s], s + 1, false)
  }

  lemma {:induction false} QuiescentLoop(f: Filter, a: Call, view: nat -> Obs, log: seq<Entry>)
    requires a.cursor <= |log| && !a.stopped && Quiescent(view, log, a.cursor)
    ensures var b := Loop(f, Emit, a, view, |log|);
      && b.out == a.out + Selected(f, log, a.cursor)
      && b.cursor == |log| && b.dropped == a.dropped && b.lost == a.lost
    decreases |log| - a.cursor
  {
    if a.cursor < |log| {
      var b := Iterate(f, Emit, a, view(a.cursor));
      QuiescentLoop(f, b, view, log);
      assert Loop(f, Emit, a, view, |log|) == Loop(f, Emit, b, view, |log|);
    }
  }

  /** `btelem_client_available`: entries readable and entries already overwritten.  The C code leaves the
      drop count alone when nothing is available (`Untouched`). */
  datatype Availability = Availability(available: nat, dropped: DropCount)
  datatype DropCount = Untouched | Overwritten(n: nat)

  function Available(cursor: nat, head: nat, cap: nat): Availability {
    if head > cursor then
      var oldest := if head > cap then head - cap else 0;
      if cursor < oldest then Availability(head - oldest, Overwritten(oldest - cursor))
      else Availability(head - cursor, Overwritten(0))
    else Availability(0, Untouched)
  }

  /** One full drain with an accepting callback delivers exactly the filtered last min(head - cursor,
      capacity) entries ever logged, ends at the head, and drops the rest; the availability query announced
      both numbers. */
  ghost predicate DrainsEverything(f: Filter, cursor: nat, dropped: nat, cap: nat, view: nat -> Obs, log: seq<Entry>)
    requires cursor <= |log|
  {
    var a := Loop(f, Emit, StartCall(cursor, dropped, |log|, cap), view, |log|);
    var n := Min(|log| - cursor, cap);
    && a.out == Selected(f, log, |log| - n)
    && a.cursor == |log|
    && a.dropped == dropped + (|log| - cursor - n)
    && (cursor < |log| ==> Available(cursor, |log|, cap) == Availability(n, Overwritten(a.dropped - dropped)))
  }

  lemma FullDrain(f: Filter, cursor: nat, dropped: nat, cap: nat, view: nat -> Obs, log: seq<Entry>)
    requires cursor <= |log| && Quiescent(view, log, SkipCursor(cursor, |log|, cap))
    ensures DrainsEverything(f, cursor, dropped, cap, view, log)
  {
    QuiescentLoop(f, StartCall(cursor, dropped, |log|, cap), view, log);
  }
}
