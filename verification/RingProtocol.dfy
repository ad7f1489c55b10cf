/**
  The lock-free ring as an interleaved transition system.  Each step makes at most one access to shared
  memory.  Producers run BTELEM_LOG_ID: claim a slot, zero its sequence number, write the record word by
  word in any order, publish.  Consumers run the drain loops: load the head, poll a sequence number, copy
  the record word by word in any order, poll again.  `log` is a ghost: record number s is what the producer
  that claimed slot s set out to write.
*/
module RingProtocol {
  import opened Bytes
  import opened DrainCore
  import Bits

  type Tid = nat
  type Cid = nat

  const MAX_CLIENTS: nat := 8

  // ------------------------------------------------------------------------------------------- records

  /** Words of a record: timestamp, id, size, then one word per payload byte. */
  const WORDS: nat := 3 + MAX_PAYLOAD

  function Size(e: Entry): nat { 3 + |e.payload| }

  function Word(e: Entry, k: nat): nat
    requires k < Size(e)
  {
    if k == 0 then e.timestamp else if k == 1 then e.id else if k == 2 then |e.payload| else e.payload[k - 3]
  }

  predicate ValidWord(k: nat, v: nat) {
    if k == 0 then v < U64 else if k == 1 then v < MAX_IDS else if k == 2 then v <= MAX_PAYLOAD else v < 256
  }

  datatype Cell = Cell(seqno: nat, words: seq<nat>)

  predicate ValidCell(c: Cell) {
    |c.words| == WORDS && forall k :: 0 <= k < WORDS ==> ValidWord(k, c.words[k])
  }

  ghost predicate Holds(c: Cell, e: Entry) {
    |c.words| == WORDS && Size(e) <= WORDS && forall k :: 0 <= k < Size(e) ==> c.words[k] == Word(e, k)
  }

  ghost predicate ValidLocal(local: map<nat, nat>) {
    forall k :: k in local ==> k < WORDS && ValidWord(k, local[k])
  }

  predicate Copied(local: map<nat, nat>) {
    forall k :: 0 <= k < WORDS ==> k in local
  }

  /** The record a complete copy stands for. */
  function Assemble(local: map<nat, nat>): (e: Entry)
    requires ValidLocal(local) && Copied(local)
    ensures ValidEntry(e)
  {
    assert ValidWord(2, local[2]);
    var size := local[2];
    Entry(local[0], local[1],
          seq(size, i requires 0 <= i < size => assert ValidWord(3 + i, local[3 + i]); local[3 + i]))
  }

  // --------------------------------------------------------------------------------------------- state

  datatype Logged = Logged(tid: Tid, nth: nat, entry: Entry)

  /** A producer between claim and publish. */
  datatype Writer = Writer(slot: nat, cleared: bool, written: set<nat>)

  /** A drain call in progress; `obs` is a ghost list of what it has observed. */
  datatype Active = Active(mode: Mode, head: nat, first: Call, obs: seq<Obs>, now: Call)

  datatype Pc = Idle | Polling(call: Active) | Copying(call: Active, local: map<nat, nat>)

  /** A finished call. */
  datatype Done = Done(filter: Filter, mode: Mode, head: nat, first: Call, obs: seq<Obs>, last: Call)

  datatype Packet = Packet(entries: seq<Delivery>, dropped: nat)

  /** A client: its C fields, and the ghost account of its whole life. */
  datatype Client = Client(
    cursor: nat, dropped: nat, reported: nat, filter: Filter,
    openedAt: nat, delivered: seq<Delivery>, filtered: nat, lost: nat,
    packets: seq<Packet>, done: seq<Done>, pc: Pc)

  datatype State = State(
    cap: nat, head: nat, cells: seq<Cell>, log: seq<Logged>, issued: map<Tid, nat>,
    writers: map<Tid, Writer>, clients: map<Cid, Client>)

  /** The cell of a slot: `slot mod cap`, by casting out laps (WrapIsMod). */
  function Wrap(cap: nat, slot: nat): (i: nat)
    requires cap > 0
    ensures i < cap
    decreases slot
  {
    if slot < cap then slot else Wrap(cap, slot - cap)
  }

  lemma {:induction false} WrapIsMod(cap: nat, slot: nat)
    requires cap > 0
    ensures Wrap(cap, slot) == slot % cap
    decreases slot
  {
    if slot < cap {
      Bits.RemainderUnique(cap, slot, 0, slot);
    } else {
      WrapIsMod(cap, slot - cap);
      ModStep(cap, slot - cap);
    }
  }

  lemma ModStep(d: nat, n: nat)
    requires d > 0
    ensures (n + d) % d == n % d
  {
    var q, r := n / d, n % d;
    assert n == d * q + r;
    assert d * (q + 1) == d * q + d;
    Bits.DivNonNegative(n, d);
    Bits.RemainderUnique(d, n + d, q + 1, r);
  }

  function CellOf(s: State, slot: nat): nat
    requires s.cap > 0
  {
    Wrap(s.cap, slot)
  }

  predicate Init(s: State) {
    && s.cap > 0 && s.head == 0 && |s.cells| == s.cap
    && (forall i :: 0 <= i < s.cap ==> s.cells[i] == Cell(0, Zeros(WORDS)))
    && s.log == [] && s.issued == map[] && s.writers == map[] && s.clients == map[]
  }

  // --------------------------------------------------------------------------------------------- steps

  datatype Request = DrainRequest | PackedRequest(bufSize: nat)

  datatype Step =
    | Claim(tid: Tid, entry: Entry)
    | Clear(tid: Tid)
    | Write(tid: Tid, k: nat)
    | Publish(tid: Tid)
    | Open(cid: Cid, filter: Filter)
    | Close(cid: Cid)
    | SetFilter(cid: Cid, filter: Filter)
    | Begin(cid: Cid, request: Request)
    | Poll(cid: Cid)
    | Copy(cid: Cid, k: nat)
    | Recheck(cid: Cid, stop: bool)
    | Finish(cid: Cid)

  ghost predicate Enabled(s: State, step: Step)
    requires s.cap > 0 && |s.cells| == s.cap
  {
    match step
    case Claim(t, e) => t !in s.writers && ValidEntry(e)
    case Clear(t) => t in s.writers && !s.writers[t].cleared
    case Write(t, k) =>
      && t in s.writers && s.writers[t].cleared && s.writers[t].slot < |s.log|
      && k < Size(s.log[s.writers[t].slot].entry) && k < |s.cells[CellOf(s, s.writers[t].slot)].words|
      && k !in s.writers[t].written
    case Publish(t) =>
      && t in s.writers && s.writers[t].cleared && s.writers[t].slot < |s.log|
      && forall k :: 0 <= k < Size(s.log[s.writers[t].slot].entry) ==> k in s.writers[t].written
    case Open(c, f) => c !in s.clients && c < MAX_CLIENTS
    case Close(c) => c in s.clients && s.clients[c].pc.Idle?
    case SetFilter(c, f) => c in s.clients && s.clients[c].pc.Idle?
    case Begin(c, r) => c in s.clients && s.clients[c].pc.Idle?
    case Poll(c) =>
      && c in s.clients && s.clients[c].pc.Polling?
      && !Finished(s.clients[c].pc.call.now, s.clients[c].pc.call.head)
    case Copy(c, k) =>
      && c in s.clients && s.clients[c].pc.Copying? && k < WORDS && k !in s.clients[c].pc.local
      && k < |s.cells[CellOf(s, s.clients[c].pc.call.now.cursor)].words|
    case Recheck(c, _) =>
      && c in s.clients && s.clients[c].pc.Copying? && Copied(s.clients[c].pc.local)
      && ValidLocal(s.clients[c].pc.local)
    case Finish(c) =>
      && c in s.clients && s.clients[c].pc.Polling?
      && Finished(s.clients[c].pc.call.now, s.clients[c].pc.call.head)
  }

  function BeginClient(c: Client, r: Request, head: nat, cap: nat): Client {
    var first := StartCall(c.cursor, c.dropped, head, cap);
    var skipped := c.(cursor := first.cursor, dropped := first.dropped);
    match r
    case DrainRequest => skipped.(pc := Polling(Active(Emit, head, first, [], first)))
    case PackedRequest(bufSize) =>
      match BeginPacked(c.cursor, c.dropped, head, cap, bufSize)
      case Return(_, _) => skipped
      case Enter(m, _) => skipped.(pc := Polling(Active(m, head, first, [], first)))
  }

  /** One iteration's observation, applied. */
  function Observe(c: Client, call: Active, o: Obs): Client {
    c.(pc := Polling(call.(obs := call.obs + [o], now := Iterate(c.filter, call.mode, call.now, o))))
  }

  function PollClient(c: Client, seqno: nat): Client
    requires c.pc.Polling?
  {
    if seqno != c.pc.call.now.cursor + 1 then Observe(c, c.pc.call, Obs(seqno, Entry(0, 0, []), seqno, false))
    else c.(pc := Copying(c.pc.call, map[]))
  }

  function CopyClient(c: Client, k: nat, v: nat): Client
    requires c.pc.Copying?
  {
    c.(pc := Copying(c.pc.call, c.pc.local[k := v]))
  }

  function RecheckClient(c: Client, seqno: nat, stop: bool): Client
    requires c.pc.Copying? && ValidLocal(c.pc.local) && Copied(c.pc.local)
  {
    Observe(c, c.pc.call, Obs(c.pc.call.now.cursor + 1, Assemble(c.pc.local), seqno, stop))
  }

  function FinishClient(c: Client): Client
    requires c.pc.Polling?
  {
    var call := c.pc.call;
    var a := call.now;
    var d := c.(
      cursor := a.cursor, dropped := a.dropped, delivered := c.delivered + a.out,
      filtered := c.filtered + a.filtered, lost := c.lost + a.lost,
      done := c.done + [Done(c.filter, call.mode, call.head, call.first, call.obs, a)], pc := Idle);
    if call.mode.Pack? && |a.out| > 0 && c.reported <= a.dropped then
      var n := Report(a.dropped, c.reported);
      d.(packets := c.packets + [Packet(a.out, n)], reported := c.reported + n)
    else d
  }

  function WithClient(s: State, cid: Cid, c: Client): State {
    s.(clients := s.clients[cid := c])
  }

  ghost function Apply(s: State, step: Step): State
    requires s.cap > 0 && |s.cells| == s.cap
    requires Enabled(s, step)
  {
    match step
    case Claim(t, e) =>
      var nth := if t in s.issued then s.issued[t] else 0;
      s.(head := s.head + 1, log := s.log + [Logged(t, nth, e)], issued := s.issued[t := nth + 1],
         writers := s.writers[t := Writer(s.head, false, {})])
    case Clear(t) =>
      var i := CellOf(s, s.writers[t].slot);
      s.(cells := s.cells[i := s.cells[i].(seqno := 0)], writers := s.writers[t := s.writers[t].(cleared := true)])
    case Write(t, k) =>
      var w := s.writers[t];
      var i := CellOf(s, w.slot);
      var v := Word(s.log[w.slot].entry, k);
      s.(cells := s.cells[i := s.cells[i].(words := s.cells[i].words[k := v])],
         writers := s.writers[t := w.(written := w.written + {k})])
    case Publish(t) =>
      var w := s.writers[t];
      var i := CellOf(s, w.slot);
      s.(cells := s.cells[i := s.cells[i].(seqno := w.slot + 1)], writers := s.writers - {t})
    case Open(c, f) =>
      WithClient(s, c, Client(s.head, 0, 0, f, s.head, [], 0, 0, [], [], Idle))
    case Close(c) => s.(clients := s.clients - {c})
    case SetFilter(c, f) => WithClient(s, c, s.clients[c].(filter := f))
    case Begin(c, r) => WithClient(s, c, BeginClient(s.clients[c], r, s.head, s.cap))
    case Poll(c) =>
      WithClient(s, c, PollClient(s.clients[c], s.cells[CellOf(s, s.clients[c].pc.call.now.cursor)].seqno))
    case Copy(c, k) =>
      var cl := s.clients[c];
      var v := s.cells[CellOf(s, cl.pc.call.now.cursor)].words[k];
      WithClient(s, c, CopyClient(cl, k, v))
    case Recheck(c, stop) =>
      var cl := s.clients[c];
      WithClient(s, c, RecheckClient(cl, s.cells[CellOf(s, cl.pc.call.now.cursor)].seqno, stop))
    case Finish(c) => WithClient(s, c, FinishClient(s.clients[c]))
  }

  ghost predicate Next(s: State, s': State) {
    s.cap > 0 && |s.cells| == s.cap && exists step :: Enabled(s, step) && s' == Apply(s, step)
  }

  /** The discipline under which the protocol is sound: a slot is published before its cell is claimed for
      the next lap, so no cell ever has two writers in flight. */
  ghost predicate NoOverlap(s: State) {
    forall t :: t in s.writers ==> s.head <= s.writers[t].slot + s.cap
  }

  ghost predicate StepAt(tr: seq<State>, i: nat)
    requires i + 1 < |tr|
  {
    Next(tr[i], tr[i + 1])
  }

  ghost predicate Run(tr: seq<State>) {
    && |tr| > 0 && Init(tr[0])
    && forall i :: 0 <= i < |tr| - 1 ==> StepAt(tr, i)
  }

  ghost predicate Disciplined(tr: seq<State>) {
    forall i :: 0 <= i < |tr| ==> NoOverlap(tr[i])
  }

  // ---------------------------------------------------------------------------------- ring invariants

  ghost predicate WriterInv(s: State, w: Writer)
    requires s.cap > 0 && |s.cells| == s.cap
  {
    && w.slot < |s.log|
    && (!w.cleared ==> w.written == {})
    && (w.cleared ==>
          var c := s.cells[CellOf(s, w.slot)];
          && c.seqno == 0 && |c.words| == WORDS
          && forall k :: k in w.written ==>
            k < Size(s.log[w.slot].entry) && k < WORDS && c.words[k] == Word(s.log[w.slot].entry, k))
  }

  /** A nonzero sequence number names a published slot of this very cell, whose record the cell holds. */
  ghost predicate CellInv(s: State, i: nat)
    requires s.cap > 0 && |s.cells| == s.cap && i < s.cap
  {
    var q := s.cells[i].seqno;
    && ValidCell(s.cells[i])
    && (q > 0 ==>
          && q - 1 < |s.log| && CellOf(s, q - 1) == i
          && Holds(s.cells[i], s.log[q - 1].entry)
          && forall t :: t in s.writers ==> s.writers[t].slot != q - 1)
  }

  ghost predicate LogInv(s: State) {
    && |s.log| == s.head
    && (forall i :: 0 <= i < |s.log| ==>
          ValidEntry(s.log[i].entry) && s.log[i].tid in s.issued && s.log[i].nth < s.issued[s.log[i].tid])
    && (forall i, j :: 0 <= i < j < |s.log| && s.log[i].tid == s.log[j].tid ==> s.log[i].nth < s.log[j].nth)
  }

  ghost predicate RingInv(s: State) {
    && s.cap > 0 && |s.cells| == s.cap && LogInv(s)
    && WritersInv(s) && CellsInv(s) && Readable(s)
  }

  ghost predicate WritersInv(s: State)
    requires s.cap > 0 && |s.cells| == s.cap
  {
    && (forall t :: t in s.writers ==> WriterInv(s, s.writers[t]))
    && (forall t, u :: t in s.writers && u in s.writers && t != u ==> s.writers[t].slot != s.writers[u].slot)
  }

  ghost predicate CellsInv(s: State)
    requires s.cap > 0 && |s.cells| == s.cap
  {
    forall i :: 0 <= i < s.cap ==> CellInv(s, i)
  }

  /** A slot of the current lap that nobody is writing is readable. */
  ghost predicate Readable(s: State)
    requires s.cap > 0 && |s.cells| == s.cap
  {
    forall q :: 0 <= q < s.head <= q + s.cap && Published(s, q) ==> s.cells[CellOf(s, q)].seqno == q + 1
  }

  ghost predicate Published(s: State, slot: nat) {
    slot < s.head && forall t :: t in s.writers ==> s.writers[t].slot != slot
  }

  lemma {:induction false} SameCell(cap: nat, a: nat, b: nat)
    requires cap > 0 && Wrap(cap, a) == Wrap(cap, b) && a < b
    ensures a + cap <= b
    decreases b
  {
    if b < a + cap {
      if a >= cap {
        SameCell(cap, a - cap, b - cap);
      }
    }
  }

  /** Two slots of one lap window live in different cells. */
  lemma DistinctCells(s: State, a: nat, b: nat)
    requires s.cap > 0 && a < s.head <= a + s.cap && b < s.head <= b + s.cap && a != b
    ensures CellOf(s, a) != CellOf(s, b)
  {
    if Wrap(s.cap, a) == Wrap(s.cap, b) {
      if a < b { SameCell(s.cap, a, b); } else { SameCell(s.cap, b, a); }
    }
  }

  lemma WritersApart(s: State, t: Tid)
    requires RingInv(s) && NoOverlap(s) && t in s.writers
    ensures forall u :: u in s.writers && u != t ==> CellOf(s, s.writers[u].slot) != CellOf(s, s.writers[t].slot)
    ensures forall q :: 0 <= q < s.head <= q + s.cap && q != s.writers[t].slot ==>
      CellOf(s, q) != CellOf(s, s.writers[t].slot)
  {
    forall u | u in s.writers && u != t
      ensures CellOf(s, s.writers[u].slot) != CellOf(s, s.writers[t].slot)
    {
      assert WriterInv(s, s.writers[u]) && WriterInv(s, s.writers[t]);
      DistinctCells(s, s.writers[u].slot, s.writers[t].slot);
    }
    forall q | 0 <= q < s.head <= q + s.cap && q != s.writers[t].slot
      ensures CellOf(s, q) != CellOf(s, s.writers[t].slot)
    {
      assert WriterInv(s, s.writers[t]);
      DistinctCells(s, q, s.writers[t].slot);
    }
  }

  lemma ClaimKeepsRing(s: State, t: Tid, e: Entry)
    requires RingInv(s) && Enabled(s, Claim(t, e))
    ensures RingInv(Apply(s, Claim(t, e)))
  {
    var s' := Apply(s, Claim(t, e));
    ClaimKeepsWriters(s, t, e);
    forall i | 0 <= i < s'.cap ensures CellInv(s', i) {
      assert CellInv(s, i);
    }
    forall q | 0 <= q < s'.head <= q + s'.cap && Published(s', q) ensures s'.cells[CellOf(s', q)].seqno == q + 1 {
      assert s'.writers[t].slot == s.head;
      assert q < s.head && Published(s, q) by {
        forall u | u in s.writers ensures s.writers[u].slot != q {
          assert u != t ==> u in s'.writers && s'.writers[u] == s.writers[u];
        }
      }
    }
  }

  lemma ClaimKeepsWriters(s: State, t: Tid, e: Entry)
    requires RingInv(s) && Enabled(s, Claim(t, e))
    ensures WritersInv(Apply(s, Claim(t, e)))
  {
    var s' := Apply(s, Claim(t, e));
    forall u | u in s'.writers ensures WriterInv(s', s'.writers[u]) {
      if u != t { assert WriterInv(s, s.writers[u]); }
    }
    forall u, v | u in s'.writers && v in s'.writers && u != v ensures s'.writers[u].slot != s'.writers[v].slot {
      if u != t { assert WriterInv(s, s.writers[u]); }
      if v != t { assert WriterInv(s, s.writers[v]); }
    }
  }

  /** A step of writer `t` changes at most its own cell and its own program counter. */
  ghost predicate Touches(s: State, s': State, t: Tid) {
    && RingInv(s) && NoOverlap(s) && t in s.writers
    && s' == s.(cells := s'.cells, writers := s'.writers)
    && |s'.cells| == |s.cells|
    && (forall i :: 0 <= i < s.cap && i != CellOf(s, s.writers[t].slot) ==> s'.cells[i] == s.cells[i])
    && (forall u :: u != t ==> (u in s'.writers <==> u in s.writers))
    && (forall u :: u != t && u in s.writers ==> s'.writers[u] == s.writers[u])
    && (t in s'.writers ==> s'.writers[t].slot == s.writers[t].slot)
  }

  lemma TouchKeepsWriters(s: State, s': State, t: Tid)
    requires Touches(s, s', t)
    requires t in s'.writers ==> WriterInv(s', s'.writers[t])
    ensures WritersInv(s')
  {
    WritersApart(s, t);
    forall u | u in s'.writers && u != t ensures WriterInv(s', s'.writers[u]) {
      assert WriterInv(s, s.writers[u]);
    }
  }

  lemma TouchKeepsCells(s: State, s': State, t: Tid)
    requires Touches(s, s', t)
    requires CellInv(s', CellOf(s, s.writers[t].slot))
    ensures CellsInv(s')
  {
    forall i | 0 <= i < s'.cap ensures CellInv(s', i) {
      assert CellInv(s, i);
      if s.cells[i].seqno > 0 {
        forall u | u in s'.writers ensures s'.writers[u].slot != s.cells[i].seqno - 1 {
          assert u in s.writers && s.writers[u].slot == s'.writers[u].slot;
        }
      }
    }
  }

  lemma TouchKeepsReadable(s: State, s': State, t: Tid)
    requires Touches(s, s', t)
    requires t !in s'.writers ==> s'.cells[CellOf(s, s.writers[t].slot)].seqno == s.writers[t].slot + 1
    ensures Readable(s')
  {
    WritersApart(s, t);
    forall q | 0 <= q < s'.head <= q + s'.cap && Published(s', q)
      ensures s'.cells[CellOf(s', q)].seqno == q + 1
    {
      if q != s.writers[t].slot {
        forall u | u in s.writers ensures s.writers[u].slot != q {
          if u != t { assert u in s'.writers; }
        }
        assert Published(s, q);
      }
    }
  }

  lemma ClearKeepsRing(s: State, t: Tid)
    requires RingInv(s) && NoOverlap(s) && Enabled(s, Clear(t))
    ensures RingInv(Apply(s, Clear(t)))
  {
    var s' := Apply(s, Clear(t));
    assert WriterInv(s, s.writers[t]) && CellInv(s, CellOf(s, s.writers[t].slot));
    TouchKeepsWriters(s, s', t);
    TouchKeepsCells(s, s', t);
    TouchKeepsReadable(s, s', t);
  }

  lemma WriteKeepsRing(s: State, t: Tid, k: nat)
    requires RingInv(s) && NoOverlap(s) && Enabled(s, Write(t, k))
    ensures RingInv(Apply(s, Write(t, k)))
  {
    var s' := Apply(s, Write(t, k));
    var e := s.log[s.writers[t].slot].entry;
    assert WriterInv(s, s.writers[t]) && CellInv(s, CellOf(s, s.writers[t].slot));
    assert ValidEntry(e) && ValidWord(k, Word(e, k));
    TouchKeepsWriters(s, s', t);
    TouchKeepsCells(s, s', t);
    TouchKeepsReadable(s, s', t);
  }

  lemma PublishKeepsRing(s: State, t: Tid)
    requires RingInv(s) && NoOverlap(s) && Enabled(s, Publish(t))
    ensures RingInv(Apply(s, Publish(t)))
  {
    var s' := Apply(s, Publish(t));
    var i := CellOf(s, s.writers[t].slot);
    assert WriterInv(s, s.writers[t]) && CellInv(s, i) && ValidEntry(s.log[s.writers[t].slot].entry);
    assert Holds(s'.cells[i], s.log[s.writers[t].slot].entry);
    TouchKeepsWriters(s, s', t);
    TouchKeepsCells(s, s', t);
    TouchKeepsReadable(s, s', t);
  }

  predicate ProducerStep(step: Step) {
    step.Claim? || step.Clear? || step.Write? || step.Publish?
  }

  lemma StepKeepsRing(s: State, step: Step)
    requires RingInv(s) && NoOverlap(s) && Enabled(s, step)
    ensures RingInv(Apply(s, step))
  {
    match step
    case Claim(t, e) => ClaimKeepsRing(s, t, e);
    case Clear(t) => ClearKeepsRing(s, t);
    case Write(t, k) => WriteKeepsRing(s, t, k);
    case Publish(t) => PublishKeepsRing(s, t);
    case _ => ClientStepKeepsRing(s, step);
  }

  /** Ring facts do not mention the clients. */
  lemma RingInvFrame(s: State, s': State)
    requires RingInv(s) && s' == s.(clients := s'.clients)
    ensures RingInv(s')
  {
    forall t | t in s'.writers ensures WriterInv(s', s'.writers[t]) { assert WriterInv(s, s.writers[t]); }
    forall i | 0 <= i < s'.cap ensures CellInv(s', i) { assert CellInv(s, i); }
    forall q | 0 <= q < s'.head <= q + s'.cap && Published(s', q) ensures s'.cells[CellOf(s', q)].seqno == q + 1 {
      assert Published(s, q);
    }
  }

  lemma ClientStepKeepsRing(s: State, step: Step)
    requires RingInv(s) && Enabled(s, step) && !ProducerStep(step)
    ensures RingInv(Apply(s, step))
  {
    RingInvFrame(s, Apply(s, step));
  }
}
