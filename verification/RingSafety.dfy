/** What every client of the ring can rely on, over every interleaving of the protocol's steps. */
module RingSafety {
  import opened Bytes
  import opened DrainCore
  import opened RingProtocol
  import opened SlotFates

  // -------------------------------------------------------------------------------- the client's account

  function Cursor(c: Client): nat { if c.pc.Idle? then c.cursor else c.pc.call.now.cursor }
  function Dropped(c: Client): nat { if c.pc.Idle? then c.dropped else c.pc.call.now.dropped }
  function Filtered(c: Client): nat { if c.pc.Idle? then c.filtered else c.filtered + c.pc.call.now.filtered }
  function Lost(c: Client): nat { if c.pc.Idle? then c.lost else c.lost + c.pc.call.now.lost }
  function Delivered(c: Client): seq<Delivery> { if c.pc.Idle? then c.delivered else c.delivered + c.pc.call.now.out }

  /** Each delivery is exactly the record logged under its slot number. */
  ghost predicate Faithful(log: seq<Logged>, out: seq<Delivery>) {
    forall i :: 0 <= i < |out| ==> out[i].slot < |log| && out[i].entry == log[out[i].slot].entry
  }

  ghost predicate Increasing(out: seq<Delivery>) {
    forall i, j :: 0 <= i < j < |out| ==> out[i].slot < out[j].slot
  }

  ghost predicate Between(out: seq<Delivery>, lo: nat, hi: nat) {
    forall i :: 0 <= i < |out| ==> lo <= out[i].slot < hi
  }

  function ReportedSum(ps: seq<Packet>): nat {
    if |ps| == 0 then 0 else ReportedSum(ps[..|ps| - 1]) + ps[|ps| - 1].dropped
  }

  function PackedCalls(ds: seq<Done>): nat {
    if |ds| == 0 then 0 else PackedCalls(ds[..|ds| - 1]) + (if ds[|ds| - 1].mode.Pack? then 1 else 0)
  }

  /** The mode a call of a given window runs in. */
  ghost predicate ModeFits(cap: nat, m: Mode, first: Call, head: nat) {
    && ValidMode(m)
    && (m.Pack? ==>
          && PACKET_HEADER <= m.bufSize && first.cursor < head <= first.cursor + cap
          && m.maxEntries == MaxEntries(m.bufSize, head - first.cursor, cap))
  }

  predicate Fresh(first: Call) {
    first.filtered == 0 && first.out == [] && first.bytes == 0 && first.lost == 0 && !first.stopped
  }

  /** A finished call is a run of the whole-call loop, and its account balances. */
  ghost predicate DoneInv(cap: nat, d: Done) {
    && Fresh(d.first) && ModeFits(cap, d.mode, d.first, d.head)
    && CallInv(d.mode, d.first, d.last, d.head)
    && d.last == Loop(d.filter, d.mode, d.first, ViewOf(d.first.cursor, d.obs), d.head)
  }

  /** The call so far is the replay of its observations. */
  ghost predicate ReplayInv(f: Filter, call: Active) {
    && call.now == Replay(f, call.mode, call.first, call.obs)
    && Advancing(f, call.mode, call.first, call.obs, call.head)
    && (!call.now.stopped ==> call.now.cursor == call.first.cursor + |call.obs|)
  }

  ghost predicate ActiveInv(s: State, c: Client)
    requires !c.pc.Idle?
  {
    var call := c.pc.call;
    && call.first.cursor == c.cursor && call.first.dropped == c.dropped && Fresh(call.first)
    && c.cursor <= call.head <= s.head
    && ModeFits(s.cap, call.mode, call.first, call.head)
    && CallInv(call.mode, call.first, call.now, call.head)
    && Faithful(s.log, call.now.out)
    && ReplayInv(c.filter, call)
  }

  ghost predicate RestInv(s: State, c: Client) {
    && c.openedAt <= c.cursor <= s.head
    && c.cursor - c.openedAt == |c.delivered| + c.filtered + c.dropped + c.lost
    && Faithful(s.log, c.delivered) && Increasing(c.delivered) && Between(c.delivered, c.openedAt, c.cursor)
    && c.reported <= c.dropped && ReportedSum(c.packets) == c.reported
    && c.lost <= PackedCalls(c.done)
    && (forall i :: 0 <= i < |c.done| ==> DoneInv(s.cap, c.done[i]))
    && (forall i :: 0 <= i < |c.packets| ==> PacketInv(s.log, c.packets[i]))
  }

  /** A packet's entries are logged records in slot order, within the widths of the packet format. */
  ghost predicate PacketInv(log: seq<Logged>, p: Packet) {
    Faithful(log, p.entries) && Increasing(p.entries) && ValidOut(p.entries) && |p.entries| < U16 && p.dropped < U32
  }

  /** While copying slot q: if the cell still carries q + 1, every word copied so far is the logged one;
      and nobody will ever publish q again. */
  ghost predicate CopyInv(s: State, c: Client)
    requires s.cap > 0 && |s.cells| == s.cap && |s.log| == s.head && c.pc.Copying?
  {
    var call, local := c.pc.call, c.pc.local;
    var q := call.now.cursor;
    && !Finished(call.now, call.head) && Published(s, q) && ValidLocal(local)
    && (s.cells[CellOf(s, q)].seqno == q + 1 ==>
          forall k :: k in local && k < Size(s.log[q].entry) ==> local[k] == Word(s.log[q].entry, k))
  }

  ghost predicate ClientInv(s: State, c: Client)
    requires s.cap > 0 && |s.cells| == s.cap && |s.log| == s.head
  {
    && RestInv(s, c)
    && (!c.pc.Idle? ==> ActiveInv(s, c))
    && (c.pc.Copying? ==> CopyInv(s, c))
  }

  ghost predicate Inv(s: State) {
    RingInv(s) && forall c :: c in s.clients ==> ClientInv(s, s.clients[c])
  }

  // ------------------------------------------------------------------------------- producer steps

  /** The account only reads a prefix of the log, so it survives the log growing. */
  lemma AccountGrows(s: State, s': State, c: Client)
    requires RestInv(s, c) && (!c.pc.Idle? ==> ActiveInv(s, c))
    requires s.log <= s'.log && s.head <= s'.head && s.cap == s'.cap
    ensures RestInv(s', c) && (!c.pc.Idle? ==> ActiveInv(s', c))
  {
    FaithfulGrows(s.log, s'.log, c.delivered);
    forall i | 0 <= i < |c.packets| ensures PacketInv(s'.log, c.packets[i]) {
      FaithfulGrows(s.log, s'.log, c.packets[i].entries);
    }
    if !c.pc.Idle? {
      FaithfulGrows(s.log, s'.log, c.pc.call.now.out);
    }
  }

  lemma FaithfulGrows(log: seq<Logged>, log': seq<Logged>, out: seq<Delivery>)
    requires Faithful(log, out) && log <= log'
    ensures Faithful(log', out)
  {
  }

  lemma ProducerStepKeepsCopy(s: State, step: Step, c: Client)
    requires RingInv(s) && NoOverlap(s) && Enabled(s, step) && ProducerStep(step) && c.pc.Copying? && CopyInv(s, c)
    requires RingInv(Apply(s, step))
    ensures CopyInv(Apply(s, step), c)
  {
    var s' := Apply(s, step);
    var q := c.pc.call.now.cursor;
    assert Published(s', q) by {
      forall t | t in s'.writers ensures s'.writers[t].slot != q {
        if t in s.writers { assert s.writers[t].slot != q; }
      }
    }
    if s'.cells[CellOf(s', q)].seqno == q + 1 {
      SeqnoStays(s, step, q);
    }
  }

  lemma ProducerStepKeepsClient(s: State, step: Step, c: Client)
    requires RingInv(s) && NoOverlap(s) && Enabled(s, step) && ProducerStep(step) && ClientInv(s, c)
    requires RingInv(Apply(s, step))
    ensures ClientInv(Apply(s, step), c)
  {
    AccountGrows(s, Apply(s, step), c);
    if c.pc.Copying? {
      ProducerStepKeepsCopy(s, step, c);
    }
  }

  /** A published slot's sequence number can only disappear: no step of a producer brings it back. */
  lemma SeqnoStays(s: State, step: Step, q: nat)
    requires RingInv(s) && Enabled(s, step) && ProducerStep(step) && Published(s, q)
    requires Apply(s, step).cells[CellOf(s, q)].seqno == q + 1
    ensures s.cells[CellOf(s, q)].seqno == q + 1
  {
    if step.Publish? {
      assert WriterInv(s, s.writers[step.tid]);
    }
  }

  // ------------------------------------------------------------------------------- consumer steps

  lemma {:induction false} ReplaySnoc(f: Filter, m: Mode, first: Call, obs: seq<Obs>, o: Obs)
    ensures Replay(f, m, first, obs + [o]) == Iterate(f, m, Replay(f, m, first, obs), o)
  {
    assert (obs + [o])[..|obs|] == obs;
  }

  lemma AdvancingSnoc(f: Filter, m: Mode, first: Call, obs: seq<Obs>, o: Obs, head: nat)
    requires Advancing(f, m, first, obs, head)
    requires Replay(f, m, first, obs).cursor == first.cursor + |obs| && !Finished(Replay(f, m, first, obs), head)
    ensures Advancing(f, m, first, obs + [o], head)
  {
    assert (obs + [o])[..|obs|] == obs;
  }

  /** An accepted observation that is the logged record keeps the deliveries faithful. */
  lemma IterateFaithful(log: seq<Logged>, f: Filter, m: Mode, a: Call, o: Obs)
    requires Faithful(log, a.out) && a.cursor < |log|
    requires o.before == a.cursor + 1 && o.after == o.before ==> o.entry == log[a.cursor].entry
    ensures Faithful(log, Iterate(f, m, a, o).out)
  {
  }

  lemma ObserveReplays(f: Filter, call: Active, o: Obs)
    requires ReplayInv(f, call) && !Finished(call.now, call.head)
    ensures ReplayInv(f, call.(obs := call.obs + [o], now := Iterate(f, call.mode, call.now, o)))
  {
    ReplaySnoc(f, call.mode, call.first, call.obs, o);
    AdvancingSnoc(f, call.mode, call.first, call.obs, o, call.head);
  }

  /** What a client at rest owns is untouched by its program counter. */
  lemma RestIgnoresPc(s: State, c: Client, d: Client)
    requires RestInv(s, c) && d == c.(pc := d.pc)
    ensures RestInv(s, d)
  {
  }

  lemma ObserveKeepsClient(s: State, c: Client, o: Obs)
    requires s.cap > 0 && |s.cells| == s.cap && |s.log| == s.head
    requires RestInv(s, c) && !c.pc.Idle? && ActiveInv(s, c)
    requires !Finished(c.pc.call.now, c.pc.call.head) && ValidEntry(s.log[c.pc.call.now.cursor].entry)
    requires o.before == c.pc.call.now.cursor + 1 && o.after == o.before ==>
               o.entry == s.log[c.pc.call.now.cursor].entry
    ensures ClientInv(s, Observe(c, c.pc.call, o))
  {
    var call := c.pc.call;
    var d := Observe(c, call, o);
    var q := call.now.cursor;
    assert q < call.head <= s.head;
    assert CallInv(call.mode, call.first, d.pc.call.now, call.head) by {
      IterateKeepsCallInv(c.filter, call.mode, call.first, call.now, o, call.head);
    }
    assert Faithful(s.log, d.pc.call.now.out) by {
      IterateFaithful(s.log, c.filter, call.mode, call.now, o);
    }
    ObserveReplays(c.filter, call, o);
    RestIgnoresPc(s, c, d);
  }

  lemma PollKeepsClient(s: State, c: Client)
    requires RingInv(s) && ClientInv(s, c) && c.pc.Polling? && !Finished(c.pc.call.now, c.pc.call.head)
    ensures ClientInv(s, PollClient(c, s.cells[CellOf(s, c.pc.call.now.cursor)].seqno))
  {
    var q := c.pc.call.now.cursor;
    var i := CellOf(s, q);
    assert CellInv(s, i) && ValidEntry(s.log[q].entry);
    if s.cells[i].seqno != q + 1 {
      ObserveKeepsClient(s, c, Obs(s.cells[i].seqno, Entry(0, 0, []), s.cells[i].seqno, false));
    }
  }

  lemma CopyKeepsClient(s: State, c: Client, k: nat)
    requires s.cap > 0 && |s.cells| == s.cap && |s.log| == s.head && ClientInv(s, c) && c.pc.Copying?
    requires CellInv(s, CellOf(s, c.pc.call.now.cursor)) && k < WORDS
    ensures ClientInv(s, CopyClient(c, k, s.cells[CellOf(s, c.pc.call.now.cursor)].words[k]))
  {
    var d := CopyClient(c, k, s.cells[CellOf(s, c.pc.call.now.cursor)].words[k]);
    RestIgnoresPc(s, c, d);
    WordCopied(s, c, d, k);
  }

  /** A word copied from a cell that still carries q + 1 is a word of record q. */
  lemma WordCopied(s: State, c: Client, d: Client, k: nat)
    requires s.cap > 0 && |s.cells| == s.cap && |s.log| == s.head && c.pc.Copying? && CopyInv(s, c)
    requires CellInv(s, CellOf(s, c.pc.call.now.cursor)) && k < WORDS
    requires d == CopyClient(c, k, s.cells[CellOf(s, c.pc.call.now.cursor)].words[k])
    ensures CopyInv(s, d)
  {
  }

  /** A complete copy whose re-check succeeds is the logged record: no tearing, no other lap. */
  lemma AcceptedCopyIsLogged(s: State, c: Client)
    requires s.cap > 0 && |s.cells| == s.cap && |s.log| == s.head
    requires c.pc.Copying? && CopyInv(s, c) && Copied(c.pc.local) && ValidEntry(s.log[c.pc.call.now.cursor].entry)
    requires s.cells[CellOf(s, c.pc.call.now.cursor)].seqno == c.pc.call.now.cursor + 1
    ensures Assemble(c.pc.local) == s.log[c.pc.call.now.cursor].entry
  {
    var local, e := c.pc.local, s.log[c.pc.call.now.cursor].entry;
    assert ValidEntry(e);
    assert local[0] == Word(e, 0) && local[1] == Word(e, 1) && local[2] == Word(e, 2);
    assert |Assemble(local).payload| == |e.payload|;
    forall i | 0 <= i < |e.payload| ensures Assemble(local).payload[i] == e.payload[i] {
      assert local[3 + i] == Word(e, 3 + i);
    }
  }

  /** What the re-check observes: if it accepts, the logged record. */
  lemma RecheckObserves(s: State, c: Client)
    requires s.cap > 0 && |s.cells| == s.cap && |s.log| == s.head
    requires c.pc.Copying? && CopyInv(s, c) && Copied(c.pc.local) && ValidEntry(s.log[c.pc.call.now.cursor].entry)
    ensures !Finished(c.pc.call.now, c.pc.call.head)
    ensures s.cells[CellOf(s, c.pc.call.now.cursor)].seqno == c.pc.call.now.cursor + 1 ==>
              Assemble(c.pc.local) == s.log[c.pc.call.now.cursor].entry
  {
    if s.cells[CellOf(s, c.pc.call.now.cursor)].seqno == c.pc.call.now.cursor + 1 {
      AcceptedCopyIsLogged(s, c);
    }
  }

  lemma BeginKeepsClient(s: State, c: Client, r: Request)
    requires s.cap > 0 && |s.cells| == s.cap && |s.log| == s.head && RestInv(s, c) && c.pc.Idle?
    ensures ClientInv(s, BeginClient(c, r, s.head, s.cap))
  {
    var first := StartCall(c.cursor, c.dropped, s.head, s.cap);
    var d := BeginClient(c, r, s.head, s.cap);
    assert RestInv(s, d);
    BegunMode(c, r, s.head, s.cap);
    if !d.pc.Idle? {
      assert Replay(d.filter, d.pc.call.mode, first, []) == first;
      assert ActiveInv(s, d);
    }
  }

  /** A call begins in a mode that fits what is ahead of it. */
  lemma BegunMode(c: Client, r: Request, head: nat, cap: nat)
    requires c.pc.Idle? && c.cursor <= head
    ensures var d := BeginClient(c, r, head, cap);
      !d.pc.Idle? ==> ModeFits(cap, d.pc.call.mode, StartCall(c.cursor, c.dropped, head, cap), head)
  {
  }

  /** Whatever is asked for, beginning a call first passes what was overwritten, and counts it as dropped. */
  lemma BeginSkips(c: Client, r: Request, head: nat, cap: nat)
    requires c.pc.Idle? && c.cursor <= head
    ensures
      var d, n := BeginClient(c, r, head, cap), Min(head - c.cursor, cap);
      Cursor(d) == head - n && Dropped(d) == c.dropped + (head - c.cursor - n) && Delivered(d) == c.delivered
  {
  }

  /** Deliveries of a later window extend those of an earlier one. */
  lemma AppendWindow(log: seq<Logged>, a: seq<Delivery>, b: seq<Delivery>, lo: nat, mid: nat, hi: nat)
    requires lo <= mid <= hi
    requires Faithful(log, a) && Increasing(a) && Between(a, lo, mid)
    requires Faithful(log, b) && Increasing(b) && Between(b, mid, hi)
    ensures Faithful(log, a + b) && Increasing(a + b) && Between(a + b, lo, hi)
  {
  }

  lemma DoneIsLoop(s: State, c: Client)
    requires !c.pc.Idle? && ActiveInv(s, c) && Finished(c.pc.call.now, c.pc.call.head)
    ensures var call := c.pc.call;
      DoneInv(s.cap, Done(c.filter, call.mode, call.head, call.first, call.obs, call.now))
  {
    var call := c.pc.call;
    ReplayIsLoop(c.filter, call.mode, call.first, call.obs, call.head);
  }

  /** A finished call's account adds to the client's. */
  lemma FinishAdds(s: State, c: Client)
    requires RestInv(s, c) && c.pc.Polling? && ActiveInv(s, c)
    ensures var d := FinishClient(c);
      && d.openedAt <= d.cursor <= s.head
      && d.cursor - d.openedAt == |d.delivered| + d.filtered + d.dropped + d.lost
      && Faithful(s.log, d.delivered) && Increasing(d.delivered) && Between(d.delivered, d.openedAt, d.cursor)
  {
    var call := c.pc.call;
    assert Increasing(call.now.out) && Between(call.now.out, c.cursor, call.now.cursor);
    AppendWindow(s.log, c.delivered, call.now.out, c.openedAt, c.cursor, call.now.cursor);
  }

  lemma FinishReports(s: State, c: Client)
    requires RestInv(s, c) && c.pc.Polling? && ActiveInv(s, c)
    ensures var d := FinishClient(c);
      && d.reported <= d.dropped && ReportedSum(d.packets) == d.reported
      && d.lost <= PackedCalls(d.done)
      && (forall i :: 0 <= i < |d.packets| ==> PacketInv(s.log, d.packets[i]))
  {
    var d := FinishClient(c);
    assert d.done[..|d.done| - 1] == c.done;
    assert Increasing(c.pc.call.now.out);
    if d.packets != c.packets {
      assert d.packets[..|d.packets| - 1] == c.packets;
    }
  }

  lemma FinishKeepsClient(s: State, c: Client)
    requires s.cap > 0 && |s.cells| == s.cap && |s.log| == s.head && ClientInv(s, c)
    requires c.pc.Polling? && Finished(c.pc.call.now, c.pc.call.head)
    ensures ClientInv(s, FinishClient(c))
  {
    FinishAdds(s, c);
    FinishReports(s, c);
    DoneIsLoop(s, c);
  }

  lemma StepKeepsInv(s: State, step: Step)
    requires Inv(s) && NoOverlap(s) && Enabled(s, step)
    ensures Inv(Apply(s, step))
  {
    var s' := Apply(s, step);
    StepKeepsRing(s, step);
    forall c | c in s'.clients ensures ClientInv(s', s'.clients[c]) {
      if ProducerStep(step) {
        ProducerStepKeepsClient(s, step, s.clients[c]);
      } else {
        ClientStepKeepsClient(s, step, c);
      }
    }
  }

  lemma ClientInvFrame(s: State, s': State, c: Client)
    requires s.cap > 0 && |s.cells| == s.cap && |s.log| == s.head && s' == s.(clients := s'.clients)
    ensures ClientInv(s, c) ==> ClientInv(s', c)
  {
    if ClientInv(s, c) && c.pc.Copying? {
      assert Published(s', c.pc.call.now.cursor);
    }
  }

  lemma RecheckKeepsClient(s: State, c: Client, stop: bool)
    requires RingInv(s) && ClientInv(s, c) && c.pc.Copying? && Copied(c.pc.local)
    ensures ClientInv(s, RecheckClient(c, s.cells[CellOf(s, c.pc.call.now.cursor)].seqno, stop))
  {
    var q := c.pc.call.now.cursor;
    assert ValidEntry(s.log[q].entry);
    RecheckObserves(s, c);
    ObserveKeepsClient(s, c, Obs(q + 1, Assemble(c.pc.local), s.cells[CellOf(s, q)].seqno, stop));
  }

  lemma OwnStepKeepsClient(s: State, step: Step, c: Cid)
    requires RingInv(s) && Enabled(s, step) && !ProducerStep(step) && step.cid == c && c in Apply(s, step).clients
    requires c in s.clients ==> ClientInv(s, s.clients[c])
    ensures ClientInv(s, Apply(s, step).clients[c])
  {
    match step {
      case Open(_, f) =>
      case SetFilter(_, f) =>
      case Begin(_, r) => BeginKeepsClient(s, s.clients[c], r);
      case Poll(_) => PollKeepsClient(s, s.clients[c]);
      case Copy(_, k) =>
        assert CellInv(s, CellOf(s, s.clients[c].pc.call.now.cursor));
        CopyKeepsClient(s, s.clients[c], k);
      case Recheck(_, stop) => RecheckKeepsClient(s, s.clients[c], stop);
      case Finish(_) => FinishKeepsClient(s, s.clients[c]);
    }
  }

  lemma ClientStepKeepsClient(s: State, step: Step, c: Cid)
    requires Inv(s) && Enabled(s, step) && !ProducerStep(step) && c in Apply(s, step).clients
    ensures var s' := Apply(s, step);
      s'.cap > 0 && |s'.cells| == s'.cap && |s'.log| == s'.head && ClientInv(s', s'.clients[c])
  {
    var s' := Apply(s, step);
    if step.cid == c {
      OwnStepKeepsClient(s, step, c);
    } else {
      assert s'.clients[c] == s.clients[c];
    }
    ClientInvFrame(s, s', s'.clients[c]);
  }

  // -------------------------------------------------------------------------------------- whole runs

  lemma InitInv(s: State)
    requires Init(s)
    ensures Inv(s)
  {
    forall i | 0 <= i < s.cap ensures CellInv(s, i) { }
  }

  lemma {:induction false} RunInv(tr: seq<State>, i: nat)
    requires Run(tr) && Disciplined(tr) && i < |tr|
    ensures Inv(tr[i])
  {
    if i == 0 {
      InitInv(tr[0]);
    } else {
      RunInv(tr, i - 1);
      assert StepAt(tr, i - 1);
      var step :| Enabled(tr[i - 1], step) && tr[i] == Apply(tr[i - 1], step);
      assert NoOverlap(tr[i - 1]);
      StepKeepsInv(tr[i - 1], step);
    }
  }

  /** Nobody waits for anybody: in every disciplined interleaving each producer in flight and each client has
      a step of its own it can take, whatever the others are doing. */
  lemma NobodyWaits(tr: seq<State>, i: nat)
    requires Run(tr) && Disciplined(tr) && i < |tr|
    ensures tr[i].cap > 0 && |tr[i].cells| == tr[i].cap
    ensures forall t :: t in tr[i].writers ==>
      exists step :: ProducerStep(step) && step.tid == t && Enabled(tr[i], step)
    ensures forall c :: c in tr[i].clients ==>
      exists step :: !ProducerStep(step) && step.cid == c && Enabled(tr[i], step)
  {
    RunInv(tr, i);
    forall t | t in tr[i].writers ensures exists step :: ProducerStep(step) && step.tid == t && Enabled(tr[i], step) {
      var step := WriterStep(tr[i], t);
    }
    forall c | c in tr[i].clients ensures exists step :: !ProducerStep(step) && step.cid == c && Enabled(tr[i], step) {
      var step := ClientStep(tr[i], c);
    }
  }

  lemma WriterStep(s: State, t: Tid) returns (step: Step)
    requires Inv(s) && t in s.writers
    ensures ProducerStep(step) && step.tid == t && Enabled(s, step)
  {
    var w := s.writers[t];
    assert WriterInv(s, w);
    if !w.cleared { return Clear(t); }
    var e := s.log[w.slot].entry;
    assert CellInv(s, CellOf(s, w.slot));
    if k :| 0 <= k < Size(e) && k !in w.written { return Write(t, k); }
    return Publish(t);
  }

  lemma ClientStep(s: State, c: Cid) returns (step: Step)
    requires Inv(s) && c in s.clients
    ensures !ProducerStep(step) && step.cid == c && Enabled(s, step)
  {
    var cl := s.clients[c];
    assert ClientInv(s, cl);
    if cl.pc.Idle? { return Begin(c, DrainRequest); }
    var q := cl.pc.call.now.cursor;
    if cl.pc.Copying? {
      assert CellInv(s, CellOf(s, q));
      if k :| 0 <= k < WORDS && k !in cl.pc.local { return Copy(c, k); }
      return Recheck(c, false);
    }
    if Finished(cl.pc.call.now, cl.pc.call.head) { return Finish(c); }
    return Poll(c);
  }

  lemma {:induction false} ClientNumbers(tr: seq<State>, i: nat)
    requires Run(tr) && i < |tr|
    ensures tr[i].cap > 0 && |tr[i].cells| == tr[i].cap && forall c :: c in tr[i].clients ==> c < MAX_CLIENTS
  {
    if i > 0 {
      ClientNumbers(tr, i - 1);
      assert StepAt(tr, i - 1);
      var step :| Enabled(tr[i - 1], step) && tr[i] == Apply(tr[i - 1], step);
      NumbersStay(tr[i - 1], step);
    }
  }

  lemma NumbersStay(s: State, step: Step)
    requires s.cap > 0 && |s.cells| == s.cap && Enabled(s, step) && forall c :: c in s.clients ==> c < MAX_CLIENTS
    ensures var s' := Apply(s, step);
      s'.cap > 0 && |s'.cells| == s'.cap && forall c :: c in s'.clients ==> c < MAX_CLIENTS
  {
  }

  /** At most eight clients are ever open, and one more can be opened if and only if there are fewer. */
  lemma EightClients(tr: seq<State>, i: nat, f: Filter)
    requires Run(tr) && i < |tr|
    ensures |tr[i].clients| <= 8 && tr[i].cap > 0 && |tr[i].cells| == tr[i].cap
    ensures (exists c :: Enabled(tr[i], Open(c, f))) <==> |tr[i].clients| < 8
  {
    ClientNumbers(tr, i);
    var s := tr[i];
    var open := s.clients.Keys;
    FullWhenAsMany(open, 8);
    assert |open| == |s.clients|;
    if |open| < 8 {
      var c :| 0 <= c < 8 && c !in open;
      assert Enabled(s, Open(c, f));
    } else {
      forall c ensures !Enabled(s, Open(c, f)) { assert c < 8 ==> c in open; }
    }
  }

  /** No torn reads: in every disciplined interleaving, whatever a client has been handed under slot s is
      bit for bit what the producer of slot s logged, and slots come in strictly increasing order. */
  lemma NoTornReads(tr: seq<State>, i: nat, cid: Cid)
    requires Run(tr) && Disciplined(tr) && i < |tr| && cid in tr[i].clients
    ensures Faithful(tr[i].log, Delivered(tr[i].clients[cid]))
    ensures Increasing(Delivered(tr[i].clients[cid]))
  {
    RunInv(tr, i);
    var c := tr[i].clients[cid];
    assert ClientInv(tr[i], c);
    if !c.pc.Idle? {
      assert Increasing(c.pc.call.now.out);
    }
  }

  /** Entries of one producer come out in its program order. */
  lemma ProgramOrder(tr: seq<State>, i: nat, cid: Cid, a: nat, b: nat)
    requires Run(tr) && Disciplined(tr) && i < |tr| && cid in tr[i].clients
    requires a < b < |Delivered(tr[i].clients[cid])|
    ensures
      var log, out := tr[i].log, Delivered(tr[i].clients[cid]);
      && out[a].slot < |log| && out[b].slot < |log|
      && (log[out[a].slot].tid == log[out[b].slot].tid ==> log[out[a].slot].nth < log[out[b].slot].nth)
  {
    NoTornReads(tr, i, cid);
    RunInv(tr, i);
  }

  /** Conservation over a client's whole life: every slot since it opened was delivered, filtered, reported
      dropped, or lost to a full packet; `btelem_drain` alone loses none, and what packets have reported
      never exceeds what was dropped. */
  lemma LifeAccount(tr: seq<State>, i: nat, cid: Cid)
    requires Run(tr) && Disciplined(tr) && i < |tr| && cid in tr[i].clients
    ensures
      var c := tr[i].clients[cid];
      && c.openedAt <= Cursor(c) <= tr[i].head
      && Cursor(c) - c.openedAt == |Delivered(c)| + Filtered(c) + Dropped(c) + Lost(c)
      && c.lost <= PackedCalls(c.done)
      && Lost(c) <= PackedCalls(c.done) + (if !c.pc.Idle? && c.pc.call.mode.Pack? then 1 else 0)
      && ReportedSum(c.packets) == c.reported <= Dropped(c)
  {
    RunInv(tr, i);
    assert ClientInv(tr[i], tr[i].clients[cid]);
  }

  lemma DoneIsAccounted(cap: nat, d: Done)
    requires DoneInv(cap, d) && d.mode.Pack?
    ensures var due := Due(d.filter, ViewOf(d.first.cursor, d.obs), d.first.cursor, d.head);
      Accounted(d.mode, d.first, d.last, due, d.head)
    ensures d.last.lost == 1 && d.mode.maxEntries < U16 ==> WorstCaseRows(d.mode.bufSize) < d.head - d.first.cursor
  {
    var view := ViewOf(d.first.cursor, d.obs);
    LossIffTooMuchDue(d.filter, d.mode, d.first, d.first, d.last, view, d.head);
    DueBound(d.filter, view, d.first.cursor, d.head);
    if d.mode.maxEntries < U16 {
      CastExact(d.mode, d.head - d.first.cursor, cap, Due(d.filter, view, d.first.cursor, d.head));
    }
  }

  /** Every packed call that finished balances: slots passed = packed + filtered + newly dropped + u.  It lost an
      entry, u = 1, if and only if it saw more committed, untorn and accepted entries than its table has rows; when
      the cast is exact that takes more available slots than the buffer holds worst-case entries. */
  lemma PackedCallsBalance(tr: seq<State>, i: nat, cid: Cid, k: nat)
    requires Run(tr) && Disciplined(tr) && i < |tr| && cid in tr[i].clients
    requires k < |tr[i].clients[cid].done| && tr[i].clients[cid].done[k].mode.Pack?
    ensures
      var d := tr[i].clients[cid].done[k];
      var due := Due(d.filter, ViewOf(d.first.cursor, d.obs), d.first.cursor, d.head);
      && Accounted(d.mode, d.first, d.last, due, d.head)
      && (d.last.lost == 1 && d.mode.maxEntries < U16 ==> WorstCaseRows(d.mode.bufSize) < d.head - d.first.cursor)
  {
    RunInv(tr, i);
    var c := tr[i].clients[cid];
    assert ClientInv(tr[i], c) && DoneInv(tr[i].cap, c.done[k]);
    DoneIsAccounted(tr[i].cap, c.done[k]);
  }

  /** Client `d` is client `c` after finishing a packed call that packed something: one packet more, which tells the
      drops. */
  ghost predicate SentPacket(c: Client, d: Client, last: Call) {
    && |d.packets| == |c.packets| + 1 && d.packets[..|c.packets|] == c.packets
    && var p := d.packets[|c.packets|];
       p.entries == last.out && d.dropped == last.dropped && TellsDrops(d.dropped, c.reported, d.reported, p.dropped)
  }

  lemma FinishTells(c: Client)
    requires c.pc.Polling? && c.pc.call.mode.Pack? && |c.pc.call.now.out| > 0 && c.reported <= c.pc.call.now.dropped
    ensures SentPacket(c, FinishClient(c), c.pc.call.now)
  {
  }

  lemma OnlyFinishing(s: State, step: Step, cid: Cid)
    requires s.cap > 0 && |s.cells| == s.cap && Enabled(s, step)
    requires cid in s.clients && cid in Apply(s, step).clients
    requires Apply(s, step).clients[cid].done != s.clients[cid].done
    ensures step == Finish(cid) && Apply(s, step).clients[cid] == FinishClient(s.clients[cid])
  {
  }

  lemma ReportedBehind(s: State, c: Client)
    requires s.cap > 0 && |s.cells| == s.cap && |s.log| == s.head && ClientInv(s, c) && !c.pc.Idle?
    ensures c.reported <= c.pc.call.now.dropped
  {
  }

  /** Whenever a packed call of a run finishes having packed something, the packet it sends brings the receiver up to
      date with the client's drops, as far as 32 bits reach. */
  lemma PacketsTellDrops(tr: seq<State>, i: nat, cid: Cid)
    requires Run(tr) && Disciplined(tr) && i + 1 < |tr| && cid in tr[i].clients && cid in tr[i + 1].clients
    requires tr[i + 1].clients[cid].done != tr[i].clients[cid].done
    ensures
      var c, d := tr[i].clients[cid], tr[i + 1].clients[cid];
      && !c.pc.Idle?
      && (c.pc.call.mode.Pack? && c.pc.call.now.out != [] ==> SentPacket(c, d, c.pc.call.now))
  {
    RunInv(tr, i);
    assert StepAt(tr, i);
    var s, c := tr[i], tr[i].clients[cid];
    var step :| Enabled(s, step) && tr[i + 1] == Apply(s, step);
    OnlyFinishing(s, step, cid);
    ReportedBehind(s, c);
    if c.pc.call.mode.Pack? && c.pc.call.now.out != [] { FinishTells(c); }
  }

  /** Every finished call under interference is a run of the sequential loop over what it observed. */
  lemma CallsAreLoops(tr: seq<State>, i: nat, cid: Cid, k: nat)
    requires Run(tr) && Disciplined(tr) && i < |tr| && cid in tr[i].clients
    requires k < |tr[i].clients[cid].done|
    ensures var d := tr[i].clients[cid].done[k];
      d.last == Loop(d.filter, d.mode, d.first, ViewOf(d.first.cursor, d.obs), d.head)
  {
    RunInv(tr, i);
    assert ClientInv(tr[i], tr[i].clients[cid]) && DoneInv(tr[i].cap, tr[i].clients[cid].done[k]);
  }

  /** Every finished call of every run sorted the slots it passed by what it saw there: torn ones were dropped,
      intact ones filtered or delivered by the ids of the filter it ran with. */
  lemma FinishedCallFates(tr: seq<State>, i: nat, cid: Cid, k: nat, j: nat)
    requires Run(tr) && Disciplined(tr) && i < |tr| && cid in tr[i].clients
    requires k < |tr[i].clients[cid].done| && j < |tr[i].clients[cid].done[k].last.out|
    ensures
      var d := tr[i].clients[cid].done[k];
      && Fates(d.filter, ViewOf(d.first.cursor, d.obs), d.first, d.last)
      && (d.filter.AcceptAll? || d.last.out[j].entry.id in d.filter.ids)
  {
    RunInv(tr, i);
    var d := tr[i].clients[cid].done[k];
    assert ClientInv(tr[i], tr[i].clients[cid]) && DoneInv(tr[i].cap, d);
    DoneFates(tr[i].cap, d, j);
  }

  lemma DoneFates(cap: nat, d: Done, j: nat)
    requires DoneInv(cap, d) && j < |d.last.out|
    ensures Fates(d.filter, ViewOf(d.first.cursor, d.obs), d.first, d.last)
    ensures d.filter.AcceptAll? || d.last.out[j].entry.id in d.filter.ids
  {
    var view := ViewOf(d.first.cursor, d.obs);
    LoopFates(d.filter, d.mode, d.first, view, d.head);
    DeliveredIsWanted(d.filter, d.mode, d.first, view, d.head, d.last.out[j]);
  }

  // ------------------------------------------------------------------------------- progress over time

  ghost predicate Extends(c: Client, d: Client) {
    Cursor(c) <= Cursor(d) && Delivered(c) <= Delivered(d) && c.openedAt == d.openedAt
  }

  lemma ExtendsTrans(a: Client, b: Client, c: Client)
    requires Extends(a, b) && Extends(b, c)
    ensures Extends(a, c)
  {
    PrefixTrans(Delivered(a), Delivered(b), Delivered(c));
  }

  lemma PrefixTrans<T>(a: seq<T>, b: seq<T>, c: seq<T>)
    requires a <= b <= c
    ensures a <= c
  {
  }

  lemma ObserveExtends(c: Client, o: Obs)
    requires !c.pc.Idle?
    ensures Extends(c, Observe(c, c.pc.call, o))
  {
    var now := c.pc.call.now;
    var next := Iterate(c.filter, c.pc.call.mode, now, o);
    assert now.out <= next.out;
  }

  lemma ClientStepExtends(s: State, step: Step, cid: Cid)
    requires s.cap > 0 && |s.cells| == s.cap && Enabled(s, step) && !ProducerStep(step)
    requires cid in s.clients && cid in Apply(s, step).clients && step.cid == cid
    ensures Extends(s.clients[cid], Apply(s, step).clients[cid])
  {
    var c := s.clients[cid];
    match step
    case Poll(_) =>
      var seqno := s.cells[CellOf(s, c.pc.call.now.cursor)].seqno;
      ObserveExtends(c, Obs(seqno, Entry(0, 0, []), seqno, false));
    case Recheck(_, stop) =>
      ObserveExtends(c, Obs(c.pc.call.now.cursor + 1, Assemble(c.pc.local),
        s.cells[CellOf(s, c.pc.call.now.cursor)].seqno, stop));
    case _ =>
  }

  lemma NextExtends(s: State, s': State, cid: Cid)
    requires Next(s, s') && cid in s.clients && cid in s'.clients
    ensures Extends(s.clients[cid], s'.clients[cid])
  {
    var step :| Enabled(s, step) && s' == Apply(s, step);
    if !ProducerStep(step) && step.cid == cid {
      ClientStepExtends(s, step, cid);
    }
  }

  lemma RunExtends(tr: seq<State>, k: nat, cid: Cid)
    requires Run(tr) && k + 1 < |tr| && cid in tr[k].clients && cid in tr[k + 1].clients
    ensures Extends(tr[k].clients[cid], tr[k + 1].clients[cid])
  {
    assert StepAt(tr, k);
    NextExtends(tr[k], tr[k + 1], cid);
  }

  /** While a client stays open its cursor never moves back and what it was handed is never revised. */
  lemma {:induction false} CursorMonotone(tr: seq<State>, cid: Cid, i: nat, j: nat)
    requires Run(tr) && i <= j < |tr|
    requires forall k :: i <= k <= j ==> cid in tr[k].clients
    ensures Extends(tr[i].clients[cid], tr[j].clients[cid])
    decreases j
  {
    if i < j {
      CursorMonotone(tr, cid, i, j - 1);
      RunExtends(tr, j - 1, cid);
      ExtendsTrans(tr[i].clients[cid], tr[j - 1].clients[cid], tr[j].clients[cid]);
    }
  }

  // ---------------------------------------------------------------------------------------- quiescence

  function LogEntries(log: seq<Logged>): (r: seq<Entry>)
    ensures |r| == |log| && forall i :: 0 <= i < |r| ==> r[i] == log[i].entry
  {
    seq(|log|, i requires 0 <= i < |log| => log[i].entry)
  }

  function WordMap(c: Cell): (m: map<nat, nat>)
    ensures forall k :: k in m <==> 0 <= k < |c.words|
    ensures forall k :: 0 <= k < |c.words| ==> m[k] == c.words[k]
  {
    map k | 0 <= k < |c.words| :: c.words[k]
  }

  /** What an undisturbed read of a slot returns. */
  ghost function StillView(s: State): nat -> Obs
    requires RingInv(s)
  {
    (q: nat) =>
      var c := s.cells[CellOf(s, q)];
      assert CellInv(s, CellOf(s, q));
      Obs(c.seqno, Assemble(WordMap(c)), c.seqno, false)
  }

  lemma HeldRecord(c: Cell, e: Entry)
    requires ValidCell(c) && ValidEntry(e) && Holds(c, e)
    ensures Assemble(WordMap(c)) == e
  {
    var m := WordMap(c);
    assert m[0] == Word(e, 0) && m[1] == Word(e, 1) && m[2] == Word(e, 2);
    forall i | 0 <= i < |e.payload| ensures Assemble(m).payload[i] == e.payload[i] {
      assert m[3 + i] == Word(e, 3 + i);
    }
  }

  /** In any reachable state with no writer in flight, one undisturbed full drain delivers the filtered last
      min(head - cursor, capacity) records of the unbounded log and ends at the head. */
  lemma QuiescentDrain(tr: seq<State>, i: nat, cid: Cid)
    requires Run(tr) && Disciplined(tr) && i < |tr| && cid in tr[i].clients
    requires tr[i].writers == map[] && tr[i].clients[cid].pc.Idle?
    ensures
      var s, c := tr[i], tr[i].clients[cid];
      && RingInv(s) && c.cursor <= |s.log|
      && DrainsEverything(c.filter, c.cursor, c.dropped, s.cap, StillView(s), LogEntries(s.log))
  {
    RunInv(tr, i);
    var s, c := tr[i], tr[i].clients[cid];
    assert ClientInv(s, c);
    StillRingIsQuiescent(s, SkipCursor(c.cursor, s.head, s.cap));
    FullDrain(c.filter, c.cursor, c.dropped, s.cap, StillView(s), LogEntries(s.log));
  }

  lemma StillRingIsQuiescent(s: State, from: nat)
    requires RingInv(s) && s.writers == map[] && from <= s.head <= from + s.cap
    ensures Quiescent(StillView(s), LogEntries(s.log), from)
  {
    var log := LogEntries(s.log);
    forall q | from <= q < |log| ensures StillView(s)(q) == Obs(q + 1, log[q], q + 1, false) {
      assert Published(s, q);
      assert CellInv(s, CellOf(s, q));
      HeldRecord(s.cells[CellOf(s, q)], s.log[q].entry);
    }
  }
}
