/** How far a client gets: a bound on the steps of a call under any interference, and a whole call left alone. */
module RingProgress {
  import opened Bytes
  import opened DrainCore
  import opened RingProtocol
  import opened RingSafety
  import opened PackedLoss

  // ---------------------------------------------------------------------------------- bounded own steps

  /** Polling, copying every word, and re-checking: what one slot can cost. */
  const PER_SLOT: nat := WORDS + 2

  /** The steps a client may still need to finish its call. */
  function Work(c: Client): int {
    if c.pc.Idle? then 0
    else
      var call := c.pc.call;
      var left := if Finished(call.now, call.head) then 0 else PER_SLOT * (call.head - call.now.cursor);
      if c.pc.Polling? then left + 1 else left - |c.pc.local|
  }

  lemma LocalSize(local: map<nat, nat>)
    requires ValidLocal(local)
    ensures |local| <= WORDS
  {
    var missing := Below(WORDS) - local.Keys;
    assert Below(WORDS) == local.Keys + missing;
    assert |local.Keys| == |local|;
  }

  lemma PollWorks(c: Client, seqno: nat)
    requires c.pc.Polling? && !Finished(c.pc.call.now, c.pc.call.head)
    ensures 0 <= Work(PollClient(c, seqno)) < Work(c)
  {
  }

  lemma CopyWorks(c: Client, k: nat, v: nat)
    requires c.pc.Copying? && !Finished(c.pc.call.now, c.pc.call.head) && ValidLocal(c.pc.local)
    requires k !in c.pc.local && k < WORDS && ValidWord(k, v)
    ensures 0 <= Work(CopyClient(c, k, v)) < Work(c)
  {
    LocalSize(c.pc.local[k := v]);
  }

  lemma RecheckWorks(c: Client, seqno: nat, stop: bool)
    requires c.pc.Copying? && !Finished(c.pc.call.now, c.pc.call.head) && ValidLocal(c.pc.local) && Copied(c.pc.local)
    ensures 0 <= Work(RecheckClient(c, seqno, stop)) < Work(c)
  {
    LocalSize(c.pc.local);
    var o := Obs(c.pc.call.now.cursor + 1, Assemble(c.pc.local), seqno, stop);
    var next := Iterate(c.filter, c.pc.call.mode, c.pc.call.now, o);
    assert next.cursor == c.pc.call.now.cursor + 1;
  }

  lemma FinishWorks(c: Client)
    requires c.pc.Polling? && Finished(c.pc.call.now, c.pc.call.head)
    ensures 0 <= Work(FinishClient(c)) < Work(c)
  {
  }

  lemma CopyingFacts(s: State, cid: Cid)
    requires Inv(s) && cid in s.clients && s.clients[cid].pc.Copying?
    ensures var c := s.clients[cid];
      && !Finished(c.pc.call.now, c.pc.call.head) && ValidLocal(c.pc.local)
      && ValidCell(s.cells[CellOf(s, c.pc.call.now.cursor)])
  {
    assert ClientInv(s, s.clients[cid]);
    assert CellInv(s, CellOf(s, s.clients[cid].pc.call.now.cursor));
  }

  /** Every step of its own brings a client closer to the end of its call. */
  lemma OwnStepWorks(s: State, step: Step, cid: Cid)
    requires Inv(s) && Enabled(s, step) && !ProducerStep(step) && step.cid == cid && cid in s.clients
    requires !s.clients[cid].pc.Idle?
    ensures cid in Apply(s, step).clients && 0 <= Work(Apply(s, step).clients[cid]) < Work(s.clients[cid])
  {
    var c := s.clients[cid];
    if c.pc.Copying? { CopyingFacts(s, cid); }
    var cell := s.cells[CellOf(s, c.pc.call.now.cursor)];
    match step {
      case Poll(_) => PollWorks(c, cell.seqno);
      case Copy(_, k) => CopyWorks(c, k, cell.words[k]);
      case Recheck(_, stop) => RecheckWorks(c, cell.seqno, stop);
      case Finish(_) => FinishWorks(c);
    }
  }

  /** A step moves at most one client, and that one gets closer. */
  lemma StepMoves(s: State, s': State, cid: Cid)
    requires Inv(s) && Next(s, s') && cid in s.clients && cid in s'.clients && !s.clients[cid].pc.Idle?
    ensures Work(s'.clients[cid]) + (if s'.clients[cid] != s.clients[cid] then 1 else 0) <= Work(s.clients[cid])
  {
    var step :| Enabled(s, step) && s' == Apply(s, step);
    if !ProducerStep(step) && step.cid == cid { OwnStepWorks(s, step, cid); }
  }

  /** How often the client moved between two states of a run. */
  ghost function Moves(tr: seq<State>, cid: Cid, i: nat, j: nat): nat
    requires i <= j < |tr| && forall k :: i <= k <= j ==> cid in tr[k].clients
    decreases j - i
  {
    if i == j then 0 else Moves(tr, cid, i, j - 1) + (if tr[j].clients[cid] != tr[j - 1].clients[cid] then 1 else 0)
  }

  lemma RunMoves(tr: seq<State>, k: nat, cid: Cid)
    requires Run(tr) && Disciplined(tr) && k + 1 < |tr| && cid in tr[k].clients && cid in tr[k + 1].clients
    requires !tr[k].clients[cid].pc.Idle?
    ensures Work(tr[k + 1].clients[cid]) + (if tr[k + 1].clients[cid] != tr[k].clients[cid] then 1 else 0) <=
            Work(tr[k].clients[cid])
  {
    RunInv(tr, k);
    assert StepAt(tr, k);
    StepMoves(tr[k], tr[k + 1], cid);
  }

  /** While a call goes on, the client's moves and the work left never exceed the work at the start: nothing the
      producers or other clients do adds to it. */
  lemma {:induction false} MovesBounded(tr: seq<State>, cid: Cid, i: nat, j: nat)
    requires Run(tr) && Disciplined(tr) && i <= j < |tr| && forall k :: i <= k <= j ==> cid in tr[k].clients
    requires forall k :: i <= k < j ==> !tr[k].clients[cid].pc.Idle?
    ensures Moves(tr, cid, i, j) + Work(tr[j].clients[cid]) <= Work(tr[i].clients[cid])
    decreases j - i
  {
    if i < j {
      MovesBounded(tr, cid, i, j - 1);
      RunMoves(tr, j - 1, cid);
    }
  }

  /** Wait-freedom: from its start to its end, a drain call of either kind takes at most capacity times 237 steps and
      one more, whatever the others do. */
  lemma CallsAreWaitFree(tr: seq<State>, cid: Cid, i: nat, j: nat)
    requires Run(tr) && Disciplined(tr) && i + 1 <= j < |tr| && forall k :: i <= k <= j ==> cid in tr[k].clients
    requires tr[i].clients[cid].pc.Idle? && forall k :: i < k < j ==> !tr[k].clients[cid].pc.Idle?
    ensures Moves(tr, cid, i + 1, j) <= PER_SLOT * tr[i].cap + 1
  {
    RunInv(tr, i);
    RunInv(tr, j);
    assert StepAt(tr, i);
    StartedWork(tr[i], tr[i + 1], cid);
    MovesBounded(tr, cid, i + 1, j);
    WorkIsLeft(tr[j], cid);
  }

  lemma NonNegative(c: Client)
    requires c.pc.Copying? ==> !Finished(c.pc.call.now, c.pc.call.head) && ValidLocal(c.pc.local)
    ensures Work(c) >= 0
  {
    if c.pc.Copying? { LocalSize(c.pc.local); }
  }

  lemma WorkIsLeft(s: State, cid: Cid)
    requires Inv(s) && cid in s.clients
    ensures Work(s.clients[cid]) >= 0
  {
    if s.clients[cid].pc.Copying? { CopyingFacts(s, cid); }
    NonNegative(s.clients[cid]);
  }

  lemma BeginWork(c: Client, r: Request, head: nat, cap: nat)
    requires c.pc.Idle? && c.cursor <= head
    ensures Work(BeginClient(c, r, head, cap)) <= PER_SLOT * cap + 1
  {
    assert head <= SkipCursor(c.cursor, head, cap) + cap;
  }

  lemma CursorBehindHead(s: State, cid: Cid)
    requires Inv(s) && cid in s.clients
    ensures s.clients[cid].cursor <= s.head
  {
    assert ClientInv(s, s.clients[cid]);
  }

  lemma StepStarts(s: State, step: Step, cid: Cid)
    requires s.cap > 0 && |s.cells| == s.cap && Enabled(s, step) && cid in s.clients && cid in Apply(s, step).clients
    requires s.clients[cid].pc.Idle? && s.clients[cid].cursor <= s.head
    ensures Work(Apply(s, step).clients[cid]) <= PER_SLOT * s.cap + 1
  {
    if step.Begin? && step.cid == cid { BeginWork(s.clients[cid], step.request, s.head, s.cap); }
  }

  lemma StartedWork(s: State, s': State, cid: Cid)
    requires Inv(s) && Next(s, s') && cid in s.clients && cid in s'.clients && s.clients[cid].pc.Idle?
    ensures Work(s'.clients[cid]) <= PER_SLOT * s.cap + 1
  {
    var step :| Enabled(s, step) && s' == Apply(s, step);
    CursorBehindHead(s, cid);
    StepStarts(s, step, cid);
  }

  // ------------------------------------------------------------------------------------- a call left alone

  /** A step of the client's own call, the emit callback accepting. */
  predicate OwnCallStep(step: Step, cid: Cid) {
    step == Poll(cid) || (step.Copy? && step.cid == cid) || step == Recheck(cid, false)
  }

  /** In the middle of a call that began in `s0`: nothing else has changed, and what was observed is what was logged. */
  ghost predicate AloneInCall(s0: State, s: State, cid: Cid, m: Mode) {
    && cid in s0.clients && cid in s.clients && s == WithClient(s0, cid, s.clients[cid])
    && var c0, c := s0.clients[cid], s.clients[cid];
       var first := StartCall(c0.cursor, c0.dropped, s0.head, s0.cap);
       && !c.pc.Idle? && c == c0.(cursor := first.cursor, dropped := first.dropped, pc := c.pc)
       && c.pc.call.mode == m && c.pc.call.head == s0.head && c.pc.call.first == first
       && SeesTheLog(s0, c.pc.call)
  }

  ghost predicate SeesTheLog(s0: State, call: Active) {
    && call.first.cursor + |call.obs| <= |s0.log|
    && forall m :: 0 <= m < |call.obs| ==>
         var q := call.first.cursor + m; call.obs[m] == Obs(q + 1, s0.log[q].entry, q + 1, false)
  }

  /** A still ring shows every slot of its last lap published. */
  lemma StillCell(s: State, q: nat)
    requires RingInv(s) && s.writers == map[] && q < s.head <= q + s.cap
    ensures s.cells[CellOf(s, q)].seqno == q + 1
  {
    assert Published(s, q);
    assert CellInv(s, CellOf(s, q));
  }

  /** The request makes the client enter a loop in mode `m`. */
  predicate Enters(c: Client, r: Request, head: nat, cap: nat, m: Mode) {
    var d := BeginClient(c, r, head, cap);
    d.pc.Polling? && d.pc.call.mode == m
  }

  lemma BeginAlone(s0: State, cid: Cid, r: Request, m: Mode)
    requires Inv(s0) && cid in s0.clients && s0.clients[cid].pc.Idle? && Enters(s0.clients[cid], r, s0.head, s0.cap, m)
    ensures Enabled(s0, Begin(cid, r)) && AloneInCall(s0, Apply(s0, Begin(cid, r)), cid, m)
  {
    assert ClientInv(s0, s0.clients[cid]);
  }

  lemma PollSees(s0: State, s: State, cid: Cid, m: Mode)
    requires Inv(s0) && s0.writers == map[] && Inv(s) && AloneInCall(s0, s, cid, m) && Enabled(s, Poll(cid))
    ensures s.cells[CellOf(s, s.clients[cid].pc.call.now.cursor)].seqno == s.clients[cid].pc.call.now.cursor + 1
  {
    LapOf(s0, s, cid, m);
    StillCell(s, s.clients[cid].pc.call.now.cursor);
  }

  lemma PollAlone(s0: State, s: State, cid: Cid, m: Mode)
    requires AloneInCall(s0, s, cid, m) && s.cap > 0 && |s.cells| == s.cap && Enabled(s, Poll(cid))
    requires s.cells[CellOf(s, s.clients[cid].pc.call.now.cursor)].seqno == s.clients[cid].pc.call.now.cursor + 1
    ensures AloneInCall(s0, Apply(s, Poll(cid)), cid, m)
  {
    var s' := Apply(s, Poll(cid));
    assert s'.clients == s0.clients[cid := s'.clients[cid]];
  }

  /** The slot a call is at lies in the last lap. */
  lemma LapOf(s0: State, s: State, cid: Cid, m: Mode)
    requires Inv(s0) && Inv(s) && AloneInCall(s0, s, cid, m)
    requires !Finished(s.clients[cid].pc.call.now, s.clients[cid].pc.call.head)
    ensures var call := s.clients[cid].pc.call;
      && call.now.cursor < s.head <= call.now.cursor + s.cap
      && call.now.cursor == call.first.cursor + |call.obs|
  {
    assert ClientInv(s, s.clients[cid]) && ClientInv(s0, s0.clients[cid]);
  }

  lemma CopyAlone(s0: State, s: State, cid: Cid, m: Mode, k: nat)
    requires AloneInCall(s0, s, cid, m) && s.cap > 0 && |s.cells| == s.cap && Enabled(s, Copy(cid, k))
    ensures AloneInCall(s0, Apply(s, Copy(cid, k)), cid, m)
  {
    var s' := Apply(s, Copy(cid, k));
    assert s'.clients == s0.clients[cid := s'.clients[cid]];
  }

  /** The complete copy is the record logged at the cursor, and the cell still carries its number. */
  ghost predicate SeesRecord(s0: State, s: State, c: Client)
    requires s.cap > 0 && |s.cells| == s.cap && c.pc.Copying? && ValidLocal(c.pc.local) && Copied(c.pc.local)
  {
    var call := c.pc.call;
    var q := call.now.cursor;
    && q == call.first.cursor + |call.obs| < |s0.log| && s.cells[CellOf(s, q)].seqno == q + 1
    && Assemble(c.pc.local) == s0.log[q].entry
  }

  lemma RecheckSees(s0: State, s: State, cid: Cid, m: Mode)
    requires Inv(s0) && s0.writers == map[] && Inv(s) && AloneInCall(s0, s, cid, m) && Enabled(s, Recheck(cid, false))
    ensures SeesRecord(s0, s, s.clients[cid])
  {
    CopyingFacts(s, cid);
    LapOf(s0, s, cid, m);
    StillCell(s, s.clients[cid].pc.call.now.cursor);
    CopiedRecord(s, cid);
  }

  lemma RecheckAlone(s0: State, s: State, cid: Cid, m: Mode)
    requires AloneInCall(s0, s, cid, m) && s.cap > 0 && |s.cells| == s.cap && Enabled(s, Recheck(cid, false))
    requires SeesRecord(s0, s, s.clients[cid])
    ensures AloneInCall(s0, Apply(s, Recheck(cid, false)), cid, m)
  {
    var s' := Apply(s, Recheck(cid, false));
    assert s'.clients == s0.clients[cid := s'.clients[cid]];
  }

  lemma CopiedRecord(s: State, cid: Cid)
    requires Inv(s) && cid in s.clients && s.clients[cid].pc.Copying? && Copied(s.clients[cid].pc.local)
    requires ValidLocal(s.clients[cid].pc.local)
    ensures var call := s.clients[cid].pc.call;
      && call.now.cursor < |s.log|
      && (s.cells[CellOf(s, call.now.cursor)].seqno == call.now.cursor + 1 ==>
            Assemble(s.clients[cid].pc.local) == s.log[call.now.cursor].entry)
  {
    var c := s.clients[cid];
    assert ClientInv(s, c);
    assert Published(s, c.pc.call.now.cursor);
    RecheckObserves(s, c);
  }

  lemma StepAlone(s0: State, s: State, step: Step, cid: Cid, m: Mode)
    requires Inv(s0) && s0.writers == map[] && Inv(s) && AloneInCall(s0, s, cid, m) && Enabled(s, step)
    requires OwnCallStep(step, cid)
    ensures AloneInCall(s0, Apply(s, step), cid, m)
  {
    match step {
      case Poll(_) =>
        PollSees(s0, s, cid, m);
        PollAlone(s0, s, cid, m);
      case Copy(_, k) =>
        CopyAlone(s0, s, cid, m, k);
      case Recheck(_, _) =>
        RecheckSees(s0, s, cid, m);
        RecheckAlone(s0, s, cid, m);
    }
  }

  /** A finished call that saw the log is the sequential loop over any view that shows it. */
  lemma CallIsLoop(f: Filter, call: Active, view: nat -> Obs, log: seq<Entry>)
    requires call.head == |log| && call.first.cursor + |call.obs| <= |log| && Quiescent(view, log, call.first.cursor)
    requires call.now == Replay(f, call.mode, call.first, call.obs)
    requires Advancing(f, call.mode, call.first, call.obs, |log|) && Finished(call.now, |log|)
    requires forall m :: 0 <= m < |call.obs| ==>
      var q := call.first.cursor + m; call.obs[m] == Obs(q + 1, log[q], q + 1, false)
    ensures call.now == Loop(f, call.mode, call.first, view, |log|)
  {
    LoopReplays(f, call.mode, call.first, call.obs, view, |log|);
  }

  /** What the invariant says of a call under way. */
  lemma CallFacts(s: State, cid: Cid)
    requires Inv(s) && cid in s.clients && !s.clients[cid].pc.Idle?
    ensures var c := s.clients[cid];
      && c.pc.call.now == Replay(c.filter, c.pc.call.mode, c.pc.call.first, c.pc.call.obs)
      && Advancing(c.filter, c.pc.call.mode, c.pc.call.first, c.pc.call.obs, c.pc.call.head)
  {
    assert ClientInv(s, s.clients[cid]);
  }

  lemma HeadIsLog(s: State, cid: Cid)
    requires Inv(s) && cid in s.clients
    ensures s.head == |s.log| && s.clients[cid].cursor <= s.head
  {
    CursorBehindHead(s, cid);
  }

  /** What the ring shows the client when nobody writes: a valid log, all of its last lap published. */
  ghost predicate Still(s: State, c: Client, view: nat -> Obs) {
    && s.cap > 0 && c.cursor <= s.head == |s.log| && c.reported <= c.dropped && ValidLog(LogEntries(s.log))
    && Quiescent(view, LogEntries(s.log), SkipCursor(c.cursor, s.head, s.cap))
  }

  lemma QuietFrom(s: State, cid: Cid)
    requires Inv(s) && s.writers == map[] && cid in s.clients
    ensures Still(s, s.clients[cid], StillView(s))
  {
    HeadIsLog(s, cid);
    assert ClientInv(s, s.clients[cid]);
    StillRingIsQuiescent(s, SkipCursor(s.clients[cid].cursor, s.head, s.cap));
  }

  /** The client right before it finishes a call that was the sequential loop over what the ring showed. */
  ghost predicate Looped(s0: State, c0: Client, c: Client, view: nat -> Obs, m: Mode) {
    var first := StartCall(c0.cursor, c0.dropped, s0.head, s0.cap);
    && c.pc.Polling? && c == c0.(cursor := first.cursor, dropped := first.dropped, pc := c.pc)
    && c.pc.call.mode == m && c.pc.call.now == Loop(c0.filter, m, first, view, s0.head)
  }

  lemma FinishFromFacts(s0: State, s: State, cid: Cid, m: Mode, view: nat -> Obs)
    requires AloneInCall(s0, s, cid, m) && s.cap > 0 && |s.cells| == s.cap && Enabled(s, Finish(cid))
    requires Still(s0, s0.clients[cid], view)
    requires var c := s.clients[cid];
      && c.pc.call.now == Replay(c.filter, c.pc.call.mode, c.pc.call.first, c.pc.call.obs)
      && Advancing(c.filter, c.pc.call.mode, c.pc.call.first, c.pc.call.obs, c.pc.call.head)
    ensures Looped(s0, s0.clients[cid], s.clients[cid], view, m)
  {
    CallIsLoop(s.clients[cid].filter, s.clients[cid].pc.call, view, LogEntries(s0.log));
  }

  /** What a call left alone makes of its client. */
  ghost predicate CallOutcome(s0: State, c0: Client, c: Client, m: Mode) {
    exists view, before :: Still(s0, c0, view) && Looped(s0, c0, before, view, m) && c == FinishClient(before)
  }

  lemma FinishAlone(s0: State, s: State, cid: Cid, m: Mode)
    requires Inv(s0) && s0.writers == map[] && Inv(s) && AloneInCall(s0, s, cid, m) && Enabled(s, Finish(cid))
    ensures CallOutcome(s0, s0.clients[cid], Apply(s, Finish(cid)).clients[cid], m)
  {
    QuietFrom(s0, cid);
    CallFacts(s, cid);
    FinishFromFacts(s0, s, cid, m, StillView(s0));
  }

  /** The run takes these steps from state `i` on. */
  ghost predicate Follows(tr: seq<State>, i: nat, steps: seq<Step>) {
    i + |steps| < |tr| && forall k :: 0 <= k < |steps| ==> Took(tr, i + k, steps[k])
  }

  ghost predicate Took(tr: seq<State>, i: nat, step: Step)
    requires i + 1 < |tr|
  {
    tr[i].cap > 0 && |tr[i].cells| == tr[i].cap && Enabled(tr[i], step) && tr[i + 1] == Apply(tr[i], step)
  }

  /** A part of a run with no writer in flight in which one client, from the begin of a call to its finish, is the
      only one to step, the callback of a plain drain accepting. */
  ghost predicate LeftAlone(tr: seq<State>, i: nat, steps: seq<Step>, cid: Cid, r: Request) {
    && Run(tr) && Disciplined(tr) && Follows(tr, i, steps) && |steps| > 1
    && tr[i].writers == map[] && cid in tr[i].clients && tr[i].clients[cid].pc.Idle?
    && steps[0] == Begin(cid, r) && steps[|steps| - 1] == Finish(cid)
    && forall k :: 0 < k < |steps| - 1 ==> OwnCallStep(steps[k], cid)
  }

  /** The call was entered, or there would be nothing to step. */
  lemma Entered(s: State, cid: Cid, r: Request, step: Step)
    requires s.cap > 0 && |s.cells| == s.cap && cid in s.clients && s.clients[cid].pc.Idle?
    requires Enabled(Apply(s, Begin(cid, r)), step) && (OwnCallStep(step, cid) || step == Finish(cid))
    ensures exists m :: Enters(s.clients[cid], r, s.head, s.cap, m)
  {
    var d := BeginClient(s.clients[cid], r, s.head, s.cap);
    assert d.pc.Polling?;
    assert Enters(s.clients[cid], r, s.head, s.cap, d.pc.call.mode);
  }

  lemma FirstAlone(tr: seq<State>, i: nat, cid: Cid, r: Request, m: Mode)
    requires Run(tr) && Disciplined(tr) && i + 1 < |tr| && cid in tr[i].clients && tr[i].clients[cid].pc.Idle?
    requires Took(tr, i, Begin(cid, r)) && Enters(tr[i].clients[cid], r, tr[i].head, tr[i].cap, m)
    ensures AloneInCall(tr[i], tr[i + 1], cid, m)
  {
    RunInv(tr, i);
    BeginAlone(tr[i], cid, r, m);
  }

  lemma NextAlone(tr: seq<State>, i: nat, j: nat, step: Step, cid: Cid, m: Mode)
    requires Run(tr) && Disciplined(tr) && i <= j && j + 1 < |tr| && tr[i].writers == map[]
    requires AloneInCall(tr[i], tr[j], cid, m) && Took(tr, j, step) && OwnCallStep(step, cid)
    ensures AloneInCall(tr[i], tr[j + 1], cid, m)
  {
    RunInv(tr, i);
    RunInv(tr, j);
    StepAlone(tr[i], tr[j], step, cid, m);
  }

  lemma {:induction false} StaysAlone(tr: seq<State>, i: nat, steps: seq<Step>, cid: Cid, r: Request, m: Mode, k: nat)
    requires LeftAlone(tr, i, steps, cid, r) && Enters(tr[i].clients[cid], r, tr[i].head, tr[i].cap, m)
    requires 0 < k < |steps|
    ensures AloneInCall(tr[i], tr[i + k], cid, m)
  {
    assert Took(tr, i + (k - 1), steps[k - 1]);
    if k == 1 {
      FirstAlone(tr, i, cid, r, m);
    } else {
      StaysAlone(tr, i, steps, cid, r, m, k - 1);
      NextAlone(tr, i, i + k - 1, steps[k - 1], cid, m);
    }
  }

  lemma CallLeftAlone(tr: seq<State>, i: nat, steps: seq<Step>, cid: Cid, r: Request, m: Mode)
    requires LeftAlone(tr, i, steps, cid, r) && Enters(tr[i].clients[cid], r, tr[i].head, tr[i].cap, m)
    ensures cid in tr[i + |steps|].clients && CallOutcome(tr[i], tr[i].clients[cid], tr[i + |steps|].clients[cid], m)
  {
    var last := |steps| - 1;
    StaysAlone(tr, i, steps, cid, r, m, last);
    assert Took(tr, i + last, steps[last]);
    EndsAlone(tr, i, i + last, cid, m);
  }

  lemma EndsAlone(tr: seq<State>, i: nat, j: nat, cid: Cid, m: Mode)
    requires Run(tr) && Disciplined(tr) && i <= j && j + 1 < |tr| && tr[i].writers == map[]
    requires AloneInCall(tr[i], tr[j], cid, m) && Took(tr, j, Finish(cid))
    ensures cid in tr[j + 1].clients && CallOutcome(tr[i], tr[i].clients[cid], tr[j + 1].clients[cid], m)
  {
    RunInv(tr, i);
    RunInv(tr, j);
    FinishAlone(tr[i], tr[j], cid, m);
  }

  // --------------------------------------------------------------------------------- what such a call yields

  /** What a completed drain hands over and leaves: the filtered last min(head - cursor, capacity) records logged. */
  ghost predicate Drained(s0: State, c0: Client, c: Client)
    requires c0.cursor <= s0.head == |s0.log|
  {
    var n := Min(s0.head - c0.cursor, s0.cap);
    && c.pc.Idle? && c.cursor == s0.head && c.dropped == c0.dropped + (s0.head - c0.cursor - n)
    && c.delivered == c0.delivered + Selected(c0.filter, LogEntries(s0.log), s0.head - n)
  }

  lemma DrainOutcome(s0: State, c0: Client, c: Client)
    requires CallOutcome(s0, c0, c, Emit)
    ensures c0.cursor <= s0.head == |s0.log| && Drained(s0, c0, c)
  {
    var view, before :| Still(s0, c0, view) && Looped(s0, c0, before, view, Emit) && c == FinishClient(before);
    FullDrain(c0.filter, c0.cursor, c0.dropped, s0.cap, view, LogEntries(s0.log));
  }

  /** A drain left alone delivers the filtered last min(head - cursor, capacity) records of the unbounded log and
      ends at the head. */
  lemma DrainLeftAlone(tr: seq<State>, i: nat, steps: seq<Step>, cid: Cid)
    requires LeftAlone(tr, i, steps, cid, DrainRequest)
    ensures tr[i].clients[cid].cursor <= tr[i].head == |tr[i].log| && cid in tr[i + |steps|].clients
    ensures Drained(tr[i], tr[i].clients[cid], tr[i + |steps|].clients[cid])
  {
    CallLeftAlone(tr, i, steps, cid, DrainRequest, Emit);
    DrainOutcome(tr[i], tr[i].clients[cid], tr[i + |steps|].clients[cid]);
  }

  function ServedSoFar(c: Client): Served { Served(c.cursor, c.dropped, c.delivered, c.lost) }

  /** What a completed packed drain hands over and leaves: what its table has room for, in one packet. */
  ghost predicate PackedOnce(s0: State, c0: Client, c: Client, bufSize: nat)
    requires s0.cap > 0 && c0.cursor <= s0.head == |s0.log|
  {
    var from := SkipCursor(c0.cursor, s0.head, s0.cap);
    && c.pc.Idle? && c.cursor <= s0.head && c0.reported <= c.dropped && c0.delivered <= c.delivered
    && Packs(c0.filter, ServedSoFar(c0), ServedSoFar(c), LogEntries(s0.log), from, bufSize)
    && var packed := c.delivered[|c0.delivered|..];
       c.packets == c0.packets + (if packed == [] then [] else [Packet(packed, Report(c.dropped, c0.reported))])
  }

  lemma EnteredRows(c: Client, head: nat, cap: nat, bufSize: nat, m: Mode)
    requires c.pc.Idle? && Enters(c, PackedRequest(bufSize), head, cap, m)
    ensures WorstCaseRows(bufSize) > 0
    ensures BeginPacked(c.cursor, c.dropped, head, cap, bufSize) == Enter(m, StartCall(c.cursor, c.dropped, head, cap))
  {
    assert BeginPacked(c.cursor, c.dropped, head, cap, bufSize).Enter?;
  }

  lemma PackedOutcome(s0: State, c0: Client, c: Client, bufSize: nat, m: Mode)
    requires CallOutcome(s0, c0, c, m) && c0.pc.Idle? && Enters(c0, PackedRequest(bufSize), s0.head, s0.cap, m)
    ensures s0.cap > 0 && c0.cursor <= s0.head == |s0.log| && PackedOnce(s0, c0, c, bufSize)
  {
    var view, before :| Still(s0, c0, view) && Looped(s0, c0, before, view, m) && c == FinishClient(before);
    EnteredRows(c0, s0.head, s0.cap, bufSize, m);
    PackedDrain(c0.filter, ServedSoFar(c0), view, LogEntries(s0.log), s0.cap, bufSize);
  }

  /** A packed drain left alone packs, of the filtered last min(head - cursor, capacity) records, as many as its table
      has rows; it loses the next one, unseen by any drop count, if and only if there is one. */
  lemma PackedLeftAlone(tr: seq<State>, i: nat, steps: seq<Step>, cid: Cid, bufSize: nat)
    requires LeftAlone(tr, i, steps, cid, PackedRequest(bufSize))
    ensures tr[i].cap > 0 && tr[i].clients[cid].cursor <= tr[i].head == |tr[i].log| && cid in tr[i + |steps|].clients
    ensures PackedOnce(tr[i], tr[i].clients[cid], tr[i + |steps|].clients[cid], bufSize)
  {
    assert Took(tr, i + 0, steps[0]) && Took(tr, i + 1, steps[1]);
    Entered(tr[i], cid, PackedRequest(bufSize), steps[1]);
    var m :| Enters(tr[i].clients[cid], PackedRequest(bufSize), tr[i].head, tr[i].cap, m);
    CallLeftAlone(tr, i, steps, cid, PackedRequest(bufSize), m);
    PackedOutcome(tr[i], tr[i].clients[cid], tr[i + |steps|].clients[cid], bufSize, m);
  }
}
