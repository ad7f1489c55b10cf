/**
  What packed drains cost.  A packed call advances its cursor before it finds the packet full, so the entry it stops
  on is gone, and no drop count tells.  Over a quiet ring this says exactly which entries arrive and which do not, for
  one call and for the server's loop of calls over a backlog.
*/
module PackedLoss {
  import opened Bytes
  import opened Bits
  import opened DrainCore

  predicate ValidLog(log: seq<Entry>) {
    forall i :: 0 <= i < |log| ==> ValidEntry(log[i])
  }

  /** A packed call under way that has not stopped. */
  ghost predicate Packing(m: Mode, a: Call) {
    && m.Pack? && ValidMode(m) && !a.stopped && a.lost == 0
    && ValidOut(a.out) && a.bytes == PayloadTotal(a.out) && |a.out| <= Rows(m)
  }

  /** What one iteration over a published slot holding `e` does. */
  ghost predicate Stepped(f: Filter, m: Mode, a: Call, b: Call, e: Entry)
    requires m.Pack?
  {
    && b.cursor == a.cursor + 1 && b.dropped == a.dropped
    && (if !Accepts(f, e.id) then Packing(m, b) && b.out == a.out
        else if |a.out| < Rows(m) then Packing(m, b) && b.out == a.out + [Delivery(a.cursor, e)]
        else b.stopped && b.lost == 1 && b.out == a.out)
  }

  lemma QuietStep(f: Filter, m: Mode, a: Call, e: Entry)
    requires Packing(m, a) && ValidEntry(e)
    ensures Stepped(f, m, a, Iterate(f, m, a, Obs(a.cursor + 1, e, a.cursor + 1, false)), e)
  {
    if Accepts(f, e.id) && |a.out| < Rows(m) {
      PayloadFitsWhileRowsRemain(m, a.out, e);
      assert (a.out + [Delivery(a.cursor, e)])[..|a.out|] == a.out;
    }
  }

  /** A packed call from `a` to `b`, when `sel` was selected ahead of it: it packs what its table has room for,
      loses the next one if there is one, and leaves the rest for later. */
  ghost predicate TakesInOrder(m: Mode, a: Call, b: Call, sel: seq<Delivery>, later: seq<Delivery>)
    requires m.Pack? && |a.out| <= Rows(m)
  {
    var room := Rows(m) - |a.out|;
    && b.dropped == a.dropped
    && (if |sel| > room then b.lost == 1 && b.out == a.out + sel[..room] && later == sel[room + 1..]
        else b.lost == 0 && b.out == a.out + sel && later == [])
  }

  ghost predicate Completes(f: Filter, m: Mode, a: Call, b: Call, log: seq<Entry>)
    requires Packing(m, a) && a.cursor <= |log|
  {
    && a.cursor <= b.cursor <= |log| && (b.lost == 0 ==> b.cursor == |log|)
    && TakesInOrder(m, a, b, Selected(f, log, a.cursor), Selected(f, log, b.cursor))
  }

  /** A call completes if it does after its next step. */
  lemma CompletesStep(f: Filter, m: Mode, a: Call, b: Call, last: Call, log: seq<Entry>)
    requires Packing(m, a) && a.cursor < |log| && Stepped(f, m, a, b, log[a.cursor])
    requires if b.stopped then last == b else Completes(f, m, b, last, log)
    ensures Completes(f, m, a, last, log)
  {
    var d, rest := Delivery(a.cursor, log[a.cursor]), Selected(f, log, a.cursor + 1);
    if b.stopped {
      StoppedOn(m, a, b, d, rest);
    } else if Accepts(f, log[a.cursor].id) {
      TookOne(m, a, b, last, d, rest, Selected(f, log, last.cursor));
    }
  }

  /** One packed call over a quiet ring. */
  lemma {:induction false} QuietPackedLoop(f: Filter, m: Mode, a: Call, view: nat -> Obs, log: seq<Entry>)
    requires Packing(m, a) && a.cursor <= |log| && Quiescent(view, log, a.cursor) && ValidLog(log)
    ensures Completes(f, m, a, Loop(f, m, a, view, |log|), log)
    decreases |log| - a.cursor
  {
    if a.cursor < |log| {
      var b := Iterate(f, m, a, view(a.cursor));
      QuietStep(f, m, a, log[a.cursor]);
      LoopUnfolds(f, m, a, view, |log|);
      if !b.stopped { QuietPackedLoop(f, m, b, view, log); }
      CompletesStep(f, m, a, b, Loop(f, m, b, view, |log|), log);
    }
  }

  lemma StoppedOn(m: Mode, a: Call, b: Call, d: Delivery, rest: seq<Delivery>)
    requires m.Pack? && |a.out| == Rows(m) && b.out == a.out && b.dropped == a.dropped && b.lost == 1
    ensures TakesInOrder(m, a, b, [d] + rest, rest)
  {
    assert a.out + ([d] + rest)[..0] == a.out && ([d] + rest)[1..] == rest;
  }

  lemma TookOne(m: Mode, a: Call, b: Call, c: Call, d: Delivery, rest: seq<Delivery>, later: seq<Delivery>)
    requires m.Pack? && |a.out| < Rows(m) && b.out == a.out + [d] && b.dropped == a.dropped
    requires TakesInOrder(m, b, c, rest, later)
    ensures TakesInOrder(m, a, c, [d] + rest, later)
  {
    var room := Rows(m) - |b.out|;
    if |rest| > room {
      assert ([d] + rest)[..room + 1] == [d] + rest[..room];
      assert ([d] + rest)[room + 2..] == rest[room + 1..];
    }
  }

  // ------------------------------------------------------------------------------------------ one call

  /** What a client has been given and is left with. */
  datatype Served = Served(cursor: nat, dropped: nat, out: seq<Delivery>, lost: nat)

  /** `btelem_drain_packed`, seen by a client that was served `c` before. */
  function PackedCall(f: Filter, c: Served, view: nat -> Obs, head: nat, cap: nat, bufSize: nat): Served {
    match BeginPacked(c.cursor, c.dropped, head, cap, bufSize)
    case Return(_, first) => c.(cursor := first.cursor, dropped := first.dropped)
    case Enter(m, first) =>
      var a := Loop(f, m, first, view, head);
      Served(a.cursor, a.dropped, c.out + a.out, c.lost + a.lost)
  }

  /** The rows of a call's table after the cast, with `available` slots ahead. */
  function CallRows(bufSize: nat, available: nat): nat {
    Min(WorstCaseRows(bufSize), available) % U16
  }

  ghost predicate Packs(f: Filter, c: Served, d: Served, log: seq<Entry>, from: nat, bufSize: nat)
    requires c.cursor <= from <= |log| && d.cursor <= |log|
  {
    var sel, rows := Selected(f, log, from), CallRows(bufSize, |log| - from);
    && d.dropped == c.dropped + (from - c.cursor) && from <= d.cursor
    && (if |sel| > rows then
          d.lost == c.lost + 1 && d.out == c.out + sel[..rows] && Selected(f, log, d.cursor) == sel[rows + 1..]
        else
          d.lost == c.lost && d.out == c.out + sel && d.cursor == |log|)
  }

  lemma EnteredPacks(f: Filter, c: Served, view: nat -> Obs, log: seq<Entry>, cap: nat, m: Mode, first: Call)
    requires c.cursor <= first.cursor < |log| <= first.cursor + cap && Quiescent(view, log, first.cursor)
    requires ValidLog(log)
    requires m.Pack? && BeginPacked(c.cursor, c.dropped, |log|, cap, m.bufSize) == Enter(m, first)
    ensures PackedCall(f, c, view, |log|, cap, m.bufSize).cursor <= |log|
    ensures Packs(f, c, PackedCall(f, c, view, |log|, cap, m.bufSize), log, first.cursor, m.bufSize)
  {
    EnteredMode(c, |log|, cap, m, first);
    QuietPackedLoop(f, m, first, view, log);
    CompletedPacks(f, c, m, first, Loop(f, m, first, view, |log|), log);
  }

  lemma EnteredMode(c: Served, head: nat, cap: nat, m: Mode, first: Call)
    requires m.Pack? && BeginPacked(c.cursor, c.dropped, head, cap, m.bufSize) == Enter(m, first)
    requires c.cursor <= first.cursor < head <= first.cursor + cap
    ensures Packing(m, first) && first.out == [] && Rows(m) == CallRows(m.bufSize, head - first.cursor)
    ensures first.dropped == c.dropped + (first.cursor - c.cursor)
  {
  }

  lemma CompletedPacks(f: Filter, c: Served, m: Mode, first: Call, a: Call, log: seq<Entry>)
    requires Packing(m, first) && first.out == [] && c.cursor <= first.cursor <= |log| && Completes(f, m, first, a, log)
    requires Rows(m) == CallRows(m.bufSize, |log| - first.cursor)
    requires first.dropped == c.dropped + (first.cursor - c.cursor)
    ensures Packs(f, c, Served(a.cursor, a.dropped, c.out + a.out, c.lost + a.lost), log, first.cursor, m.bufSize)
  {
    var sel := Selected(f, log, first.cursor);
    assert [] + sel == sel && (|sel| > Rows(m) ==> [] + sel[..Rows(m)] == sel[..Rows(m)]);
  }

  /** One packed call over a quiet ring, in a buffer that holds a worst-case entry: of what is selected in the last
      min(head - cursor, capacity) entries it packs as many as the table has rows, and it silently loses the next one
      if and only if there is one.  The drop count moves by the entries already overwritten, and by nothing else. */
  lemma PackedDrain(f: Filter, c: Served, view: nat -> Obs, log: seq<Entry>, cap: nat, bufSize: nat)
    requires c.cursor <= |log| && cap > 0 && ValidLog(log) && WorstCaseRows(bufSize) > 0
    requires Quiescent(view, log, SkipCursor(c.cursor, |log|, cap))
    ensures PackedCall(f, c, view, |log|, cap, bufSize).cursor <= |log|
    ensures Packs(f, c, PackedCall(f, c, view, |log|, cap, bufSize), log, SkipCursor(c.cursor, |log|, cap), bufSize)
  {
    var begun := BeginPacked(c.cursor, c.dropped, |log|, cap, bufSize);
    if begun.Enter? { EnteredPacks(f, c, view, log, cap, begun.mode, begun.call); }
  }

  lemma {:induction false} AllSelected(log: seq<Entry>, from: nat)
    requires from <= |log|
    ensures |Selected(AcceptAll, log, from)| == |log| - from
    decreases |log| - from
  {
    if from < |log| { AllSelected(log, from + 1); }
  }

  lemma {:induction false} SelectedFits(f: Filter, log: seq<Entry>, from: nat)
    requires from <= |log|
    ensures |Selected(f, log, from)| <= |log| - from
    decreases |log| - from
  {
    if from < |log| { SelectedFits(f, log, from + 1); }
  }

  /** What a caller without a filter can check before the call: it will lose an entry if and only if
      `btelem_client_available` answers more than the buffer holds worst-case entries. */
  lemma LossIsForeseeable(c: Served, view: nat -> Obs, log: seq<Entry>, cap: nat, bufSize: nat)
    requires c.cursor <= |log| && cap > 0 && ValidLog(log) && 16 + 248 <= bufSize < 16 + 248 * 65536
    requires Quiescent(view, log, SkipCursor(c.cursor, |log|, cap))
    ensures
      var d := PackedCall(AcceptAll, c, view, |log|, cap, bufSize);
      && (d.lost == c.lost || d.lost == c.lost + 1)
      && (d.lost == c.lost + 1 <==> bufSize < 16 + 248 * Available(c.cursor, |log|, cap).available)
  {
    PackedDrain(AcceptAll, c, view, log, cap, bufSize);
    AllSelected(log, SkipCursor(c.cursor, |log|, cap));
  }

  // ------------------------------------------------------------------------------------------ a backlog

  /** Every `w`-th one left out. */
  function Thinned(sel: seq<Delivery>, w: nat): (r: seq<Delivery>)
    requires w > 0
    decreases |sel|
  {
    if |sel| < w then sel else sel[..w - 1] + Thinned(sel[w..], w)
  }

  /** Of `n` selected entries, how many follow `w - 1` that fill a packet. */
  function Beyond(n: nat, w: nat): nat
    requires w > 0
    decreases n
  {
    if n < w then 0 else 1 + Beyond(n - w, w)
  }

  /** One in `w`. */
  lemma {:induction false} BeyondIsDiv(n: nat, w: nat)
    requires w > 0
    ensures Beyond(n, w) == n / w
    decreases n
  {
    if n < w {
      RemainderUnique(w, n, 0, n);
    } else {
      BeyondIsDiv(n - w, w);
      DivStep(n, w);
    }
  }

  lemma {:induction false} ThinnedFrom(sel: seq<Delivery>, w: nat, k: nat)
    requires w > 1
    ensures |Thinned(sel, w)| == |sel| - Beyond(|sel|, w)
    ensures k < |Thinned(sel, w)| ==> k + Beyond(k, w - 1) < |sel| && Thinned(sel, w)[k] == sel[k + Beyond(k, w - 1)]
    decreases |sel|
  {
    if |sel| >= w { ThinnedFrom(sel[w..], w, if k < w - 1 then 0 else k - (w - 1)); }
  }

  /** What is left out of a selection cut into packets of `rows`: number k of what is left was number k + k / rows. */
  lemma ThinnedAt(sel: seq<Delivery>, rows: nat, k: nat)
    requires rows > 0
    ensures |Thinned(sel, rows + 1)| == |sel| - |sel| / (rows + 1)
    ensures k < |Thinned(sel, rows + 1)| ==> k + k / rows < |sel| && Thinned(sel, rows + 1)[k] == sel[k + k / rows]
  {
    ThinnedFrom(sel, rows + 1, k);
    BeyondIsDiv(|sel|, rows + 1);
    BeyondIsDiv(k, rows);
  }

  /** The server's loop: call after call. */
  function Serve(f: Filter, c: Served, view: nat -> Obs, head: nat, cap: nat, bufSize: nat, calls: nat): Served
    decreases calls
  {
    if calls == 0 then c
    else Serve(f, PackedCall(f, c, view, head, cap, bufSize), view, head, cap, bufSize, calls - 1)
  }

  lemma {:induction false} NothingLeft(f: Filter, c: Served, view: nat -> Obs, head: nat, cap: nat, bufSize: nat,
                                       calls: nat)
    requires c.cursor == head
    ensures Serve(f, c, view, head, cap, bufSize, calls) == c
  {
    if calls > 0 { NothingLeft(f, c, view, head, cap, bufSize, calls - 1); }
  }

  lemma DivStep(n: nat, w: nat)
    requires n >= w > 0
    ensures n / w == (n - w) / w + 1
  {
    var q, r := (n - w) / w, (n - w) % w;
    assert n - w == w * q + r;
    RemainderUnique(w, n, q + 1, r);
  }

  /** What the server's loop makes of a backlog: `k` entries are missing from the deliveries, every one that follows
      a full packet, and the drop count does not show them. */
  ghost predicate Arrives(c: Served, d: Served, sel: seq<Delivery>, overwritten: nat, head: nat, w: nat)
    requires w > 0
  {
    && d.out == c.out + Thinned(sel, w) && d.lost == c.lost + Beyond(|sel|, w)
    && d.dropped == c.dropped + overwritten && d.cursor == head
  }

  /** One call of the loop, the cast being exact. */
  ghost predicate Round(f: Filter, c: Served, d: Served, log: seq<Entry>, from: nat, w: nat)
    requires w > 0 && c.cursor <= from <= |log|
  {
    var sel := Selected(f, log, from);
    && d.dropped == c.dropped + (from - c.cursor) && from <= d.cursor <= |log|
    && (if |sel| >= w then
          d.lost == c.lost + 1 && d.out == c.out + sel[..w - 1] && Selected(f, log, d.cursor) == sel[w..]
        else
          d.lost == c.lost && d.out == c.out + sel && d.cursor == |log|)
  }

  lemma ServeRound(f: Filter, c: Served, view: nat -> Obs, log: seq<Entry>, cap: nat, bufSize: nat, from: nat, w: nat)
    requires c.cursor <= |log| && cap > 0 && ValidLog(log) && w == WorstCaseRows(bufSize) + 1 > 1
    requires from == SkipCursor(c.cursor, |log|, cap) && Quiescent(view, log, from) && Min(w - 1, |log| - from) < U16
    ensures Round(f, c, PackedCall(f, c, view, |log|, cap, bufSize), log, from, w)
  {
    PackedDrain(f, c, view, log, cap, bufSize);
    PacksRound(f, c, PackedCall(f, c, view, |log|, cap, bufSize), log, from, bufSize, w);
  }

  lemma PacksRound(f: Filter, c: Served, d: Served, log: seq<Entry>, from: nat, bufSize: nat, w: nat)
    requires c.cursor <= from <= |log| && d.cursor <= |log| && Packs(f, c, d, log, from, bufSize)
    requires w == WorstCaseRows(bufSize) + 1 && Min(w - 1, |log| - from) < U16
    ensures Round(f, c, d, log, from, w)
  {
    var rows := CallRows(bufSize, |log| - from);
    assert rows == Min(w - 1, |log| - from);
    SelectedFits(f, log, from);
  }

  lemma {:induction false} ServeArrives(f: Filter, c: Served, view: nat -> Obs, log: seq<Entry>, cap: nat, bufSize: nat,
                                        calls: nat, from: nat, w: nat)
    requires c.cursor <= |log| && cap > 0 && ValidLog(log) && w == WorstCaseRows(bufSize) + 1 > 1
    requires from == SkipCursor(c.cursor, |log|, cap) && Quiescent(view, log, from) && Min(w - 1, |log| - from) < U16
    requires calls > Beyond(|Selected(f, log, from)|, w)
    ensures Arrives(c, Serve(f, c, view, |log|, cap, bufSize, calls), Selected(f, log, from), from - c.cursor, |log|, w)
    decreases calls
  {
    var d, sel := PackedCall(f, c, view, |log|, cap, bufSize), Selected(f, log, from);
    ServeRound(f, c, view, log, cap, bufSize, from, w);
    if |sel| < w {
      NothingLeft(f, d, view, |log|, cap, bufSize, calls - 1);
    } else {
      ServeArrives(f, d, view, log, cap, bufSize, calls - 1, d.cursor, w);
      ArrivesStep(c, d, Serve(f, d, view, |log|, cap, bufSize, calls - 1), sel, from - c.cursor, |log|, w);
    }
  }

  /** However many entries a quiet ring holds for a client: once the server has called often enough, every selected
      entry has arrived but each (rows + 1)-th one, and the client's drop count has moved by the entries overwritten
      before the first call only. */
  lemma BacklogLoss(f: Filter, c: Served, view: nat -> Obs, log: seq<Entry>, cap: nat, bufSize: nat, calls: nat)
    requires c.cursor <= |log| && cap > 0 && ValidLog(log) && WorstCaseRows(bufSize) > 0
    requires Quiescent(view, log, SkipCursor(c.cursor, |log|, cap))
    requires Min(WorstCaseRows(bufSize), |log| - SkipCursor(c.cursor, |log|, cap)) < U16
    requires calls > |Selected(f, log, SkipCursor(c.cursor, |log|, cap))| / (WorstCaseRows(bufSize) + 1)
    ensures
      var from, w := SkipCursor(c.cursor, |log|, cap), WorstCaseRows(bufSize) + 1;
      var d := Serve(f, c, view, |log|, cap, bufSize, calls);
      var sel := Selected(f, log, from);
      && d.out == c.out + Thinned(sel, w) && d.lost == c.lost + |sel| / w
      && d.dropped == c.dropped + (from - c.cursor) && d.cursor == |log|
  {
    var from, w := SkipCursor(c.cursor, |log|, cap), WorstCaseRows(bufSize) + 1;
    BeyondIsDiv(|Selected(f, log, from)|, w);
    ServeArrives(f, c, view, log, cap, bufSize, calls, from, w);
  }

  lemma ArrivesStep(c: Served, d: Served, e: Served, sel: seq<Delivery>, overwritten: nat, head: nat, w: nat)
    requires 0 < w <= |sel|
    requires d.out == c.out + sel[..w - 1] && d.lost == c.lost + 1 && d.dropped == c.dropped + overwritten
    requires Arrives(d, e, sel[w..], 0, head, w)
    ensures Arrives(c, e, sel, overwritten, head, w)
  {
    assert c.out + sel[..w - 1] + Thinned(sel[w..], w) == c.out + (sel[..w - 1] + Thinned(sel[w..], w));
  }
}
