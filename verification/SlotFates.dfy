/**
  What becomes of each slot a drain call passes, told from what was observed there and from the ids the client asked
  for: a slot overwritten under the copy is dropped, an unwanted one is filtered, a wanted one is delivered.
*/
module SlotFates {
  import opened Bytes
  import opened DrainCore

  /** Committed when polled, overwritten before the copy was complete. */
  predicate Torn(o: Obs, s: nat) { o.before == s + 1 && o.after != s + 1 }

  predicate Intact(o: Obs, s: nat) { o.before == s + 1 && o.after == s + 1 }

  /** How many of the slots in `[lo, hi)` were seen torn. */
  function TornCount(view: nat -> Obs, lo: nat, hi: nat): nat
    requires lo <= hi
    decreases hi - lo
  {
    if lo == hi then 0 else (if Torn(view(lo), lo) then 1 else 0) + TornCount(view, lo + 1, hi)
  }

  /** How many were seen intact with an id that is not asked for. */
  function UnwantedCount(f: Filter, view: nat -> Obs, lo: nat, hi: nat): nat
    requires lo <= hi
    decreases hi - lo
  {
    if lo == hi then 0
    else
      (if Intact(view(lo), lo) && f.Only? && view(lo).entry.id !in f.ids then 1 else 0) +
      UnwantedCount(f, view, lo + 1, hi)
  }

  /** The intact ones that are asked for, in slot order. */
  function WantedSlots(f: Filter, view: nat -> Obs, lo: nat, hi: nat): seq<Delivery>
    requires lo <= hi
    decreases hi - lo
  {
    if lo == hi then []
    else
      var o := view(lo);
      (if Intact(o, lo) && (f.Only? ==> o.entry.id in f.ids) then [Delivery(lo, o.entry)] else []) +
      WantedSlots(f, view, lo + 1, hi)
  }

  /** The fate of every slot between two states of a call: all were committed, and torn, unwanted and wanted ones went
      to `dropped`, `filtered` and `out`; what `out` lacks of the wanted ones, at the end, is `lost`. */
  ghost predicate Fates(f: Filter, view: nat -> Obs, a: Call, b: Call) {
    && a.cursor <= b.cursor && (forall s :: a.cursor <= s < b.cursor ==> view(s).before == s + 1)
    && b.dropped == a.dropped + TornCount(view, a.cursor, b.cursor)
    && b.filtered == a.filtered + UnwantedCount(f, view, a.cursor, b.cursor)
    && b.out <= a.out + WantedSlots(f, view, a.cursor, b.cursor)
    && |a.out| + |WantedSlots(f, view, a.cursor, b.cursor)| - |b.out| == b.lost - a.lost
  }

  lemma StepFates(f: Filter, m: Mode, a: Call, view: nat -> Obs)
    ensures Fates(f, view, a, Iterate(f, m, a, view(a.cursor)))
  {
    var b := Iterate(f, m, a, view(a.cursor));
    if b.cursor == a.cursor + 1 {
      assert TornCount(view, b.cursor, b.cursor) == 0 && UnwantedCount(f, view, b.cursor, b.cursor) == 0;
      assert WantedSlots(f, view, b.cursor, b.cursor) == [];
    }
  }

  lemma FatesCons(f: Filter, view: nat -> Obs, a: Call, b: Call, c: Call)
    requires Fates(f, view, a, b) && Fates(f, view, b, c) && b.cursor == a.cursor + 1 && b.lost == a.lost
    ensures Fates(f, view, a, c)
  {
    var w, later := WantedSlots(f, view, a.cursor, b.cursor), WantedSlots(f, view, b.cursor, c.cursor);
    assert TornCount(view, b.cursor, b.cursor) == 0 && UnwantedCount(f, view, b.cursor, b.cursor) == 0;
    assert WantedSlots(f, view, b.cursor, b.cursor) == [];
    assert WantedSlots(f, view, a.cursor, c.cursor) == w + later;
    assert b.out == a.out + w;
    assert a.out + (w + later) == b.out + later;
  }

  /** Every call of either kind, for everything the ring can show, sorts the slots it passes so. */
  lemma {:induction false} LoopFates(f: Filter, m: Mode, a: Call, view: nat -> Obs, head: nat)
    requires !a.stopped
    ensures Fates(f, view, a, Loop(f, m, a, view, head))
    decreases head - a.cursor
  {
    if a.cursor < head {
      var b := Iterate(f, m, a, view(a.cursor));
      StepFates(f, m, a, view);
      LoopUnfolds(f, m, a, view, head);
      if !b.stopped {
        LoopFates(f, m, b, view, head);
        FatesCons(f, view, a, b, Loop(f, m, b, view, head));
      }
    }
  }

  /** Why a call from `a` ended at `b`: it reached the head; or the next slot is not committed; or, emitting, the
      callback that took the last slot passed asked to stop; or, packing, the packet was full. */
  ghost predicate EndsFor(m: Mode, view: nat -> Obs, a: Call, b: Call, head: nat) {
    || b.cursor >= head
    || view(b.cursor).before != b.cursor + 1
    || (m.Emit? && |b.out| > |a.out| && b.out[|b.out| - 1].slot == b.cursor - 1 && view(b.cursor - 1).stop)
    || (m.Pack? && b.lost == a.lost + 1)
  }

  /** Until then no callback asked to stop. */
  ghost predicate AskedOnlyLast(view: nat -> Obs, a: Call, b: Call) {
    forall i :: |a.out| <= i < |b.out| - 1 ==> !view(b.out[i].slot).stop
  }

  /** Every call goes on until there is reason to end, and an emitting one not beyond a callback that asks to stop. */
  lemma {:induction false} LoopEnds(f: Filter, m: Mode, a: Call, view: nat -> Obs, head: nat)
    requires !a.stopped
    ensures var b := Loop(f, m, a, view, head);
      && a.out <= b.out && EndsFor(m, view, a, b, head)
      && (m.Emit? ==> AskedOnlyLast(view, a, b))
    decreases head - a.cursor
  {
    if a.cursor < head {
      var b := Iterate(f, m, a, view(a.cursor));
      LoopUnfolds(f, m, a, view, head);
      if !b.stopped {
        LoopEnds(f, m, b, view, head);
        EndsLater(f, m, a, b, Loop(f, m, b, view, head), view, head);
      }
    }
  }

  lemma EndsLater(f: Filter, m: Mode, a: Call, b: Call, c: Call, view: nat -> Obs, head: nat)
    requires b == Iterate(f, m, a, view(a.cursor)) && !b.stopped && b.out <= c.out && EndsFor(m, view, b, c, head)
    requires m.Emit? ==> AskedOnlyLast(view, b, c)
    ensures a.out <= c.out && EndsFor(m, view, a, c, head) && (m.Emit? ==> AskedOnlyLast(view, a, c))
  {
  }

  /** The whole account of an emitting call: the fate of every slot, and why and where it ended. */
  ghost predicate Told(f: Filter, view: nat -> Obs, a: Call, b: Call, head: nat) {
    Fates(f, view, a, b) && EndsFor(Emit, view, a, b, head) && AskedOnlyLast(view, a, b)
  }

  lemma LoopTold(f: Filter, a: Call, view: nat -> Obs, head: nat)
    requires !a.stopped
    ensures Told(f, view, a, Loop(f, Emit, a, view, head), head)
  {
    LoopFates(f, Emit, a, view, head);
    LoopEnds(f, Emit, a, view, head);
  }

  /** A delivery is wanted: seen intact at its slot, its id asked for. */
  lemma {:induction false} WantedExactly(f: Filter, view: nat -> Obs, lo: nat, hi: nat, d: Delivery)
    requires lo <= hi
    ensures d in WantedSlots(f, view, lo, hi) <==>
      && lo <= d.slot < hi && view(d.slot).before == view(d.slot).after == d.slot + 1
      && d.entry == view(d.slot).entry && (f.AcceptAll? || d.entry.id in f.ids)
    decreases hi - lo
  {
    if lo < hi { WantedExactly(f, view, lo + 1, hi, d); }
  }

  /** What any call delivers was seen intact at its slot and asked for. */
  lemma DeliveredIsWanted(f: Filter, m: Mode, a: Call, view: nat -> Obs, head: nat, d: Delivery)
    requires !a.stopped && d in Loop(f, m, a, view, head).out && d !in a.out
    ensures a.cursor <= d.slot < Loop(f, m, a, view, head).cursor
    ensures view(d.slot) == Obs(d.slot + 1, d.entry, d.slot + 1, view(d.slot).stop)
    ensures f.AcceptAll? || d.entry.id in f.ids
  {
    var b := Loop(f, m, a, view, head);
    LoopFates(f, m, a, view, head);
    var w := WantedSlots(f, view, a.cursor, b.cursor);
    assert d in a.out + w;
    WantedExactly(f, view, a.cursor, b.cursor, d);
  }

  // ------------------------------------------------------------------------------------- a quiet ring

  lemma {:induction false} SelectedExactly(f: Filter, log: seq<Entry>, from: nat, d: Delivery)
    requires from <= |log|
    ensures d in Selected(f, log, from) <==>
      from <= d.slot < |log| && d.entry == log[d.slot] && (f.AcceptAll? || d.entry.id in f.ids)
    decreases |log| - from
  {
    if from < |log| { SelectedExactly(f, log, from + 1, d); }
  }

  /** The entries of `log` from `from` on whose ids are asked for, and no others. */
  ghost predicate Delivers(out: seq<Delivery>, f: Filter, log: seq<Entry>, from: nat) {
    forall d :: d in out <==>
      from <= d.slot < |log| && d.entry == log[d.slot] && (f.AcceptAll? || d.entry.id in f.ids)
  }

  lemma SelectedDelivers(f: Filter, log: seq<Entry>, from: nat)
    requires from <= |log|
    ensures Delivers(Selected(f, log, from), f, log, from)
  {
    forall d ensures d in Selected(f, log, from) <==>
      from <= d.slot < |log| && d.entry == log[d.slot] && (f.AcceptAll? || d.entry.id in f.ids)
    {
      SelectedExactly(f, log, from, d);
    }
  }

  /** A full drain of a quiet ring delivers an entry if and only if it is one of the last min(head - cursor, capacity)
      logged and its id is asked for. */
  lemma DrainedExactly(f: Filter, cursor: nat, dropped: nat, cap: nat, view: nat -> Obs, log: seq<Entry>)
    requires cursor <= |log| && Quiescent(view, log, SkipCursor(cursor, |log|, cap))
    ensures Delivers(Loop(f, Emit, StartCall(cursor, dropped, |log|, cap), view, |log|).out, f, log,
                     |log| - Min(|log| - cursor, cap))
  {
    FullDrain(f, cursor, dropped, cap, view, log);
    SelectedDelivers(f, log, |log| - Min(|log| - cursor, cap));
  }
}
