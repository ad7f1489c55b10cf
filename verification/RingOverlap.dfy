/**
  Why the no-overlap discipline is needed.  If a writer of an older lap is still in flight in a cell that a
  newer lap has already published, the second sequence-number check no longer protects a reader: some
  continuation hands the client a record that nobody logged.  Such a state is reachable.
*/
module RingOverlap {
  import opened Bytes
  import opened DrainCore
  import opened RingProtocol
  import opened RingSafety

  ghost predicate Path(tr: seq<State>) {
    |tr| > 0 && forall i :: 0 <= i < |tr| - 1 ==> StepAt(tr, i)
  }

  lemma PathSnoc(tr: seq<State>, step: Step)
    requires Path(tr) && tr[|tr| - 1].cap > 0 && |tr[|tr| - 1].cells| == tr[|tr| - 1].cap
    requires Enabled(tr[|tr| - 1], step)
    ensures Path(tr + [Apply(tr[|tr| - 1], step)])
  {
    var tr' := tr + [Apply(tr[|tr| - 1], step)];
    forall i | 0 <= i < |tr'| - 1 ensures StepAt(tr', i) {
      if i == |tr| - 1 {
        assert tr'[i] == tr[|tr| - 1] && Enabled(tr'[i], step) && tr'[i + 1] == Apply(tr'[i], step);
      } else {
        assert StepAt(tr, i);
      }
    }
  }

  /** The copy has read words [0, j) of the cell it looks at. */
  ghost predicate CopiedTo(s: State, cid: Cid, j: nat) {
    && s.cap > 0 && |s.cells| == s.cap && cid in s.clients && s.clients[cid].pc.Copying?
    && var c := s.cells[CellOf(s, s.clients[cid].pc.call.now.cursor)];
       && ValidCell(c)
       && (forall k :: k in s.clients[cid].pc.local <==> 0 <= k < j)
       && (forall k :: 0 <= k < j && k < WORDS ==> s.clients[cid].pc.local[k] == c.words[k])
  }

  /** A client left alone copies its cell to the end. */
  lemma {:induction false} CopyOut(tr: seq<State>, cid: Cid, j: nat) returns (tr': seq<State>)
    requires Path(tr) && CopiedTo(tr[|tr| - 1], cid, j) && j <= WORDS
    ensures Path(tr') && tr'[0] == tr[0]
    ensures CopiedTo(tr'[|tr'| - 1], cid, WORDS)
    ensures var s, s' := tr[|tr| - 1], tr'[|tr'| - 1];
      && s' == WithClient(s, cid, s.clients[cid].(pc := s'.clients[cid].pc))
      && s'.clients[cid].pc.Copying? && s'.clients[cid].pc.call == s.clients[cid].pc.call
    decreases WORDS - j
  {
    if j == WORDS {
      var s := tr[|tr| - 1];
      assert s == WithClient(s, cid, s.clients[cid]);
      return tr;
    }
    var s := tr[|tr| - 1];
    PathSnoc(tr, Copy(cid, j));
    var s1 := Apply(s, Copy(cid, j));
    assert CopiedTo(s1, cid, j + 1);
    tr' := CopyOut(tr + [s1], cid, j + 1);
    var s' := tr'[|tr'| - 1];
    assert s'.clients == s.clients[cid := s.clients[cid].(pc := s'.clients[cid].pc)];
  }

  /** Writer `t` of another lap is in flight in the cell of published slot q, and its word k differs. */
  ghost predicate Overlapped(s: State, t: Tid, q: nat, k: nat) {
    && s.cap > 0 && |s.cells| == s.cap && |s.log| == s.head && q < s.head && Published(s, q)
    && t in s.writers && s.writers[t].cleared && s.writers[t].slot < s.head && k !in s.writers[t].written
    && CellOf(s, s.writers[t].slot) == CellOf(s, q)
    && var c := s.cells[CellOf(s, q)];
       && ValidCell(c) && c.seqno == q + 1 && ValidEntry(s.log[q].entry) && Holds(c, s.log[q].entry)
       && ValidEntry(s.log[s.writers[t].slot].entry)
       && k < Size(s.log[q].entry) && k < Size(s.log[s.writers[t].slot].entry)
       && Word(s.log[s.writers[t].slot].entry, k) != Word(s.log[q].entry, k)
  }

  /** A copy with one foreign word is not the record. */
  lemma ForeignWord(local: map<nat, nat>, e: Entry, k: nat)
    requires ValidLocal(local) && Copied(local) && k < Size(e) <= WORDS && local[k] != Word(e, k)
    requires k >= 3 ==> local[2] == |e.payload|
    ensures Assemble(local) != e
  {
    if k >= 3 { assert Assemble(local).payload[k - 3] == local[k]; }
  }

  /** The client polls slot q, then the older writer stores its word over the published record. */
  lemma ReadThenOverwrite(s: State, t: Tid, cid: Cid, q: nat, k: nat) returns (tr: seq<State>)
    requires Overlapped(s, t, q, k)
    requires cid in s.clients && s.clients[cid].pc.Polling?
    requires var call := s.clients[cid].pc.call; call.now.cursor == q && !Finished(call.now, call.head)
    ensures Path(tr) && tr[0] == s
    ensures var s2 := tr[|tr| - 1];
      && CopiedTo(s2, cid, 0) && s2.cap == s.cap && s2.log == s.log
      && s2.clients[cid] == s.clients[cid].(pc := Copying(s.clients[cid].pc.call, map[]))
      && s2.cells[CellOf(s, q)].seqno == q + 1
      && s2.cells[CellOf(s, q)].words[k] == Word(s.log[s.writers[t].slot].entry, k)
      && (k != 2 ==> s2.cells[CellOf(s, q)].words[2] == |s.log[q].entry.payload|)
  {
    PathSnoc([s], Poll(cid));
    var s1 := Apply(s, Poll(cid));
    assert [s] + [s1] == [s, s1];
    PathSnoc([s, s1], Write(t, k));
    assert ValidWord(k, Word(s.log[s.writers[t].slot].entry, k));
    tr := [s, s1] + [Apply(s1, Write(t, k))];
  }

  /** The seq re-check is defeated by every such overlap: the client accepts a record that was never logged. */
  lemma OverlapTears(s: State, t: Tid, cid: Cid, q: nat, k: nat) returns (tr: seq<State>)
    requires Overlapped(s, t, q, k)
    requires cid in s.clients && s.clients[cid].pc.Polling? && s.clients[cid].filter.AcceptAll?
    requires var call := s.clients[cid].pc.call;
      call.mode.Emit? && call.now.cursor == q && !Finished(call.now, call.head)
    ensures Path(tr) && tr[0] == s && cid in tr[|tr| - 1].clients
    ensures var out := Delivered(tr[|tr| - 1].clients[cid]);
      && |out| > 0 && out[|out| - 1].slot == q
      && out[|out| - 1].entry != s.log[q].entry
      && tr[|tr| - 1].log == s.log
  {
    tr := ReadThenOverwrite(s, t, cid, q, k);
    var s2 := tr[|tr| - 1];
    tr := CopyOut(tr, cid, 0);
    var s3 := tr[|tr| - 1];
    var local := s3.clients[cid].pc.local;
    assert s3.cells == s2.cells && s3.log == s.log;
    assert ValidLocal(local) && Copied(local);
    assert local[k] == s2.cells[CellOf(s, q)].words[k] == Word(s.log[s.writers[t].slot].entry, k);
    ForeignWord(local, s.log[q].entry, k);
    PathSnoc(tr, Recheck(cid, false));
    tr := tr + [Apply(s3, Recheck(cid, false))];
  }

  const A: Entry := Entry(1, 1, [])
  const B: Entry := Entry(2, 2, [])

  /** An overlap is reachable: with a one-cell ring, a producer stalls after zeroing the sequence number
      while a second one claims, writes and publishes the next lap. */
  lemma OverlapReachable() returns (tr: seq<State>)
    ensures Path(tr) && Init(tr[0]) && !NoOverlap(tr[|tr| - 1])
    ensures Overlapped(tr[|tr| - 1], 0, 1, 0)
    ensures 0 in tr[|tr| - 1].clients && tr[|tr| - 1].clients[0].pc.Polling?
    ensures tr[|tr| - 1].clients[0].filter.AcceptAll?
    ensures var call := tr[|tr| - 1].clients[0].pc.call;
      call.mode.Emit? && call.now.cursor == 1 && !Finished(call.now, call.head)
  {
    var s0 := State(1, 0, [Cell(0, Zeros(WORDS))], [], map[], map[], map[]);
    var s1 := Apply(s0, Open(0, AcceptAll));
    PathSnoc([s0], Open(0, AcceptAll));
    var s2 := Apply(s1, Claim(0, A));
    PathSnoc([s0] + [s1], Claim(0, A));
    var s3 := Apply(s2, Clear(0));
    PathSnoc([s0] + [s1] + [s2], Clear(0));
    var s4 := Apply(s3, Claim(1, B));
    tr := [s0] + [s1] + [s2] + [s3];
    PathSnoc(tr, Claim(1, B));
    var s5 := Apply(s4, Clear(1));
    tr := tr + [s4];
    PathSnoc(tr, Clear(1));
    tr := tr + [s5];
    tr := FinishLap(tr);
  }

  lemma FinishLap(tr: seq<State>) returns (tr': seq<State>)
    requires Path(tr) && Init(tr[0])
    requires var s := tr[|tr| - 1];
      && s.cap == 1 && s.head == 2 && |s.cells| == 1 && s.cells[0] == Cell(0, Zeros(WORDS))
      && s.log == [Logged(0, 0, A), Logged(1, 0, B)]
      && s.writers == map[0 := Writer(0, true, {}), 1 := Writer(1, true, {})]
      && s.clients == map[0 := Client(0, 0, 0, AcceptAll, 0, [], 0, 0, [], [], Idle)]
    ensures Path(tr') && Init(tr'[0]) && !NoOverlap(tr'[|tr'| - 1])
    ensures Overlapped(tr'[|tr'| - 1], 0, 1, 0)
    ensures 0 in tr'[|tr'| - 1].clients && tr'[|tr'| - 1].clients[0].pc.Polling?
    ensures tr'[|tr'| - 1].clients[0].filter.AcceptAll?
    ensures var call := tr'[|tr'| - 1].clients[0].pc.call;
      call.mode.Emit? && call.now.cursor == 1 && !Finished(call.now, call.head)
  {
    var s := tr[|tr| - 1];
    assert CellOf(s, 1) == 0 && CellOf(s, 0) == 0;
    var s1 := Apply(s, Write(1, 0));
    PathSnoc(tr, Write(1, 0));
    var s2 := Apply(s1, Write(1, 1));
    PathSnoc(tr + [s1], Write(1, 1));
    var s3 := Apply(s2, Write(1, 2));
    PathSnoc(tr + [s1] + [s2], Write(1, 2));
    var s4 := Apply(s3, Publish(1));
    tr' := tr + [s1] + [s2] + [s3];
    PathSnoc(tr', Publish(1));
    tr' := tr' + [s4];
    assert s4.cells[0] == Cell(2, Zeros(WORDS)[0 := 2][1 := 2][2 := 0]);
    PathSnoc(tr', Begin(0, DrainRequest));
    tr' := tr' + [Apply(s4, Begin(0, DrainRequest))];
  }

  lemma PathConcat(a: seq<State>, b: seq<State>)
    requires Path(a) && Path(b) && a[|a| - 1] == b[0]
    ensures Path(a + b[1..]) && (a + b[1..])[|a + b[1..]| - 1] == b[|b| - 1]
  {
    var c := a + b[1..];
    forall i | 0 <= i < |c| - 1 ensures StepAt(c, i) {
      if i >= |a| - 1 {
        assert c[i] == b[i - |a| + 1] && c[i + 1] == b[i - |a| + 2];
        assert StepAt(b, i - |a| + 1);
      } else {
        assert c[i] == a[i] && c[i + 1] == a[i + 1];
        assert StepAt(a, i);
      }
    }
  }

  /** Without the discipline the guarantee of NoTornReads fails: a run that hands out an unlogged record. */
  lemma TornReadReachable() returns (tr: seq<State>)
    ensures Run(tr) && !Disciplined(tr)
    ensures 0 in tr[|tr| - 1].clients && !Faithful(tr[|tr| - 1].log, Delivered(tr[|tr| - 1].clients[0]))
  {
    var a := OverlapReachable();
    var b := OverlapTears(a[|a| - 1], 0, 0, 1, 0);
    PathConcat(a, b);
    tr := a + b[1..];
    assert tr[|a| - 1] == a[|a| - 1] && !NoOverlap(tr[|a| - 1]);
    var out := Delivered(b[|b| - 1].clients[0]);
    assert out[|out| - 1].entry != b[|b| - 1].log[out[|out| - 1].slot].entry;
  }
}
