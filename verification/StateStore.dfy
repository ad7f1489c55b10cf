/** Run-length storage of state channels in the viewer's store. */
module StateStore {
  import opened Bytes
  import opened Wire
  import opened Partition

  datatype Run = Run(start: nat, end: nat, value: nat)
  datatype Obs = Obs(t: nat, value: nat)

  const FOREVER: nat := U64 - 1

  // ----------------------------------------------------------------------------------- the raw log

  /** Timestamps never go back, as pushing demands, and fit their type. */
  predicate Ordered(log: seq<Obs>) {
    && (forall i, j :: 0 <= i < j < |log| ==> log[i].t <= log[j].t)
    && forall i :: 0 <= i < |log| ==> log[i].t < U64
  }

  /** The last observation at or before `t`. */
  function ValueAt(log: seq<Obs>, t: nat): Option<nat> {
    if |log| == 0 then None
    else if log[|log| - 1].t <= t then Some(log[|log| - 1].value)
    else ValueAt(log[..|log| - 1], t)
  }

  // -------------------------------------------------------------------------------------- the runs

  /** One observation extends the last run, or closes it and opens another. */
  function Push(runs: seq<Run>, o: Obs): seq<Run> {
    if |runs| == 0 then [Run(o.t, o.t, o.value)]
    else
      var k := |runs| - 1;
      var closed := runs[k := runs[k].(end := o.t)];
      if runs[k].value == o.value then closed else closed + [Run(o.t, o.t, o.value)]
  }

  function RunsOf(log: seq<Obs>): seq<Run> {
    if |log| == 0 then [] else Push(RunsOf(log[..|log| - 1]), log[|log| - 1])
  }

  /** Starts never go back; adjacent runs meet and differ in value. */
  predicate Tidy(runs: seq<Run>) {
    && (forall i, j :: 0 <= i < j < |runs| ==> runs[i].start <= runs[i].end <= runs[j].start)
    && (forall i :: 0 <= i < |runs| ==> runs[i].start <= runs[i].end < U64)
    && (forall i :: 0 <= i < |runs| - 1 ==> Meet(runs, i))
  }

  predicate Meet(runs: seq<Run>, i: nat)
    requires i + 1 < |runs|
  {
    runs[i].end == runs[i + 1].start && runs[i].value != runs[i + 1].value
  }

  lemma PushKeepsTidy(runs: seq<Run>, o: Obs)
    requires Tidy(runs) && o.t < U64 && (|runs| > 0 ==> runs[|runs| - 1].end <= o.t)
    ensures Tidy(Push(runs, o)) && |Push(runs, o)| > 0
    ensures var last := Push(runs, o)[|Push(runs, o)| - 1]; last.end == o.t && last.value == o.value
  {
    var after := Push(runs, o);
    forall i | 0 <= i < |after| - 1 ensures Meet(after, i) {
      if i < |runs| - 1 { assert Meet(runs, i); }
    }
  }

  /** The runs of any ordered log abut, differ from their neighbours, and end at the last observation. */
  lemma {:induction false} RunsAreTidy(log: seq<Obs>)
    requires Ordered(log)
    ensures Tidy(RunsOf(log)) && (|log| > 0 <==> |RunsOf(log)| > 0)
    ensures |log| > 0 ==> var last := RunsOf(log)[|RunsOf(log)| - 1];
      last.end == log[|log| - 1].t && last.value == log[|log| - 1].value
  {
    if |log| > 0 {
      RunsAreTidy(log[..|log| - 1]);
      PushKeepsTidy(RunsOf(log[..|log| - 1]), log[|log| - 1]);
    }
  }

  /** Runs that have started by `t`. */
  function Started(runs: seq<Run>, t: nat): (k: nat)
    ensures k <= |runs| && (forall i :: 0 <= i < k ==> runs[i].start <= t) && (k < |runs| ==> runs[k].start > t)
  {
    PartitionPoint(runs, (r: Run) => r.start <= t)
  }

  /** The value of the last run started by `t`. */
  function RunValue(runs: seq<Run>, t: nat): Option<nat> {
    if Started(runs, t) == 0 then None else Some(runs[Started(runs, t) - 1].value)
  }

  lemma StartedIs(runs: seq<Run>, t: nat, k: nat)
    requires (forall i, j :: 0 <= i < j < |runs| ==> runs[i].start <= runs[j].start)
    requires k <= |runs| && (k > 0 ==> runs[k - 1].start <= t) && (k < |runs| ==> runs[k].start > t)
    ensures Started(runs, t) == k
  {
  }

  lemma PushMeans(runs: seq<Run>, o: Obs, t: nat)
    requires Tidy(runs) && o.t < U64 && (|runs| > 0 ==> runs[|runs| - 1].end <= o.t)
    ensures RunValue(Push(runs, o), t) == if o.t <= t then Some(o.value) else RunValue(runs, t)
  {
    PushKeepsTidy(runs, o);
    if o.t <= t { PushedIsLast(Push(runs, o), o, t); } else { PushedIsLater(runs, Push(runs, o), o, t); }
  }

  lemma PushedIsLast(after: seq<Run>, o: Obs, t: nat)
    requires Tidy(after) && |after| > 0 && after[|after| - 1].end == o.t <= t && after[|after| - 1].value == o.value
    ensures RunValue(after, t) == Some(o.value)
  {
    StartedIs(after, t, |after|);
  }

  lemma PushedIsLater(runs: seq<Run>, after: seq<Run>, o: Obs, t: nat)
    requires Tidy(runs) && Tidy(after) && after == Push(runs, o) && t < o.t
    ensures RunValue(after, t) == RunValue(runs, t)
  {
    StartedIs(after, t, Started(runs, t));
  }

  /** Runs lose nothing of the log: at every time they give the last observation made by then. */
  lemma {:induction false} RunsMeanTheLog(log: seq<Obs>, t: nat)
    requires Ordered(log)
    ensures RunValue(RunsOf(log), t) == ValueAt(log, t)
  {
    if |log| > 0 {
      var init := log[..|log| - 1];
      RunsMeanTheLog(init, t);
      RunsAreTidy(init);
      PushMeans(RunsOf(init), log[|log| - 1], t);
    }
  }

  // ------------------------------------------------------------------------------------ the queries

  /** `sample_at` on a state channel. */
  function SampleAt(runs: seq<Run>, t: nat): Option<nat> {
    if |runs| == 0 then None
    else
      var last := |runs| - 1;
      var idx := Started(runs, t);
      if idx == 0 then None
      else
        var end := if idx - 1 == last then FOREVER else runs[idx - 1].end;
        if t < end then Some(runs[idx - 1].value) else None
  }

  function Expired(runs: seq<Run>, t0: nat): (k: nat)
    requires |runs| > 0
    ensures k <= |runs| - 1 && (forall i :: 0 <= i < k ==> runs[i].end <= t0) && (k < |runs| - 1 ==> runs[k].end > t0)
  {
    PartitionPoint(runs[..|runs| - 1], (r: Run) => r.end <= t0)
  }

  /** A stored run as reported: the last one is held forward. */
  function Reported(runs: seq<Run>, i: nat): Run
    requires i < |runs|
  {
    if i == |runs| - 1 then runs[i].(end := FOREVER) else runs[i]
  }

  /** `query_state`: runs from the first not over by `t0` while they start before `t1`. */
  function QueryState(runs: seq<Run>, t0: nat, t1: nat): seq<Run> {
    if |runs| == 0 then [] else Take(runs, Expired(runs, t0), t1)
  }

  function Take(runs: seq<Run>, i: nat, t1: nat): (out: seq<Run>)
    requires i <= |runs|
    ensures |out| <= |runs| - i && (forall k :: 0 <= k < |out| ==> out[k] == Reported(runs, i + k) && out[k].start < t1)
    ensures i + |out| < |runs| ==> runs[i + |out|].start >= t1
    decreases |runs| - i
  {
    if i == |runs| || runs[i].start >= t1 then [] else [Reported(runs, i)] + Take(runs, i + 1, t1)
  }

  /** `sample_at` gives the last observation at or before `t`; only at the largest timestamp does it give nothing. */
  lemma SampleAtIsValueAt(log: seq<Obs>, t: nat)
    requires Ordered(log) && t < U64
    ensures SampleAt(RunsOf(log), t) == if t < 0xFFFF_FFFF_FFFF_FFFF then ValueAt(log, t) else None
  {
    RunsAreTidy(log);
    RunsMeanTheLog(log, t);
    var runs := RunsOf(log);
    var idx := Started(runs, t);
    if 0 < idx < |runs| { assert Meet(runs, idx - 1); }
  }

  /** Inside the window, the last reported run started by `t` has the value the log had at `t`. */
  lemma QueryStateRefinesLog(log: seq<Obs>, t0: nat, t1: nat, t: nat)
    requires Ordered(log) && t0 <= t < t1
    ensures RunValue(QueryState(RunsOf(log), t0, t1), t) == ValueAt(log, t)
  {
    RunsAreTidy(log);
    RunsMeanTheLog(log, t);
    if |RunsOf(log)| > 0 { WindowKeepsValue(RunsOf(log), t0, t1, t); }
  }

  lemma WindowKeepsValue(runs: seq<Run>, t0: nat, t1: nat, t: nat)
    requires Tidy(runs) && |runs| > 0 && t0 <= t < t1
    ensures RunValue(Take(runs, Expired(runs, t0), t1), t) == RunValue(runs, t)
  {
    var from, idx := Expired(runs, t0), Started(runs, t);
    var out := Take(runs, from, t1);
    if 0 < idx < |runs| { assert Meet(runs, idx - 1); }
    if idx > 0 { assert from <= idx - 1 < from + |out|; }
    ReportedStarted(runs, out, from, idx, t);
  }

  lemma ReportedStarted(runs: seq<Run>, out: seq<Run>, from: nat, idx: nat, t: nat)
    requires Tidy(runs) && from + |out| <= |runs| && idx == Started(runs, t)
    requires forall k :: 0 <= k < |out| ==> out[k] == Reported(runs, from + k)
    requires if idx > 0 then from < idx <= from + |out| else from == 0
    ensures RunValue(out, t) == RunValue(runs, t)
  {
    var k := if idx > 0 then idx - from else 0;
    assert forall q :: 0 <= q < |out| ==> out[q].start == runs[from + q].start && out[q].value == runs[from + q].value;
    StartedIs(out, t, k);
  }

  /** A stored run is reported, the last one held forward, exactly when it meets the window. */
  lemma QueryStateIsComplete(log: seq<Obs>, t0: nat, t1: nat, i: nat)
    requires Ordered(log) && i < |RunsOf(log)| && t0 < 0xFFFF_FFFF_FFFF_FFFF
    ensures var runs := RunsOf(log);
      var end := if i == |runs| - 1 then 0xFFFF_FFFF_FFFF_FFFF else runs[i].end;
      Run(runs[i].start, end, runs[i].value) in QueryState(runs, t0, t1) <==> end > t0 && runs[i].start < t1
  {
    RunsAreTidy(log);
    var runs := RunsOf(log);
    if Reported(runs, i).end > t0 && runs[i].start < t1 { MeetingIsReported(runs, t0, t1, i); }
    if Reported(runs, i) in QueryState(runs, t0, t1) {
      var k :| 0 <= k < |QueryState(runs, t0, t1)| && QueryState(runs, t0, t1)[k] == Reported(runs, i);
      ReportedMeets(runs, t0, Expired(runs, t0), Expired(runs, t0) + k);
    }
  }

  lemma MeetingIsReported(runs: seq<Run>, t0: nat, t1: nat, i: nat)
    requires Tidy(runs) && i < |runs| && Reported(runs, i).end > t0 && runs[i].start < t1
    ensures Reported(runs, i) in QueryState(runs, t0, t1)
  {
    var from := Expired(runs, t0);
    var out := Take(runs, from, t1);
    assert from <= i;
    assert i < from + |out|;
    assert out[i - from] == Reported(runs, i);
  }

  lemma ReportedMeets(runs: seq<Run>, t0: nat, from: nat, j: nat)
    requires Tidy(runs) && t0 < FOREVER && from <= j < |runs| && (from < |runs| - 1 ==> runs[from].end > t0)
    ensures Reported(runs, j).end > t0
  {
    if from < j < |runs| - 1 { assert runs[from].end <= runs[j].start; }
  }

  // -------------------------------------------------------------------------------------- the store

  class Store {
    var states: seq<seq<Run>>
    var revision: nat
    ghost var logs: seq<seq<Obs>>

    ghost predicate Valid()
      reads this
    {
      |logs| == |states| && forall c :: 0 <= c < |logs| ==> Ordered(logs[c]) && states[c] == RunsOf(logs[c])
    }

    constructor ()
      ensures Valid() && states == [] && revision == 0
    {
      states, revision, logs := [], 0, [];
    }

    /** `add_state`. */
    method AddState() returns (ch: nat)
      requires Valid()
      modifies this
      ensures Valid() && ch == |old(states)| && logs == old(logs) + [[]] && revision == old(revision) + 1
    {
      ch := |states|;
      states, logs := states + [[]], logs + [[]];
      revision := revision + 1;
    }

    /** `push_state`; an unknown channel changes nothing. */
    method PushState(ch: nat, t: nat, value: nat)
      requires Valid() && t < U64
      requires ch < |logs| && |logs[ch]| > 0 ==> logs[ch][|logs[ch]| - 1].t <= t
      modifies this
      ensures Valid()
      ensures ch >= |old(states)| ==> states == old(states) && logs == old(logs) && revision == old(revision)
      ensures ch < |old(states)| ==>
        logs == old(logs)[ch := old(logs)[ch] + [Obs(t, value)]] && revision == old(revision) + 1
    {
      if ch >= |states| { return; }
      var runs := states[ch];
      ghost var log := logs[ch] + [Obs(t, value)];
      assert log[..|log| - 1] == logs[ch];
      if |runs| > 0 && runs[|runs| - 1].value == value {
        runs := runs[|runs| - 1 := runs[|runs| - 1].(end := t)];
      } else if |runs| > 0 {
        runs := runs[|runs| - 1 := runs[|runs| - 1].(end := t)];
        runs := runs + [Run(t, t, value)];
      } else {
        runs := [Run(t, t, value)];
      }
      states := states[ch := runs];
      logs := logs[ch := log];
      revision := revision + 1;
    }

    /** `clear`: every channel goes, the revision moves once. */
    method Clear()
      modifies this
      ensures Valid() && states == [] && logs == [] && revision == old(revision) + 1
    {
      states, logs := [], [];
      revision := revision + 1;
    }
  }
}
