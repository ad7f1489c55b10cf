/**
  Time-range extraction over an indexed byte buffer: a binary search for the first packet, an early break at
  the first packet past the range, a counting pass and a filling pass.
*/
module TimeQuery {
  import opened Bytes
  import opened DrainCore
  import opened PacketCodec
  import opened PacketIndex

  datatype Bound = Unbounded | At(t: nat)
  datatype Query = Query(id: nat, t0: Bound, t1: Bound)
  datatype Field = Field(offset: nat, bytes: nat)
  datatype Row = Row(timestamp: nat, value: seq<Byte>)

  /** The packet an index entry points at, with whatever follows it in the buffer. */
  function PacketFrom(data: seq<Byte>, e: IndexEntry): seq<Byte>
    requires e.offset <= |data|
  {
    data[e.offset..]
  }

  /** The packet's table lies inside the buffer. */
  predicate TableLocated(data: seq<Byte>, e: IndexEntry) { e.offset <= |data| && TableInside(PacketFrom(data, e)) }

  predicate TablesLocated(data: seq<Byte>, index: seq<IndexEntry>) {
    forall i :: 0 <= i < |index| ==> TableLocated(data, index[i])
  }

  /** Table and payload slices of the packet lie inside the buffer. */
  predicate Located(data: seq<Byte>, e: IndexEntry) {
    && TableLocated(data, e)
    && var p := PacketFrom(data, e);
       forall k :: 0 <= k < Count(p) ==> PayloadBase(p) + RowOffset(p, k) + RowSize(p, k) <= |p|
  }

  predicate AllLocated(data: seq<Byte>, index: seq<IndexEntry>) {
    forall i :: 0 <= i < |index| ==> Located(data, index[i])
  }

  predicate Wanted(q: Query, id: nat, ts: nat) {
    id == q.id && (q.t0.At? ==> q.t0.t <= ts) && (q.t1.At? ==> ts <= q.t1.t)
  }

  /** The field's bytes, or zeros when the record is too short to hold it. */
  function Value(p: seq<Byte>, k: nat, f: Field): seq<Byte>
    requires TableInside(p) && k < Count(p) && PayloadBase(p) + RowOffset(p, k) + RowSize(p, k) <= |p|
  {
    var at := PayloadBase(p) + RowOffset(p, k) + f.offset;
    if f.offset + f.bytes <= RowSize(p, k) then p[at..at + f.bytes] else Zeros(f.bytes)
  }

  /** Wanted rows of one packet, up to row `n`. */
  function PacketRows(data: seq<Byte>, e: IndexEntry, q: Query, f: Field, n: nat): seq<Row>
    requires Located(data, e) && n <= Count(PacketFrom(data, e))
  {
    if n == 0 then []
    else
      var p := PacketFrom(data, e);
      PacketRows(data, e, q, f, n - 1) +
      (if Wanted(q, RowId(p, n - 1), RowTimestamp(p, n - 1)) then [Row(RowTimestamp(p, n - 1), Value(p, n - 1, f))]
        else [])
  }

  function Rows(data: seq<Byte>, e: IndexEntry, q: Query, f: Field): seq<Row>
    requires Located(data, e)
  {
    PacketRows(data, e, q, f, Count(PacketFrom(data, e)))
  }

  /** The reference: every wanted row of every packet, no index arithmetic. */
  function LinearFilter(data: seq<Byte>, index: seq<IndexEntry>, q: Query, f: Field, from: nat): seq<Row>
    requires AllLocated(data, index) && from <= |index|
    decreases |index| - from
  {
    if from == |index| then [] else Rows(data, index[from], q, f) + LinearFilter(data, index, q, f, from + 1)
  }

  predicate Past(q: Query, e: IndexEntry) { q.t1.At? && e.meta.tsMin > q.t1.t }

  /** The scan with its early break. */
  function Scan(data: seq<Byte>, index: seq<IndexEntry>, q: Query, f: Field, from: nat): seq<Row>
    requires AllLocated(data, index) && from <= |index|
    decreases |index| - from
  {
    if from == |index| || Past(q, index[from]) then []
    else Rows(data, index[from], q, f) + Scan(data, index, q, f, from + 1)
  }

  /** `index_lower_bound` as a recursion over the interval still searched. */
  function LowerBound(index: seq<IndexEntry>, lo: nat, hi: nat, t0: nat): (r: nat)
    requires lo <= hi <= |index|
    ensures lo <= r <= hi
    decreases hi - lo
  {
    if lo == hi then lo
    else
      var mid := lo + (hi - lo) / 2;
      if index[mid].meta.tsMax < t0 then LowerBound(index, mid + 1, hi, t0) else LowerBound(index, lo, mid, t0)
  }

  function Start(index: seq<IndexEntry>, q: Query): (r: nat)
    ensures r <= |index|
  {
    if q.t0.At? then LowerBound(index, 0, |index|, q.t0.t) else 0
  }

  // ---------------------------------------------------------------------------------------- the C loops

  method IndexLowerBound(index: seq<IndexEntry>, t0: nat) returns (lo: nat)
    ensures lo == LowerBound(index, 0, |index|, t0)
  {
    lo := 0;
    var hi := |index|;
    while lo < hi
      invariant lo <= hi <= |index|
      invariant LowerBound(index, 0, |index|, t0) == LowerBound(index, lo, hi, t0)
    {
      var mid := lo + (hi - lo) / 2;
      if index[mid].meta.tsMax < t0 { lo := mid + 1; } else { hi := mid; }
    }
  }

  method StartOf(index: seq<IndexEntry>, q: Query) returns (start: nat)
    ensures start == Start(index, q)
  {
    start := 0;
    if q.t0.At? { start := IndexLowerBound(index, q.t0.t); }
  }

  /** Wanted rows among the first `n` of a packet, by its table alone. */
  function PacketCount(data: seq<Byte>, e: IndexEntry, q: Query, n: nat): nat
    requires TableLocated(data, e) && n <= Count(PacketFrom(data, e))
  {
    if n == 0 then 0
    else
      var p := PacketFrom(data, e);
      PacketCount(data, e, q, n - 1) + (if Wanted(q, RowId(p, n - 1), RowTimestamp(p, n - 1)) then 1 else 0)
  }

  function ScanCount(data: seq<Byte>, index: seq<IndexEntry>, q: Query, from: nat): nat
    requires TablesLocated(data, index) && from <= |index|
    decreases |index| - from
  {
    if from == |index| || Past(q, index[from]) then 0
    else PacketCount(data, index[from], q, Count(PacketFrom(data, index[from]))) + ScanCount(data, index, q, from + 1)
  }

  /** `count_entries_exact`: reads only the tables. */
  method CountEntries(data: seq<Byte>, index: seq<IndexEntry>, q: Query) returns (count: nat)
    requires TablesLocated(data, index)
    ensures count == ScanCount(data, index, q, Start(index, q))
  {
    var pi := StartOf(index, q);
    count := 0;
    while pi < |index|
      invariant pi <= |index|
      invariant count + ScanCount(data, index, q, pi) == ScanCount(data, index, q, Start(index, q))
    {
      if Past(q, index[pi]) { break; }
      var n := CountPacket(data, index[pi], q);
      count := count + n;
      pi := pi + 1;
    }
  }

  method CountPacket(data: seq<Byte>, e: IndexEntry, q: Query) returns (n: nat)
    requires TableLocated(data, e)
    ensures n == PacketCount(data, e, q, Count(PacketFrom(data, e)))
  {
    var p := PacketFrom(data, e);
    n := 0;
    var ei := 0;
    while ei < Count(p)
      invariant 0 <= ei <= Count(p) && n == PacketCount(data, e, q, ei)
    {
      if Wanted(q, RowId(p, ei), RowTimestamp(p, ei)) { n := n + 1; }
      ei := ei + 1;
    }
  }

  lemma {:induction false} PacketCountIsRows(data: seq<Byte>, e: IndexEntry, q: Query, f: Field, n: nat)
    requires Located(data, e) && n <= Count(PacketFrom(data, e))
    ensures PacketCount(data, e, q, n) == |PacketRows(data, e, q, f, n)|
  {
    if n > 0 { PacketCountIsRows(data, e, q, f, n - 1); }
  }

  /** On any index, sorted or not, the counting pass counts exactly the rows the filling pass writes. */
  lemma {:induction false} CountIsScan(data: seq<Byte>, index: seq<IndexEntry>, q: Query, f: Field, from: nat)
    requires AllLocated(data, index) && from <= |index|
    ensures TablesLocated(data, index) && ScanCount(data, index, q, from) == |Scan(data, index, q, f, from)|
    decreases |index| - from
  {
    assert TablesLocated(data, index) by {
      forall i | 0 <= i < |index| ensures TableLocated(data, index[i]) { assert Located(data, index[i]); }
    }
    if from < |index| && !Past(q, index[from]) {
      PacketCountIsRows(data, index[from], q, f, Count(PacketFrom(data, index[from])));
      CountIsScan(data, index, q, f, from + 1);
    }
  }

  /** `fill_series`: writes rows until the scan ends or the arrays are full. */
  method FillSeries(data: seq<Byte>, index: seq<IndexEntry>, q: Query, f: Field, maxCount: nat) returns (rows: seq<Row>)
    requires AllLocated(data, index)
    ensures var all := Scan(data, index, q, f, Start(index, q)); rows == Take(all, maxCount)
  {
    var pi := StartOf(index, q);
    ghost var rest := Scan(data, index, q, f, pi);
    ghost var all, done: seq<Row> := rest, [];
    rows := [];
    while pi < |index| && |rows| < maxCount
      invariant pi <= |index|
      invariant rest == Scan(data, index, q, f, pi)
      invariant all == done + rest && rows == Take(done, maxCount)
    {
      if Past(q, index[pi]) { break; }
      ghost var here, later := Rows(data, index[pi], q, f), Scan(data, index, q, f, pi + 1);
      TakeMore(done, here, rows, maxCount);
      rows := FillPacket(data, index[pi], q, f, maxCount, rows);
      ScanOn(data, index, q, f, pi, done, here, later);
      done, rest := done + here, later;
      pi := pi + 1;
    }
    TakeOfPrefix(done, rest, maxCount);
  }

  lemma ScanOn(data: seq<Byte>, index: seq<IndexEntry>, q: Query, f: Field, pi: nat, done: seq<Row>, here: seq<Row>,
               later: seq<Row>)
    requires AllLocated(data, index) && pi < |index| && !Past(q, index[pi])
    requires here == Rows(data, index[pi], q, f) && later == Scan(data, index, q, f, pi + 1)
    ensures done + Scan(data, index, q, f, pi) == (done + here) + later
  {
  }

  /** At most the first `n` rows. */
  function Take<T>(s: seq<T>, n: nat): seq<T> { s[..Min(n, |s|)] }

  lemma TakeMore<T>(done: seq<T>, here: seq<T>, rows: seq<T>, n: nat)
    requires rows == Take(done, n) && |rows| < n
    ensures Take(rows + here, n) == Take(done + here, n)
  {
    assert rows == done;
  }

  lemma TakeOfPrefix<T>(a: seq<T>, b: seq<T>, n: nat)
    requires n <= |a| || b == []
    ensures Take(a + b, n) == Take(a, n)
  {
    if b == [] { assert a + b == a; }
  }

  method FillPacket(data: seq<Byte>, e: IndexEntry, q: Query, f: Field, maxCount: nat, had: seq<Row>)
    returns (rows: seq<Row>)
    requires Located(data, e) && |had| < maxCount
    ensures rows == Take(had + Rows(data, e, q, f), maxCount)
  {
    var p := PacketFrom(data, e);
    rows := had;
    var ei := 0;
    while ei < Count(p) && |rows| < maxCount
      invariant 0 <= ei <= Count(p) && |rows| <= maxCount && rows == had + PacketRows(data, e, q, f, ei)
    {
      if Wanted(q, RowId(p, ei), RowTimestamp(p, ei)) {
        rows := rows + [Row(RowTimestamp(p, ei), Value(p, ei, f))];
      }
      ei := ei + 1;
    }
    RowsPrefix(data, e, q, f, ei, Count(p));
  }

  lemma {:induction false} RowsPrefix(data: seq<Byte>, e: IndexEntry, q: Query, f: Field, m: nat, n: nat)
    requires Located(data, e) && m <= n <= Count(PacketFrom(data, e))
    ensures PacketRows(data, e, q, f, m) <= PacketRows(data, e, q, f, n)
    decreases n
  {
    if m < n { RowsPrefix(data, e, q, f, m, n - 1); }
  }

  /** Allocating by the counting pass is exact for every index, sorted or not: the filling pass writes
      precisely that many rows and stops because the scan ends. */
  method Series(data: seq<Byte>, index: seq<IndexEntry>, q: Query, f: Field) returns (rows: seq<Row>)
    requires AllLocated(data, index)
    ensures rows == Scan(data, index, q, f, Start(index, q))
  {
    CountIsScan(data, index, q, f, Start(index, q));
    var count := CountEntries(data, index, q);
    rows := [];
    if count > 0 { rows := FillSeries(data, index, q, f, count); }
  }

  // -------------------------------------------------------------------------------- the pruning is sound

  /** Metadata encloses every row's timestamp. */
  ghost predicate Bounding(data: seq<Byte>, e: IndexEntry)
    requires Located(data, e)
  {
    var p := PacketFrom(data, e);
    forall k :: 0 <= k < Count(p) ==> e.meta.tsMin <= RowTimestamp(p, k) <= e.meta.tsMax
  }

  ghost predicate AllBounding(data: seq<Byte>, index: seq<IndexEntry>)
    requires AllLocated(data, index)
  {
    forall i :: 0 <= i < |index| ==> Bounding(data, index[i])
  }

  ghost predicate Sorted(index: seq<IndexEntry>) {
    forall i, j :: 0 <= i < j < |index| ==>
      index[i].meta.tsMin <= index[j].meta.tsMin && index[i].meta.tsMax <= index[j].meta.tsMax
  }

  lemma {:induction false} LowerBoundSplits(index: seq<IndexEntry>, lo: nat, hi: nat, t0: nat)
    requires Sorted(index) && lo <= hi <= |index|
    requires forall i :: 0 <= i < lo ==> index[i].meta.tsMax < t0
    requires forall i :: hi <= i < |index| ==> t0 <= index[i].meta.tsMax
    ensures var r := LowerBound(index, lo, hi, t0);
      && (forall i :: 0 <= i < r ==> index[i].meta.tsMax < t0)
      && (forall i :: r <= i < |index| ==> t0 <= index[i].meta.tsMax)
    decreases hi - lo
  {
    if lo < hi {
      var mid := lo + (hi - lo) / 2;
      if index[mid].meta.tsMax < t0 {
        LowerBoundSplits(index, mid + 1, hi, t0);
      } else {
        LowerBoundSplits(index, lo, mid, t0);
      }
    }
  }

  /** A packet entirely outside the range has no wanted row. */
  lemma {:induction false} OutsideIsEmpty(data: seq<Byte>, e: IndexEntry, q: Query, f: Field, n: nat)
    requires Located(data, e) && Bounding(data, e) && n <= Count(PacketFrom(data, e))
    requires Past(q, e) || (q.t0.At? && e.meta.tsMax < q.t0.t)
    ensures PacketRows(data, e, q, f, n) == []
  {
    if n > 0 { OutsideIsEmpty(data, e, q, f, n - 1); }
  }

  lemma {:induction false} BeforeStartIsEmpty(data: seq<Byte>, index: seq<IndexEntry>, q: Query, f: Field, i: nat,
                                              start: nat)
    requires AllLocated(data, index) && AllBounding(data, index) && i <= start <= |index| && q.t0.At?
    requires forall j :: 0 <= j < start ==> index[j].meta.tsMax < q.t0.t
    ensures LinearFilter(data, index, q, f, i) == LinearFilter(data, index, q, f, start)
    decreases start - i
  {
    if i < start {
      OutsideIsEmpty(data, index[i], q, f, Count(PacketFrom(data, index[i])));
      BeforeStartIsEmpty(data, index, q, f, i + 1, start);
    }
  }

  lemma {:induction false} AllPastIsEmpty(data: seq<Byte>, index: seq<IndexEntry>, q: Query, f: Field, i: nat)
    requires AllLocated(data, index) && AllBounding(data, index) && i <= |index|
    requires forall j :: i <= j < |index| ==> Past(q, index[j])
    ensures LinearFilter(data, index, q, f, i) == []
    decreases |index| - i
  {
    if i < |index| {
      OutsideIsEmpty(data, index[i], q, f, Count(PacketFrom(data, index[i])));
      AllPastIsEmpty(data, index, q, f, i + 1);
    }
  }

  lemma {:induction false} ScanIsFilter(data: seq<Byte>, index: seq<IndexEntry>, q: Query, f: Field, i: nat)
    requires AllLocated(data, index) && AllBounding(data, index) && Sorted(index) && i <= |index|
    ensures Scan(data, index, q, f, i) == LinearFilter(data, index, q, f, i)
    decreases |index| - i
  {
    if i < |index| {
      if Past(q, index[i]) {
        AllPastIsEmpty(data, index, q, f, i);
      } else {
        ScanIsFilter(data, index, q, f, i + 1);
      }
    }
  }

  /** On a sorted index with true bounds the pruned query returns exactly the linear filter of all entries
      by id and [t0, t1]. */
  lemma QueryIsLinearFilter(data: seq<Byte>, index: seq<IndexEntry>, q: Query, f: Field)
    requires AllLocated(data, index) && AllBounding(data, index) && Sorted(index)
    ensures Scan(data, index, q, f, Start(index, q)) == LinearFilter(data, index, q, f, 0)
  {
    ScanIsFilter(data, index, q, f, Start(index, q));
    if q.t0.At? {
      LowerBoundSplits(index, 0, |index|, q.t0.t);
      BeforeStartIsEmpty(data, index, q, f, 0, Start(index, q));
    }
  }
}
