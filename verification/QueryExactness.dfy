/**
  Exactly when the pruned time query loses nothing.  The early break is sound when no packet starts later than a
  non-empty one behind it; the binary search is sound when, for every lower bound it can be asked for, the packets
  it passes over end before that bound.  Both are conditions on the index alone.
*/
module QueryExactness {
  import opened Bytes
  import opened PacketCodec
  import opened PacketIndex
  import opened TimeQuery

  predicate Filled(e: IndexEntry) { e.meta.count > 0 }

  /** The recorded count is the packet's, and its bounds are attained by rows. */
  ghost predicate Tight(data: seq<Byte>, e: IndexEntry)
    requires Located(data, e)
  {
    var p := PacketFrom(data, e);
    && e.meta.count == Count(p)
    && (Count(p) > 0 ==> exists k :: 0 <= k < Count(p) && RowTimestamp(p, k) == e.meta.tsMin)
    && (Count(p) > 0 ==> exists k :: 0 <= k < Count(p) && RowTimestamp(p, k) == e.meta.tsMax)
  }

  ghost predicate AllTight(data: seq<Byte>, index: seq<IndexEntry>)
    requires AllLocated(data, index)
  {
    forall i :: 0 <= i < |index| ==> Tight(data, index[i])
  }

  /** No packet starts later than a non-empty one behind it. */
  predicate MinOrdered(index: seq<IndexEntry>) {
    forall i, j :: 0 <= i < j < |index| && Filled(index[j]) ==> index[i].meta.tsMin <= index[j].meta.tsMin
  }

  function Larger(a: int, b: int): int { if a < b then b else a }

  function Smaller(a: int, b: int): int { if a < b then a else b }

  predicate EndBy(index: seq<IndexEntry>, lo: nat, hi: nat, t: int)
    requires hi <= |index|
  {
    forall p :: lo <= p < hi && Filled(index[p]) ==> index[p].meta.tsMax <= t
  }

  /** The search of `[lo, hi)` for bounds in `(a, b]` passes over no packet that reaches the bound: wherever it can
      turn right, every non-empty packet up to the probe ends by the smallest bound that turns there. */
  predicate SearchSafe(index: seq<IndexEntry>, lo: nat, hi: nat, a: int, b: int)
    requires lo <= hi <= |index|
    decreases hi - lo
  {
    lo == hi ||
    var mid := lo + (hi - lo) / 2;
    var m := Larger(a, index[mid].meta.tsMax);
    && (m < b ==> EndBy(index, lo, mid + 1, m) && SearchSafe(index, mid + 1, hi, m, b))
    && SearchSafe(index, lo, mid, a, Smaller(b, index[mid].meta.tsMax))
  }

  /** The query with this lower bound passes over no packet that reaches it. */
  ghost predicate SafeFor(index: seq<IndexEntry>, lo: nat, hi: nat, t0: nat)
    requires lo <= hi <= |index|
  {
    EndBy(index, lo, LowerBound(index, lo, hi, t0), t0 - 1)
  }

  lemma {:induction false} SearchSafeSound(index: seq<IndexEntry>, lo: nat, hi: nat, a: int, b: int, t0: nat)
    requires lo <= hi <= |index| && SearchSafe(index, lo, hi, a, b) && a < t0 <= b
    ensures SafeFor(index, lo, hi, t0)
    decreases hi - lo
  {
    if lo < hi {
      var mid := lo + (hi - lo) / 2;
      if index[mid].meta.tsMax < t0 {
        SearchSafeSound(index, mid + 1, hi, Larger(a, index[mid].meta.tsMax), b, t0);
      } else {
        SearchSafeSound(index, lo, mid, a, Smaller(b, index[mid].meta.tsMax), t0);
      }
    }
  }

  lemma {:induction false} SearchSafeComplete(index: seq<IndexEntry>, lo: nat, hi: nat, a: int, b: int)
    requires lo <= hi <= |index| && -1 <= a && forall t0: nat :: a < t0 <= b ==> SafeFor(index, lo, hi, t0)
    ensures SearchSafe(index, lo, hi, a, b)
    decreases hi - lo
  {
    if lo < hi {
      var mid := lo + (hi - lo) / 2;
      var m := Larger(a, index[mid].meta.tsMax);
      if m < b {
        var next: nat, right := m + 1, mid + 1;
        EndsAtProbe(index, lo, hi, next);
        forall t0: nat | m < t0 <= b ensures SafeFor(index, right, hi, t0) { RightOf(index, lo, hi, t0); }
        SearchSafeComplete(index, right, hi, m, b);
      }
      forall t0: nat | a < t0 <= Smaller(b, index[mid].meta.tsMax) ensures SafeFor(index, lo, mid, t0) {
        LeftOf(index, lo, hi, t0);
      }
      SearchSafeComplete(index, lo, mid, a, Smaller(b, index[mid].meta.tsMax));
    }
  }

  lemma EndsAtProbe(index: seq<IndexEntry>, lo: nat, hi: nat, t0: nat)
    requires lo < hi <= |index| && SafeFor(index, lo, hi, t0) && index[lo + (hi - lo) / 2].meta.tsMax < t0
    ensures EndBy(index, lo, lo + (hi - lo) / 2 + 1, t0 - 1)
  {
    assert LowerBound(index, lo, hi, t0) == LowerBound(index, lo + (hi - lo) / 2 + 1, hi, t0);
  }

  lemma RightOf(index: seq<IndexEntry>, lo: nat, hi: nat, t0: nat)
    requires lo < hi <= |index| && SafeFor(index, lo, hi, t0) && index[lo + (hi - lo) / 2].meta.tsMax < t0
    ensures SafeFor(index, lo + (hi - lo) / 2 + 1, hi, t0)
  {
  }

  lemma LeftOf(index: seq<IndexEntry>, lo: nat, hi: nat, t0: nat)
    requires lo < hi <= |index| && SafeFor(index, lo, hi, t0) && t0 <= index[lo + (hi - lo) / 2].meta.tsMax
    ensures SafeFor(index, lo, lo + (hi - lo) / 2, t0)
  {
  }

  // ------------------------------------------------------------------------------------------ sufficiency

  lemma EmptyPacketNoRows(data: seq<Byte>, e: IndexEntry, q: Query, f: Field)
    requires Located(data, e) && Bounding(data, e) && Tight(data, e)
    requires !Filled(e) || Past(q, e) || (q.t0.At? && e.meta.tsMax < q.t0.t)
    ensures Rows(data, e, q, f) == []
  {
    if Filled(e) { OutsideIsEmpty(data, e, q, f, Count(PacketFrom(data, e))); }
  }

  lemma {:induction false} NoRowsFrom(data: seq<Byte>, index: seq<IndexEntry>, q: Query, f: Field, i: nat)
    requires AllLocated(data, index) && AllBounding(data, index) && AllTight(data, index) && i <= |index|
    requires forall j :: i <= j < |index| ==> !Filled(index[j]) || Past(q, index[j])
    ensures LinearFilter(data, index, q, f, i) == []
    decreases |index| - i
  {
    if i < |index| {
      EmptyPacketNoRows(data, index[i], q, f);
      NoRowsFrom(data, index, q, f, i + 1);
    }
  }

  lemma {:induction false} BreakLosesNothing(data: seq<Byte>, index: seq<IndexEntry>, q: Query, f: Field, i: nat)
    requires AllLocated(data, index) && AllBounding(data, index) && AllTight(data, index) && MinOrdered(index)
    requires i <= |index|
    ensures Scan(data, index, q, f, i) == LinearFilter(data, index, q, f, i)
    decreases |index| - i
  {
    if i < |index| {
      if Past(q, index[i]) { NoRowsFrom(data, index, q, f, i); } else { BreakLosesNothing(data, index, q, f, i + 1); }
    }
  }

  lemma {:induction false} SearchLosesNothing(data: seq<Byte>, index: seq<IndexEntry>, q: Query, f: Field, i: nat,
                                              start: nat)
    requires AllLocated(data, index) && AllBounding(data, index) && AllTight(data, index) && i <= start <= |index|
    requires q.t0.At?
    requires EndBy(index, 0, start, q.t0.t - 1)
    ensures LinearFilter(data, index, q, f, i) == LinearFilter(data, index, q, f, start)
    decreases start - i
  {
    if i < start {
      EmptyPacketNoRows(data, index[i], q, f);
      SearchLosesNothing(data, index, q, f, i + 1, start);
    }
  }

  /** The pruned query returns the linear filter. */
  ghost predicate Exact(data: seq<Byte>, index: seq<IndexEntry>, q: Query, f: Field)
    requires AllLocated(data, index)
  {
    Scan(data, index, q, f, Start(index, q)) == LinearFilter(data, index, q, f, 0)
  }

  /** Recorded timestamps fit their type, so larger bounds ask for nothing. */
  lemma SafeBeyondRange(data: seq<Byte>, index: seq<IndexEntry>, t0: nat)
    requires AllLocated(data, index) && AllTight(data, index) && U64 <= t0
    ensures SafeFor(index, 0, |index|, t0)
  {
    forall p | 0 <= p < |index| && Filled(index[p]) ensures index[p].meta.tsMax < U64 { assert Tight(data, index[p]); }
  }

  lemma SafeIsExact(data: seq<Byte>, index: seq<IndexEntry>, q: Query, f: Field)
    requires AllLocated(data, index) && AllBounding(data, index) && AllTight(data, index)
    requires MinOrdered(index) && SearchSafe(index, 0, |index|, -1, U64)
    ensures Exact(data, index, q, f)
  {
    BreakLosesNothing(data, index, q, f, Start(index, q));
    if q.t0.At? {
      var t0 := q.t0.t;
      if t0 <= U64 { SearchSafeSound(index, 0, |index|, -1, U64, t0); } else { SafeBeyondRange(data, index, t0); }
      SearchLosesNothing(data, index, q, f, 0, Start(index, q));
    }
  }

  // -------------------------------------------------------------------------------------------- necessity

  lemma {:induction false} WantedRowCounts(data: seq<Byte>, e: IndexEntry, q: Query, f: Field, k: nat, n: nat)
    requires Located(data, e) && k < n <= Count(PacketFrom(data, e))
    requires var p := PacketFrom(data, e); Wanted(q, RowId(p, k), RowTimestamp(p, k))
    ensures |PacketRows(data, e, q, f, n)| > 0
  {
    if k < n - 1 { WantedRowCounts(data, e, q, f, k, n - 1); }
  }

  lemma {:induction false} ScanIsNoLonger(data: seq<Byte>, index: seq<IndexEntry>, q: Query, f: Field, i: nat)
    requires AllLocated(data, index) && i <= |index|
    ensures |Scan(data, index, q, f, i)| <= |LinearFilter(data, index, q, f, i)|
    decreases |index| - i
  {
    if i < |index| { ScanIsNoLonger(data, index, q, f, i + 1); }
  }

  /** Starting later loses the rows of the packets passed over. */
  lemma {:induction false} LaterIsShorter(data: seq<Byte>, index: seq<IndexEntry>, q: Query, f: Field, i: nat, p: nat,
                                          start: nat)
    requires AllLocated(data, index) && i <= p < start <= |index| && |Rows(data, index[p], q, f)| > 0
    ensures |LinearFilter(data, index, q, f, start)| < |LinearFilter(data, index, q, f, i)|
    decreases start - i
  {
    if i < p {
      LaterIsShorter(data, index, q, f, i + 1, p, start);
    } else {
      NoLonger(data, index, q, f, i + 1, start);
    }
  }

  lemma {:induction false} NoLonger(data: seq<Byte>, index: seq<IndexEntry>, q: Query, f: Field, i: nat, j: nat)
    requires AllLocated(data, index) && i <= j <= |index|
    ensures |LinearFilter(data, index, q, f, j)| <= |LinearFilter(data, index, q, f, i)|
    decreases j - i
  {
    if i < j { NoLonger(data, index, q, f, i + 1, j); }
  }

  /** Breaking at or before packet `i` loses everything from it on. */
  lemma {:induction false} BreakIsShorter(data: seq<Byte>, index: seq<IndexEntry>, q: Query, f: Field, from: nat,
                                          i: nat)
    requires AllLocated(data, index) && from <= i < |index| && Past(q, index[i])
    ensures |Scan(data, index, q, f, from)| + |LinearFilter(data, index, q, f, i)| <=
            |LinearFilter(data, index, q, f, from)|
    decreases i - from
  {
    if Past(q, index[from]) {
      NoLonger(data, index, q, f, from, i);
    } else {
      BreakIsShorter(data, index, q, f, from + 1, i);
    }
  }

  /** A packet passed over although it reaches the bound loses a row that was asked for. */
  lemma SearchLosesRow(data: seq<Byte>, index: seq<IndexEntry>, f: Field, t0: nat, p: nat) returns (q: Query)
    requires AllLocated(data, index) && AllTight(data, index)
    requires p < LowerBound(index, 0, |index|, t0) && Filled(index[p]) && t0 <= index[p].meta.tsMax
    ensures q.t0 == At(t0) && q.t1 == Unbounded && !Exact(data, index, q, f)
  {
    assert Tight(data, index[p]);
    var pkt := PacketFrom(data, index[p]);
    var k :| 0 <= k < Count(pkt) && RowTimestamp(pkt, k) == index[p].meta.tsMax;
    q := Query(RowId(pkt, k), At(t0), Unbounded);
    WantedRowCounts(data, index[p], q, f, k, Count(pkt));
    ScanIsNoLonger(data, index, q, f, Start(index, q));
    LaterIsShorter(data, index, q, f, 0, p, Start(index, q));
  }

  /** A non-empty packet behind one that starts later loses a row that was asked for. */
  lemma BreakLosesRow(data: seq<Byte>, index: seq<IndexEntry>, f: Field, i: nat, j: nat) returns (q: Query)
    requires AllLocated(data, index) && AllTight(data, index)
    requires i < j < |index| && Filled(index[j]) && index[i].meta.tsMin > index[j].meta.tsMin
    ensures !Exact(data, index, q, f)
  {
    assert Tight(data, index[j]);
    var pkt := PacketFrom(data, index[j]);
    var k :| 0 <= k < Count(pkt) && RowTimestamp(pkt, k) == index[j].meta.tsMin;
    q := Query(RowId(pkt, k), Unbounded, At(index[j].meta.tsMin));
    WantedRowCounts(data, index[j], q, f, k, Count(pkt));
    BreakIsShorter(data, index, q, f, 0, i);
    LaterIsShorter(data, index, q, f, i, j, |index|);
  }

  /** Over any index with true, attained bounds: the query is exact for every id and time range if and only if no
      packet starts later than a non-empty one behind it and the binary search is safe. */
  lemma QueryExactIff(data: seq<Byte>, index: seq<IndexEntry>, f: Field)
    requires AllLocated(data, index) && AllBounding(data, index) && AllTight(data, index)
    ensures (forall q :: Exact(data, index, q, f)) <==> MinOrdered(index) && SearchSafe(index, 0, |index|, -1, U64)
  {
    if MinOrdered(index) && SearchSafe(index, 0, |index|, -1, U64) {
      forall q ensures Exact(data, index, q, f) { SafeIsExact(data, index, q, f); }
    }
    if forall q :: Exact(data, index, q, f) {
      forall i, j | 0 <= i < j < |index| && Filled(index[j]) ensures index[i].meta.tsMin <= index[j].meta.tsMin {
        if index[i].meta.tsMin > index[j].meta.tsMin { var q := BreakLosesRow(data, index, f, i, j); }
      }
      forall t0: nat | -1 < t0 <= U64 ensures SafeFor(index, 0, |index|, t0) {
        forall p | 0 <= p < LowerBound(index, 0, |index|, t0) && Filled(index[p])
          ensures index[p].meta.tsMax <= t0 - 1
        {
          if t0 <= index[p].meta.tsMax { var q := SearchLosesRow(data, index, f, t0, p); }
        }
      }
      SearchSafeComplete(index, 0, |index|, -1, U64);
    }
  }
}
