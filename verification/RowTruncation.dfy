/** Cutting a log table down to a row budget: even sampling over time, and score tiers. */
module RowTruncation {
  import opened Bytes
  import opened Bits

  /** A table row: its time, and the numeric cells by channel. */
  datatype Row = Row(t: nat, raw: map<nat, real>)
  datatype Column = NoColumn | Column(ch: nat)

  predicate Sorted(rows: seq<Row>) { forall i, j :: 0 <= i < j < |rows| ==> rows[i].t <= rows[j].t }

  // --------------------------------------------------------------------------------- picking in order

  /** `out` is the rows at the increasing positions `idx`. */
  ghost predicate Picks(out: seq<Row>, rows: seq<Row>, idx: seq<nat>) {
    && |out| == |idx|
    && (forall i, j :: 0 <= i < j < |idx| ==> idx[i] < idx[j])
    && forall k :: 0 <= k < |idx| ==> idx[k] < |rows| && out[k] == rows[idx[k]]
  }

  lemma PicksKeepOrder(out: seq<Row>, rows: seq<Row>, idx: seq<nat>)
    requires Picks(out, rows, idx) && Sorted(rows)
    ensures Sorted(out)
  {
  }

  lemma {:induction false} PicksAreRows(out: seq<Row>, rows: seq<Row>, idx: seq<nat>, r: Row)
    requires Picks(out, rows, idx)
    ensures multiset(out)[r] <= multiset(rows)[r]
    decreases |rows|
  {
    if |rows| == 0 {
      assert out == [];
    } else {
      var n := |rows| - 1;
      assert rows == rows[..n] + [rows[n]];
      if |idx| > 0 && idx[|idx| - 1] == n {
        var m := |idx| - 1;
        assert out == out[..m] + [out[m]];
        PicksAreRows(out[..m], rows[..n], idx[..m], r);
      } else {
        PicksAreRows(out, rows[..n], idx, r);
      }
    }
  }

  // ----------------------------------------------------------------------------- even over time

  /** Number of the time bucket of `t`, out of `n` over a span starting at `first`. */
  function BucketOf(t: nat, first: nat, n: nat, span: nat): nat
    requires first <= t && span > 0
  {
    DivNonNegative((t - first) * n, span);
    (t - first) * n / span
  }

  lemma DivMonotone(a: nat, b: nat, d: nat)
    requires a <= b && d > 0
    ensures a / d <= b / d
  {
    var p, q := a / d, b / d;
    assert a == d * p + a % d && b == d * q + b % d;
    DivNonNegative(b, d);
    if q < p { Gap(d, q, p); }
  }

  lemma BucketMonotone(t: nat, u: nat, first: nat, n: nat, span: nat)
    requires first <= t <= u && span > 0
    ensures BucketOf(t, first, n, span) <= BucketOf(u, first, n, span)
  {
    MulMonotone(t - first, u - first, n);
    DivMonotone((t - first) * n, (u - first) * n, span);
  }

  /** Times within the span get numbers below `n`. */
  lemma BucketInRange(t: nat, first: nat, n: nat, span: nat)
    requires first <= t < first + span && n > 0
    ensures BucketOf(t, first, n, span) < n
  {
    var a, q := t - first, BucketOf(t, first, n, span);
    assert a * n == span * q + a * n % span;
    MulMonotone(a, span - 1, n);
    assert (span - 1) * n == span * n - n;
    if q >= n { MulMonotone(n, q, span); }
  }

  /** Bucket `b` of `n` is the `b`-th of `n` equal parts of the time from the first row to the last. */
  lemma BucketIs(rows: seq<Row>, n: nat, i: nat)
    requires Sorted(rows) && i < |rows|
    ensures
      var b, span := Buckets(rows, n)[i], rows[|rows| - 1].t - rows[0].t + 1;
      b * span <= (rows[i].t - rows[0].t) * n < (b + 1) * span
  {
    var a, span := (rows[i].t - rows[0].t) * n, rows[|rows| - 1].t - rows[0].t + 1;
    QuotientBounds(a, span);
  }

  lemma QuotientBounds(a: nat, span: nat)
    requires span > 0
    ensures (a / span) * span <= a < (a / span + 1) * span
  {
    assert a == span * (a / span) + a % span;
    assert (a / span + 1) * span == span * (a / span) + span;
  }

  /** No earlier row falls into the same bucket. */
  ghost predicate FirstInBucket(buckets: seq<nat>, i: nat)
    requires i < |buckets|
  {
    forall j :: 0 <= j < i ==> buckets[j] != buckets[i]
  }

  function Buckets(rows: seq<Row>, n: nat): (b: seq<nat>)
    requires Sorted(rows) && |rows| > 0
    ensures |b| == |rows|
    ensures forall i :: 0 <= i < |rows| ==>
      b[i] == BucketOf(rows[i].t, rows[0].t, n, rows[|rows| - 1].t - rows[0].t + 1)
  {
    seq(|rows|, i requires 0 <= i < |rows| => BucketOf(rows[i].t, rows[0].t, n, rows[|rows| - 1].t - rows[0].t + 1))
  }

  lemma BucketsOrdered(rows: seq<Row>, n: nat)
    requires Sorted(rows) && |rows| > 0 && n > 0
    ensures forall i, j :: 0 <= i <= j < |rows| ==> Buckets(rows, n)[i] <= Buckets(rows, n)[j] < n
  {
    var first, span := rows[0].t, rows[|rows| - 1].t - rows[0].t + 1;
    forall i, j | 0 <= i <= j < |rows| ensures Buckets(rows, n)[i] <= Buckets(rows, n)[j] < n {
      BucketMonotone(rows[i].t, rows[j].t, first, n, span);
      BucketInRange(rows[j].t, first, n, span);
    }
  }

  /** Of the first `i` rows, exactly the first of each bucket is picked. */
  ghost predicate Chosen(out: seq<Row>, rows: seq<Row>, idx: seq<nat>, buckets: seq<nat>, i: nat) {
    && i <= |rows| == |buckets| && Picks(out, rows, idx) && (forall k :: 0 <= k < |idx| ==> idx[k] < i)
    && (forall k :: 0 <= k < i ==> (k in idx <==> FirstInBucket(buckets, k)))
    && |out| == |Occupied(buckets[..i])|
  }

  lemma ChosenKeeps(out: seq<Row>, rows: seq<Row>, idx: seq<nat>, buckets: seq<nat>, i: nat)
    requires Chosen(out, rows, idx, buckets, i) && i < |rows| && FirstInBucket(buckets, i)
    ensures Chosen(out + [rows[i]], rows, idx + [i], buckets, i + 1)
  {
    OccupiedSnoc(buckets, i);
  }

  lemma ChosenSkips(out: seq<Row>, rows: seq<Row>, idx: seq<nat>, buckets: seq<nat>, i: nat)
    requires Chosen(out, rows, idx, buckets, i) && i < |rows| && !FirstInBucket(buckets, i)
    ensures Chosen(out, rows, idx, buckets, i + 1)
  {
    OccupiedSnoc(buckets, i);
    assert Occupied(buckets[..i + 1]) == Occupied(buckets[..i]);
  }

  /** The bucketing loop keeps exactly the first row of each occupied bucket. */
  method FirstPerBucket(rows: seq<Row>, n: nat) returns (out: seq<Row>, ghost idx: seq<nat>)
    requires Sorted(rows) && |rows| > 0 && n > 0
    ensures Chosen(out, rows, idx, Buckets(rows, n), |rows|) && |out| <= n
  {
    ghost var buckets := Buckets(rows, n);
    BucketsOrdered(rows, n);
    var first, span := rows[0].t, rows[|rows| - 1].t - rows[0].t + 1;
    out, idx := [], [];
    var last := -1;
    var i := 0;
    while i < |rows|
      invariant 0 <= i <= |rows| && Chosen(out, rows, idx, buckets, i)
      invariant if i == 0 then last == -1 else last == buckets[i - 1]
      invariant |out| <= last + 1 <= n
    {
      var bucket := BucketOf(rows[i].t, first, n, span);
      NewBucketIsFirst(buckets, i);
      if bucket != last {
        ChosenKeeps(out, rows, idx, buckets, i);
        out := out + [rows[i]];
        idx := idx + [i];
        last := bucket;
      } else {
        ChosenSkips(out, rows, idx, buckets, i);
      }
      i := i + 1;
    }
  }

  ghost function Occupied(buckets: seq<nat>): set<nat> { set b | b in buckets }

  lemma OccupiedSnoc(buckets: seq<nat>, i: nat)
    requires i < |buckets|
    ensures Occupied(buckets[..i + 1]) == Occupied(buckets[..i]) + {buckets[i]}
    ensures FirstInBucket(buckets, i) <==> buckets[i] !in Occupied(buckets[..i])
  {
    assert buckets[..i + 1] == buckets[..i] + [buckets[i]];
    if !FirstInBucket(buckets, i) {
      var j :| 0 <= j < i && buckets[j] == buckets[i];
      assert buckets[..i][j] == buckets[i];
    }
  }

  lemma OccupiedAll(rows: seq<Row>, n: nat)
    requires Sorted(rows) && |rows| > 0 && n > 0
    ensures |Occupied(Buckets(rows, n))| == n <==> forall b :: 0 <= b < n ==> b in Buckets(rows, n)
  {
    var buckets := Buckets(rows, n);
    BucketsOrdered(rows, n);
    FullWhenAsMany(Occupied(buckets), n);
    forall b ensures b in Occupied(buckets) <==> b in buckets { }
  }

  /** In an ordered list a number is new exactly when it differs from the one before. */
  lemma NewBucketIsFirst(buckets: seq<nat>, i: nat)
    requires i < |buckets| && forall j, k :: 0 <= j <= k < |buckets| ==> buckets[j] <= buckets[k]
    ensures FirstInBucket(buckets, i) <==> i == 0 || buckets[i - 1] != buckets[i]
  {
  }

  /** Every `stride`-th row, at most `n`. */
  method EveryNth(rows: seq<Row>, stride: nat, n: nat) returns (out: seq<Row>, ghost idx: seq<nat>)
    requires stride > 0
    ensures Picks(out, rows, idx) && |out| == Min(n, CeilDiv(|rows|, stride))
    ensures forall k :: 0 <= k < |idx| ==> idx[k] == k * stride < |rows|
  {
    out, idx := [], [];
    var pos := 0;
    while pos < |rows| && |out| < n
      invariant pos == |out| * stride && |out| <= n && Picks(out, rows, idx)
      invariant forall k :: 0 <= k < |idx| ==> idx[k] == k * stride < pos
      invariant |out| > 0 ==> (|out| - 1) * stride < |rows|
      decreases n - |out|
    {
      out, idx := out + [rows[pos]], idx + [pos];
      pos := pos + stride;
    }
    StepsTaken(|rows|, stride, |out|, n);
  }

  lemma StepsTaken(len: nat, stride: nat, k: nat, n: nat)
    requires stride > 0 && k <= n && (k > 0 ==> (k - 1) * stride < len) && (k * stride >= len || k == n)
    ensures k == Min(n, CeilDiv(len, stride))
  {
    if k * stride >= len {
      CeilDivIs(len, stride, k);
    } else {
      StepsLeft(len, stride, k);
    }
  }

  lemma StepsLeft(len: nat, stride: nat, k: nat)
    requires stride > 0 && k * stride < len
    ensures CeilDiv(len, stride) > k
  {
    var q := CeilDiv(len, stride);
    DivNonNegative(len, stride);
    assert len == stride * (len / stride) + len % stride;
    if q <= k { MulMonotone(q, k, stride); }
  }

  /** How many rows sampling keeps. */
  ghost function SampleSize(rows: seq<Row>, n: nat): nat
    requires Sorted(rows)
  {
    if n == 0 then 0
    else if |rows| <= n then |rows|
    else if rows[0].t == rows[|rows| - 1].t then Min(n, CeilDiv(|rows|, CeilDiv(|rows|, n)))
    else |Occupied(Buckets(rows, n))|
  }

  /** Which rows sampling keeps: all that fit; at one instant every k-th from the first on, with the smallest
      stride that does not give more than `n`; over a span the first row of each time bucket. */
  ghost predicate EvenSample(out: seq<Row>, rows: seq<Row>, idx: seq<nat>, n: nat)
    requires Sorted(rows)
  {
    && Picks(out, rows, idx) && (n == 0 ==> out == []) && (0 < n && |rows| <= n ==> out == rows)
    && (0 < n < |rows| && rows[0].t == rows[|rows| - 1].t ==> Strided(idx, |rows|, n))
    && (0 < n < |rows| && rows[0].t < rows[|rows| - 1].t ==> Chosen(out, rows, idx, Buckets(rows, n), |rows|))
  }

  /** Every k-th of `len`, with the smallest k that gives at most `n`. */
  ghost predicate Strided(idx: seq<nat>, len: nat, n: nat) {
    exists stride :: (stride - 1) * n < len <= stride * n && EveryStride(idx, stride, len)
  }

  /** All the multiples of `stride` below `len`, in order. */
  ghost predicate EveryStride(idx: seq<nat>, stride: nat, len: nat) {
    && (forall k :: 0 <= k < |idx| ==> idx[k] == k * stride < len)
    && |idx| * stride >= len
  }

  lemma StrideOfSample(idx: seq<nat>, len: nat, n: nat, stride: nat)
    requires 0 < n < len && stride == CeilDiv(len, n) && |idx| == Min(n, CeilDiv(len, stride))
    requires forall k :: 0 <= k < |idx| ==> idx[k] == k * stride < len
    ensures Strided(idx, len, n)
  {
    CeilDivCovers(len, n);
    CeilDivCovers(len, stride);
    if |idx| == n {
      assert n * stride == stride * n;
    }
    assert EveryStride(idx, stride, len);
  }

  /** At one instant. */
  method SampleInstant(rows: seq<Row>, n: nat) returns (out: seq<Row>, ghost idx: seq<nat>)
    requires Sorted(rows) && 0 < n < |rows| && rows[0].t == rows[|rows| - 1].t
    ensures |out| <= n && |out| == SampleSize(rows, n) && EvenSample(out, rows, idx, n)
  {
    var stride := CeilDiv(|rows|, n);
    out, idx := EveryNth(rows, stride, n);
    StrideOfSample(idx, |rows|, n, stride);
    InstantIsEven(out, rows, idx, n);
  }

  lemma InstantIsEven(out: seq<Row>, rows: seq<Row>, idx: seq<nat>, n: nat)
    requires Sorted(rows) && 0 < n < |rows| && rows[0].t == rows[|rows| - 1].t
    requires Picks(out, rows, idx) && Strided(idx, |rows|, n)
    ensures EvenSample(out, rows, idx, n)
  {
  }

  /** Over a span. */
  method SampleSpan(rows: seq<Row>, n: nat) returns (out: seq<Row>, ghost idx: seq<nat>)
    requires Sorted(rows) && 0 < n < |rows| && rows[0].t != rows[|rows| - 1].t
    ensures |out| <= n && |out| == SampleSize(rows, n) && EvenSample(out, rows, idx, n)
  {
    out, idx := FirstPerBucket(rows, n);
    assert Buckets(rows, n)[..|rows|] == Buckets(rows, n);
  }

  /** `sample_even_over_time`. */
  method SampleEvenOverTime(rows: seq<Row>, n: nat) returns (out: seq<Row>, ghost idx: seq<nat>)
    requires Sorted(rows)
    ensures |out| <= n && |out| == SampleSize(rows, n) && EvenSample(out, rows, idx, n)
  {
    if n == 0 { return [], []; }
    if |rows| <= n { return rows, seq(|rows|, i requires 0 <= i => i); }
    if rows[|rows| - 1].t == rows[0].t {
      out, idx := SampleInstant(rows, n);
    } else {
      out, idx := SampleSpan(rows, n);
    }
  }

  /** Sampling `n` of more rows keeps `n` of them: at one instant when the rounded-up stride still takes `n` steps,
      over a span when every one of the `n` time buckets holds a row. */
  ghost predicate Fills(rows: seq<Row>, n: nat)
    requires Sorted(rows) && n < |rows|
  {
    n == 0 ||
    if rows[0].t == rows[|rows| - 1].t then CeilDiv(|rows|, CeilDiv(|rows|, n)) >= n
    else forall b :: 0 <= b < n ==> b in Buckets(rows, n)
  }

  lemma FillsIff(rows: seq<Row>, n: nat)
    requires Sorted(rows) && n < |rows|
    ensures SampleSize(rows, n) == n <==> Fills(rows, n)
  {
    if n > 0 { OccupiedAll(rows, n); }
  }

  // ------------------------------------------------------------------------------------ score tiers

  const I64_MIN: int := -0x8000_0000_0000_0000
  const I64_MAX: int := 0x7fff_ffff_ffff_ffff

  /** A float cast to a 64-bit integer: toward zero, saturating. */
  function ToI64(x: real): (n: int)
    ensures I64_MIN <= n <= I64_MAX
  {
    var n := if x >= 0.0 then x.Floor else -(-x).Floor;
    if n < I64_MIN then I64_MIN else if n > I64_MAX then I64_MAX else n
  }

  /** The row's value in the priority column; a missing one ranks lowest. */
  function Score(r: Row, ch: nat): int { if ch in r.raw then ToI64(r.raw[ch]) else I64_MIN }

  /** The score is the cell's value cut to a whole number toward zero, held inside 64 bits; without a cell the least. */
  lemma ScoreIs(r: Row, ch: nat)
    ensures ch !in r.raw ==> Score(r, ch) == -0x8000_0000_0000_0000
    ensures ch in r.raw && 0.0 <= r.raw[ch] < 9223372036854775808.0 ==>
      Score(r, ch) as real <= r.raw[ch] < Score(r, ch) as real + 1.0
    ensures ch in r.raw && -9223372036854775808.0 <= r.raw[ch] <= 0.0 ==>
      Score(r, ch) as real - 1.0 < r.raw[ch] <= Score(r, ch) as real
    ensures ch in r.raw && r.raw[ch] >= 9223372036854775808.0 ==> Score(r, ch) == 0x7fff_ffff_ffff_ffff
    ensures ch in r.raw && r.raw[ch] < -9223372036854775808.0 ==> Score(r, ch) == -0x8000_0000_0000_0000
  {
  }

  /** By their cells alone, `r` has the higher priority: any value inside 64 bits over none, and of two values the one
      larger by at least one, or on the other side of zero. */
  predicate Outranks(r: Row, k: Row, ch: nat) {
    && ch in r.raw && -9223372036854775808.0 < r.raw[ch] < 9223372036854775808.0
    && (ch in k.raw ==>
          || (0.0 <= k.raw[ch] && k.raw[ch] + 1.0 <= r.raw[ch])
          || (r.raw[ch] <= 0.0 && k.raw[ch] + 1.0 <= r.raw[ch])
          || (k.raw[ch] <= -1.0 && 0.0 <= r.raw[ch]))
  }

  lemma OutranksByScore(r: Row, k: Row, ch: nat)
    requires Outranks(r, k, ch)
    ensures Score(r, ch) > Score(k, ch)
  {
    ScoreIs(r, ch);
    ScoreIs(k, ch);
  }

  /** A kept row means that every row of higher priority is kept. */
  ghost predicate PrioritiesKept(out: seq<Row>, rows: seq<Row>, ch: nat) {
    forall k, r :: k in out && r in rows && Outranks(r, k, ch) ==> multiset(out)[r] == multiset(rows)[r]
  }

  function OfScore(rows: seq<Row>, ch: nat, s: int): seq<Row> {
    if |rows| == 0 then []
    else OfScore(rows[..|rows| - 1], ch, s) + (if Score(rows[|rows| - 1], ch) == s then [rows[|rows| - 1]] else [])
  }

  lemma {:induction false} OfScoreCounts(rows: seq<Row>, ch: nat, s: int, r: Row)
    ensures multiset(OfScore(rows, ch, s))[r] == if Score(r, ch) == s then multiset(rows)[r] else 0
  {
    if |rows| > 0 {
      var init, last := rows[..|rows| - 1], rows[|rows| - 1];
      assert rows == init + [last];
      OfScoreCounts(init, ch, s, r);
    }
  }

  lemma {:induction false} OfScoreSorted(rows: seq<Row>, ch: nat, s: int)
    requires Sorted(rows)
    ensures Sorted(OfScore(rows, ch, s))
    ensures forall r :: r in OfScore(rows, ch, s) ==> r.t <= (if |rows| > 0 then rows[|rows| - 1].t else 0)
  {
    if |rows| > 0 { OfScoreSorted(rows[..|rows| - 1], ch, s); }
  }

  /** Tiers by ascending score, as an ordered map iterates. */
  datatype Tier = Tier(score: int, rows: seq<Row>)

  predicate Ascending(tiers: seq<Tier>) { forall i, j :: 0 <= i < j < |tiers| ==> tiers[i].score < tiers[j].score }

  /** Row list of a score, empty when it has no tier. */
  function TierOf(tiers: seq<Tier>, s: int): seq<Row> {
    if |tiers| == 0 then []
    else if tiers[|tiers| - 1].score == s then tiers[|tiers| - 1].rows
    else TierOf(tiers[..|tiers| - 1], s)
  }

  /** Adds a row to the tier of its score, making one where it belongs. */
  function AddToTier(tiers: seq<Tier>, s: int, r: Row): seq<Tier> {
    if |tiers| == 0 then [Tier(s, [r])]
    else
      var init, last := tiers[..|tiers| - 1], tiers[|tiers| - 1];
      if last.score == s then init + [Tier(s, last.rows + [r])]
      else if last.score < s then tiers + [Tier(s, [r])]
      else AddToTier(init, s, r) + [last]
  }

  lemma {:induction false} AddKeepsAscending(tiers: seq<Tier>, s: int, r: Row)
    requires Ascending(tiers)
    ensures var after := AddToTier(tiers, s, r);
      && Ascending(after) && |after| > 0
      && forall i :: 0 <= i < |after| ==>
           after[i].score == s || exists j :: 0 <= j < |tiers| && tiers[j].score == after[i].score
  {
    if |tiers| > 0 && tiers[|tiers| - 1].score > s {
      var init, last := tiers[..|tiers| - 1], tiers[|tiers| - 1];
      AddKeepsAscending(init, s, r);
      var inner := AddToTier(init, s, r);
      var after := inner + [last];
      assert AddToTier(tiers, s, r) == after;
      forall i | 0 <= i < |inner|
        ensures inner[i].score < last.score
        ensures inner[i].score == s || exists j :: 0 <= j < |tiers| && tiers[j].score == inner[i].score
      {
        if inner[i].score != s {
          var j :| 0 <= j < |init| && init[j].score == inner[i].score;
          assert tiers[j].score == inner[i].score;
        }
      }
      assert tiers[|init|].score == last.score;
    }
  }

  lemma {:induction false} AddGivesTier(tiers: seq<Tier>, s: int, r: Row, q: int)
    requires Ascending(tiers)
    ensures TierOf(AddToTier(tiers, s, r), q) == if q == s then TierOf(tiers, s) + [r] else TierOf(tiers, q)
  {
    if |tiers| > 0 {
      var init, last := tiers[..|tiers| - 1], tiers[|tiers| - 1];
      if last.score == s {
        assert (init + [Tier(s, last.rows + [r])])[..|init|] == init;
      } else if last.score < s {
        NoTierAbove(tiers, s);
        assert (tiers + [Tier(s, [r])])[..|tiers|] == tiers;
      } else {
        AddGivesTier(init, s, r, q);
        assert (AddToTier(init, s, r) + [last])[..|AddToTier(init, s, r)|] == AddToTier(init, s, r);
      }
    }
  }

  lemma {:induction false} NoTierAbove(tiers: seq<Tier>, s: int)
    requires Ascending(tiers) && (|tiers| > 0 ==> tiers[|tiers| - 1].score < s)
    ensures TierOf(tiers, s) == []
  {
    if |tiers| > 0 { NoTierAbove(tiers[..|tiers| - 1], s); }
  }

  lemma {:induction false} TierAt(tiers: seq<Tier>, i: nat)
    requires Ascending(tiers) && i < |tiers|
    ensures TierOf(tiers, tiers[i].score) == tiers[i].rows
  {
    if i < |tiers| - 1 { TierAt(tiers[..|tiers| - 1], i); }
  }

  lemma {:induction false} NoSuchTier(tiers: seq<Tier>, s: int)
    requires forall i :: 0 <= i < |tiers| ==> tiers[i].score != s
    ensures TierOf(tiers, s) == []
  {
    if |tiers| > 0 { NoSuchTier(tiers[..|tiers| - 1], s); }
  }

  /** The tiers hold every row, each under its score and in order. */
  ghost predicate Grouped(tiers: seq<Tier>, rows: seq<Row>, ch: nat) {
    Ascending(tiers) && forall s :: TierOf(tiers, s) == OfScore(rows, ch, s)
  }

  method GroupByScore(rows: seq<Row>, ch: nat) returns (tiers: seq<Tier>)
    ensures Grouped(tiers, rows, ch)
  {
    tiers := [];
    var i := 0;
    while i < |rows|
      invariant 0 <= i <= |rows| && Grouped(tiers, rows[..i], ch)
    {
      GroupOne(tiers, rows, i, ch);
      tiers := AddToTier(tiers, Score(rows[i], ch), rows[i]);
      i := i + 1;
    }
    assert rows[..|rows|] == rows;
  }

  lemma GroupOne(tiers: seq<Tier>, rows: seq<Row>, i: nat, ch: nat)
    requires i < |rows| && Grouped(tiers, rows[..i], ch)
    ensures Grouped(AddToTier(tiers, Score(rows[i], ch), rows[i]), rows[..i + 1], ch)
  {
    var s := Score(rows[i], ch);
    AddKeepsAscending(tiers, s, rows[i]);
    assert rows[..i + 1][..i] == rows[..i];
    forall q ensures TierOf(AddToTier(tiers, s, rows[i]), q) == OfScore(rows[..i + 1], ch, q) {
      AddGivesTier(tiers, s, rows[i], q);
    }
  }

  // ------------------------------------------------------------------------------------- the stable sort

  function InsertByTime(rows: seq<Row>, r: Row): (out: seq<Row>)
    ensures |out| == |rows| + 1
  {
    if |rows| == 0 || rows[|rows| - 1].t <= r.t then rows + [r]
    else InsertByTime(rows[..|rows| - 1], r) + [rows[|rows| - 1]]
  }

  /** `sort_by_key` on time. */
  function SortByTime(rows: seq<Row>): (out: seq<Row>)
    ensures |out| == |rows|
  {
    if |rows| == 0 then [] else InsertByTime(SortByTime(rows[..|rows| - 1]), rows[|rows| - 1])
  }

  lemma {:induction false} InsertSorts(rows: seq<Row>, r: Row)
    requires Sorted(rows)
    ensures Sorted(InsertByTime(rows, r)) && multiset(InsertByTime(rows, r)) == multiset(rows) + multiset{r}
  {
    if |rows| > 0 && rows[|rows| - 1].t > r.t {
      var init, last := rows[..|rows| - 1], rows[|rows| - 1];
      InsertSorts(init, r);
      assert rows == init + [last];
      var inner := InsertByTime(init, r);
      forall i | 0 <= i < |inner| ensures inner[i].t <= last.t {
        assert inner[i] in multiset(inner);
        if inner[i] != r { assert inner[i] in multiset(init); }
      }
    }
  }

  lemma {:induction false} SortSorts(rows: seq<Row>)
    ensures Sorted(SortByTime(rows)) && multiset(SortByTime(rows)) == multiset(rows)
  {
    if |rows| > 0 {
      var init, last := rows[..|rows| - 1], rows[|rows| - 1];
      SortSorts(init);
      InsertSorts(SortByTime(init), last);
      assert rows == init + [last];
    }
  }

  // ------------------------------------------------------------------------------------------ truncation

  /** Above `level` everything is kept, below it nothing, and nothing is kept more often than it occurs. */
  ghost predicate Tiered(out: seq<Row>, rows: seq<Row>, ch: nat, level: int) {
    forall r {:trigger multiset(out)[r]} ::
      && multiset(out)[r] <= multiset(rows)[r]
      && (Score(r, ch) > level ==> multiset(out)[r] == multiset(rows)[r])
      && (Score(r, ch) < level ==> multiset(out)[r] == 0)
  }

  /** The tiers from `k` on have been taken whole. */
  ghost predicate TakenFrom(out: seq<Row>, rows: seq<Row>, ch: nat, tiers: seq<Tier>, k: nat)
    requires k <= |tiers|
  {
    forall r {:trigger multiset(out)[r]} ::
      multiset(out)[r] == if k < |tiers| && Score(r, ch) >= tiers[k].score then multiset(rows)[r] else 0
  }

  lemma NoneBetween(rows: seq<Row>, ch: nat, tiers: seq<Tier>, k: nat, r: Row)
    requires Grouped(tiers, rows, ch) && 0 < k <= |tiers|
    requires Score(r, ch) > tiers[k - 1].score && (k < |tiers| ==> Score(r, ch) < tiers[k].score)
    ensures multiset(rows)[r] == 0
  {
    var s := Score(r, ch);
    NoSuchTier(tiers, s);
    OfScoreCounts(rows, ch, s, r);
    assert TierOf(tiers, s) == OfScore(rows, ch, s);
  }

  lemma TakesTier(out: seq<Row>, rows: seq<Row>, ch: nat, tiers: seq<Tier>, k: nat)
    requires Grouped(tiers, rows, ch) && 0 < k <= |tiers| && TakenFrom(out, rows, ch, tiers, k)
    ensures TakenFrom(out + tiers[k - 1].rows, rows, ch, tiers, k - 1)
  {
    var tier := tiers[k - 1];
    var all := out + tier.rows;
    TierAt(tiers, k - 1);
    forall r ensures multiset(all)[r] == if Score(r, ch) >= tier.score then multiset(rows)[r] else 0 {
      OfScoreCounts(rows, ch, tier.score, r);
      assert multiset(all)[r] == multiset(out)[r] + multiset(tier.rows)[r];
      if Score(r, ch) > tier.score && (k < |tiers| ==> Score(r, ch) < tiers[k].score) {
        NoneBetween(rows, ch, tiers, k, r);
      }
    }
  }

  lemma TakesPart(out: seq<Row>, rows: seq<Row>, ch: nat, tiers: seq<Tier>, k: nat, part: seq<Row>, idx: seq<nat>)
    requires Grouped(tiers, rows, ch) && 0 < k <= |tiers| && TakenFrom(out, rows, ch, tiers, k)
    requires Picks(part, tiers[k - 1].rows, idx)
    ensures Tiered(out + part, rows, ch, tiers[k - 1].score)
  {
    var tier := tiers[k - 1];
    var all := out + part;
    TierAt(tiers, k - 1);
    forall r ensures multiset(all)[r] <= multiset(rows)[r]
      && (Score(r, ch) > tier.score ==> multiset(all)[r] == multiset(rows)[r])
      && (Score(r, ch) < tier.score ==> multiset(all)[r] == 0)
    {
      OfScoreCounts(rows, ch, tier.score, r);
      PicksAreRows(part, tier.rows, idx, r);
      assert multiset(all)[r] == multiset(out)[r] + multiset(part)[r];
      if Score(r, ch) > tier.score && (k < |tiers| ==> Score(r, ch) < tiers[k].score) {
        NoneBetween(rows, ch, tiers, k, r);
      }
    }
  }

  /** The rows of higher score, in order. */
  function Above(rows: seq<Row>, ch: nat, level: int): seq<Row> {
    if |rows| == 0 then []
    else Above(rows[..|rows| - 1], ch, level) + (if Score(rows[|rows| - 1], ch) > level then [rows[|rows| - 1]] else [])
  }

  lemma {:induction false} AboveCounts(rows: seq<Row>, ch: nat, level: int, r: Row)
    ensures multiset(Above(rows, ch, level))[r] == if Score(r, ch) > level then multiset(rows)[r] else 0
  {
    if |rows| > 0 {
      var init, last := rows[..|rows| - 1], rows[|rows| - 1];
      assert rows == init + [last];
      AboveCounts(init, ch, level, r);
    }
  }

  /** Tiers taken from `k` on are as many rows as lie above the tier before. */
  lemma TakenIsAbove(out: seq<Row>, rows: seq<Row>, ch: nat, tiers: seq<Tier>, k: nat)
    requires Grouped(tiers, rows, ch) && 0 < k <= |tiers| && TakenFrom(out, rows, ch, tiers, k)
    ensures multiset(out) == multiset(Above(rows, ch, tiers[k - 1].score))
    ensures |out| == |Above(rows, ch, tiers[k - 1].score)|
  {
    var level := tiers[k - 1].score;
    var above := Above(rows, ch, level);
    forall r ensures multiset(out)[r] == multiset(above)[r] {
      AboveCounts(rows, ch, level, r);
      if Score(r, ch) > level && (k < |tiers| ==> Score(r, ch) < tiers[k].score) { NoneBetween(rows, ch, tiers, k, r); }
    }
    SameSize(out, above);
  }

  lemma TakenIsAtLeast(out: seq<Row>, rows: seq<Row>, ch: nat, tiers: seq<Tier>, k: nat)
    requires k < |tiers| && TakenFrom(out, rows, ch, tiers, k)
    ensures multiset(out) == multiset(Above(rows, ch, tiers[k].score)) + multiset(OfScore(rows, ch, tiers[k].score))
    ensures |out| == |Above(rows, ch, tiers[k].score)| + |OfScore(rows, ch, tiers[k].score)|
  {
    var level := tiers[k].score;
    var all := Above(rows, ch, level) + OfScore(rows, ch, level);
    forall r ensures multiset(out)[r] == multiset(all)[r] {
      AboveCounts(rows, ch, level, r);
      OfScoreCounts(rows, ch, level, r);
    }
    SameSize(out, all);
  }

  lemma SameSize(a: seq<Row>, b: seq<Row>)
    requires forall r :: multiset(a)[r] == multiset(b)[r]
    ensures |a| == |b| && multiset(a) == multiset(b)
  {
    assert multiset(a) == multiset(b);
    assert |a| == |multiset(a)| && |b| == |multiset(b)|;
  }

  /** Everything above the level, and of the level itself what even sampling leaves of the remaining room. */
  ghost predicate Sized(out: seq<Row>, rows: seq<Row>, ch: nat, level: int, maxRows: nat)
    requires Sorted(rows)
  {
    OfScoreSorted(rows, ch, level);
    var above := |Above(rows, ch, level)|;
    above <= maxRows && |out| == above + SampleSize(OfScore(rows, ch, level), maxRows - above)
  }

  /** What truncation by priority keeps: every row above the level, and of the rows at the level an even sample into
      the room that is left. */
  ghost predicate Truncated(out: seq<Row>, rows: seq<Row>, ch: nat, level: int, part: seq<Row>, idx: seq<nat>,
                            maxRows: nat)
    requires Sorted(rows)
  {
    OfScoreSorted(rows, ch, level);
    var above := Above(rows, ch, level);
    && |above| <= maxRows && multiset(out) == multiset(above) + multiset(part)
    && EvenSample(part, OfScore(rows, ch, level), idx, maxRows - |above|)
  }

  /** Scores never go up. */
  ghost predicate Descending(rows: seq<Row>, ch: nat) {
    forall i, j :: 0 <= i < j < |rows| ==> Score(rows[i], ch) >= Score(rows[j], ch)
  }

  /** Rows of one time come with the higher scores first. */
  ghost predicate HighFirst(rows: seq<Row>, ch: nat) {
    forall i, j :: 0 <= i < j < |rows| && rows[i].t == rows[j].t ==> Score(rows[i], ch) >= Score(rows[j], ch)
  }

  lemma {:induction false} InsertKeepsHighFirst(rows: seq<Row>, r: Row, ch: nat)
    requires HighFirst(rows, ch) && forall i :: 0 <= i < |rows| ==> Score(rows[i], ch) >= Score(r, ch)
    ensures HighFirst(InsertByTime(rows, r), ch)
    ensures forall x :: x in InsertByTime(rows, r) <==> x in rows || x == r
  {
    if |rows| > 0 && rows[|rows| - 1].t > r.t {
      var init, last := rows[..|rows| - 1], rows[|rows| - 1];
      assert rows == init + [last];
      InsertKeepsHighFirst(init, r, ch);
      var inner := InsertByTime(init, r);
      forall i | 0 <= i < |inner| && inner[i].t == last.t ensures Score(inner[i], ch) >= Score(last, ch) {
        assert inner[i] in init;
      }
    }
  }

  /** The stable sort of rows by descending score keeps that order among rows of one time. */
  lemma {:induction false} SortKeepsHighFirst(rows: seq<Row>, ch: nat)
    requires Descending(rows, ch)
    ensures HighFirst(SortByTime(rows), ch) && forall x :: x in SortByTime(rows) <==> x in rows
  {
    if |rows| > 0 {
      var init, last := rows[..|rows| - 1], rows[|rows| - 1];
      assert rows == init + [last];
      SortKeepsHighFirst(init, ch);
      var sorted := SortByTime(init);
      forall i | 0 <= i < |sorted| ensures Score(sorted[i], ch) >= Score(last, ch) {
        assert sorted[i] in init;
        var j :| 0 <= j < |init| && init[j] == sorted[i];
        assert rows[j] == init[j] && rows[|init|] == last;
      }
      InsertKeepsHighFirst(sorted, last, ch);
    }
  }

  lemma TakesDescending(out: seq<Row>, rows: seq<Row>, ch: nat, tiers: seq<Tier>, k: nat, part: seq<Row>, idx: seq<nat>)
    requires Grouped(tiers, rows, ch) && 0 < k <= |tiers| && TakenFrom(out, rows, ch, tiers, k) && Descending(out, ch)
    requires Picks(part, tiers[k - 1].rows, idx) && (k == |tiers| ==> out == [])
    ensures Descending(out + part, ch)
  {
    TierAt(tiers, k - 1);
    forall i | 0 <= i < |part| ensures Score(part[i], ch) == tiers[k - 1].score {
      InTier(rows, ch, tiers[k - 1].score, part[i]);
    }
    forall i | 0 <= i < |out| ensures Score(out[i], ch) > tiers[k - 1].score {
      assert multiset(out)[out[i]] > 0;
    }
  }

  lemma InTier(rows: seq<Row>, ch: nat, s: int, r: Row)
    requires r in OfScore(rows, ch, s)
    ensures Score(r, ch) == s
  {
    OfScoreCounts(rows, ch, s, r);
    assert multiset(OfScore(rows, ch, s))[r] > 0;
  }

  // Where the budget falls: the score whose rows begin to exceed it.

  ghost predicate Boundary(rows: seq<Row>, ch: nat, s: int, maxRows: nat) {
    |Above(rows, ch, s)| <= maxRows < |Above(rows, ch, s)| + |OfScore(rows, ch, s)|
  }

  lemma {:induction false} AboveSplit(rows: seq<Row>, ch: nat, s: int, level: int)
    requires s < level
    ensures |Above(rows, ch, s)| >= |Above(rows, ch, level)| + |OfScore(rows, ch, level)|
  {
    if |rows| > 0 { AboveSplit(rows[..|rows| - 1], ch, s, level); }
  }

  /** There is only one such score. */
  lemma BoundaryUnique(rows: seq<Row>, ch: nat, s: int, t: int, maxRows: nat)
    requires Boundary(rows, ch, s, maxRows) && Boundary(rows, ch, t, maxRows)
    ensures s == t
  {
    if s < t { AboveSplit(rows, ch, s, t); } else if t < s { AboveSplit(rows, ch, t, s); }
  }

  lemma {:induction false} NextScore(rows: seq<Row>, ch: nat, s: int) returns (m: int)
    requires |Above(rows, ch, s)| > 0
    ensures s < m && |OfScore(rows, ch, m)| > 0
    ensures forall i :: 0 <= i < |rows| ==> Score(rows[i], ch) > s ==> Score(rows[i], ch) >= m
  {
    var init, last := rows[..|rows| - 1], rows[|rows| - 1];
    var own := Score(last, ch);
    if |Above(init, ch, s)| > 0 {
      m := NextScore(init, ch, s);
      if s < own < m { m := own; }
    } else {
      m := own;
      NoneAbove(init, ch, s);
    }
  }

  lemma {:induction false} NoneAbove(rows: seq<Row>, ch: nat, s: int)
    requires Above(rows, ch, s) == []
    ensures forall i :: 0 <= i < |rows| ==> Score(rows[i], ch) <= s
  {
    if |rows| > 0 { NoneAbove(rows[..|rows| - 1], ch, s); }
  }

  lemma {:induction false} NothingBetween(rows: seq<Row>, ch: nat, s: int, m: int)
    requires s < m && forall i :: 0 <= i < |rows| ==> Score(rows[i], ch) > s ==> Score(rows[i], ch) >= m
    ensures |Above(rows, ch, s)| == |Above(rows, ch, m)| + |OfScore(rows, ch, m)|
  {
    if |rows| > 0 { NothingBetween(rows[..|rows| - 1], ch, s, m); }
  }

  lemma {:induction false} BoundaryFrom(rows: seq<Row>, ch: nat, s: int, maxRows: nat) returns (t: int)
    requires |Above(rows, ch, s)| > maxRows
    ensures Boundary(rows, ch, t, maxRows)
    decreases |Above(rows, ch, s)|
  {
    t := NextScore(rows, ch, s);
    NothingBetween(rows, ch, s, t);
    if |Above(rows, ch, t)| > maxRows { t := BoundaryFrom(rows, ch, t, maxRows); }
  }

  /** More rows than the budget always have a boundary score. */
  lemma BoundaryExists(rows: seq<Row>, ch: nat, maxRows: nat) returns (s: int)
    requires |rows| > maxRows
    ensures Boundary(rows, ch, s, maxRows)
  {
    AllAbove(rows, ch);
    s := BoundaryFrom(rows, ch, I64_MIN - 1, maxRows);
  }

  lemma {:induction false} AllAbove(rows: seq<Row>, ch: nat)
    ensures |Above(rows, ch, I64_MIN - 1)| == |rows|
  {
    if |rows| > 0 { AllAbove(rows[..|rows| - 1], ch); }
  }

  /** When truncation returns exactly `maxRows` rows, told from the rows alone: it was given that many; or without a
      priority column even sampling fills the budget; or with one, the rows of the boundary score fill the room that
      the higher scores leave. */
  ghost predicate BudgetMet(rows: seq<Row>, priority: Column, maxRows: nat)
    requires Sorted(rows)
  {
    if |rows| <= maxRows then |rows| == maxRows
    else if priority.NoColumn? then Fills(rows, maxRows)
    else forall s :: Boundary(rows, priority.ch, s, maxRows) ==> BoundaryFills(rows, priority.ch, s, maxRows)
  }

  ghost predicate BoundaryFills(rows: seq<Row>, ch: nat, s: int, maxRows: nat)
    requires Sorted(rows) && Boundary(rows, ch, s, maxRows)
  {
    OfScoreSorted(rows, ch, s);
    Fills(OfScore(rows, ch, s), maxRows - |Above(rows, ch, s)|)
  }

  /** The level where filling stopped decides as the boundary does. */
  lemma LevelDecides(out: seq<Row>, rows: seq<Row>, ch: nat, level: int, s: int, maxRows: nat)
    requires Sorted(rows) && Sized(out, rows, ch, level, maxRows) && Boundary(rows, ch, s, maxRows)
    requires maxRows <= |Above(rows, ch, level)| + |OfScore(rows, ch, level)|
    ensures |out| == maxRows <==> BoundaryFills(rows, ch, s, maxRows)
  {
    OfScoreSorted(rows, ch, level);
    OfScoreSorted(rows, ch, s);
    if level < s {
      AboveSplit(rows, ch, level, s);
    } else if s < level {
      AboveSplit(rows, ch, s, level);
    } else {
      FillsIff(OfScore(rows, ch, s), maxRows - |Above(rows, ch, s)|);
    }
  }

  lemma BudgetDecided(out: seq<Row>, rows: seq<Row>, ch: nat, level: int, maxRows: nat)
    requires Sorted(rows) && |rows| > maxRows && Sized(out, rows, ch, level, maxRows)
    requires maxRows <= |Above(rows, ch, level)| + |OfScore(rows, ch, level)|
    ensures |out| == maxRows <==> BudgetMet(rows, Column(ch), maxRows)
  {
    var t := BoundaryExists(rows, ch, maxRows);
    forall s | Boundary(rows, ch, s, maxRows) ensures |out| == maxRows <==> BoundaryFills(rows, ch, s, maxRows) {
      LevelDecides(out, rows, ch, level, s, maxRows);
    }
  }

  /** Whole tiers taken from `k` on also meet the tier property. */
  lemma TakenIsTiered(out: seq<Row>, rows: seq<Row>, ch: nat, tiers: seq<Tier>, k: nat, maxRows: nat)
    returns (level: int, part: seq<Row>, idx: seq<nat>)
    requires Grouped(tiers, rows, ch) && 0 < k <= |tiers| && TakenFrom(out, rows, ch, tiers, k)
    requires Sorted(rows) && |out| == maxRows && (k == |tiers| ==> maxRows == 0)
    ensures Truncated(out, rows, ch, level, part, idx, maxRows)
    ensures Tiered(out, rows, ch, level) && Sized(out, rows, ch, level, maxRows)
    ensures maxRows <= |Above(rows, ch, level)| + |OfScore(rows, ch, level)|
  {
    if k == |tiers| {
      level := tiers[k - 1].score;
      forall r | Score(r, ch) > level ensures multiset(rows)[r] == 0 { NoneBetween(rows, ch, tiers, k, r); }
      assert Tiered(out, rows, ch, level);
      TakenIsAbove(out, rows, ch, tiers, k);
      part, idx := [], [];
    } else {
      level := tiers[k].score;
      TakenIsAtLeast(out, rows, ch, tiers, k);
      part := OfScore(rows, ch, level);
      idx := seq(|part|, i requires 0 <= i => i);
    }
  }

  /** The tier that overflows the budget is sampled into what room is left. */
  method TakePart(rows: seq<Row>, ch: nat, tiers: seq<Tier>, k: nat, taken: seq<Row>, maxRows: nat)
    returns (out: seq<Row>, ghost part: seq<Row>, ghost idx: seq<nat>)
    requires Sorted(rows) && Grouped(tiers, rows, ch) && 0 < k <= |tiers| && TakenFrom(taken, rows, ch, tiers, k)
    requires |taken| <= maxRows < |taken| + |tiers[k - 1].rows|
    ensures var level := tiers[k - 1].score; maxRows <= |Above(rows, ch, level)| + |OfScore(rows, ch, level)|
    ensures |out| <= maxRows && Tiered(out, rows, ch, tiers[k - 1].score)
    ensures Sized(out, rows, ch, tiers[k - 1].score, maxRows)
    ensures Truncated(out, rows, ch, tiers[k - 1].score, part, idx, maxRows)
    ensures out == taken + part && Picks(part, tiers[k - 1].rows, idx)
  {
    TierAt(tiers, k - 1);
    OfScoreSorted(rows, ch, tiers[k - 1].score);
    var sample;
    sample, idx := SampleEvenOverTime(tiers[k - 1].rows, maxRows - |taken|);
    TakesPart(taken, rows, ch, tiers, k, sample, idx);
    TakenIsAbove(taken, rows, ch, tiers, k);
    out, part := taken + sample, sample;
  }

  /** Fills the budget tier by tier, highest score first. */
  method FillTiers(rows: seq<Row>, ch: nat, tiers: seq<Tier>, maxRows: nat)
    returns (out: seq<Row>, ghost level: int, ghost part: seq<Row>, ghost idx: seq<nat>)
    requires Sorted(rows) && Grouped(tiers, rows, ch) && |rows| > maxRows
    ensures Truncated(out, rows, ch, level, part, idx, maxRows) && Descending(out, ch)
    ensures |out| <= maxRows && Tiered(out, rows, ch, level) && Sized(out, rows, ch, level, maxRows)
    ensures maxRows <= |Above(rows, ch, level)| + |OfScore(rows, ch, level)|
  {
    out, part, idx := [], [], [];
    var k := |tiers|;
    SomeTier(rows, ch, tiers);
    while k > 0
      invariant 0 <= k <= |tiers| && |out| <= maxRows && TakenFrom(out, rows, ch, tiers, k)
      invariant (k == |tiers| ==> out == []) && Descending(out, ch)
    {
      var remaining := maxRows - |out|;
      if remaining == 0 { break; }
      var tier := tiers[k - 1].rows;
      if |tier| <= remaining {
        TakesTier(out, rows, ch, tiers, k);
        TakesDescending(out, rows, ch, tiers, k, tier, seq(|tier|, i requires 0 <= i => i));
        out := out + tier;
      } else {
        ghost var taken := out;
        out, part, idx := TakePart(rows, ch, tiers, k, out, maxRows);
        TakesDescending(taken, rows, ch, tiers, k, part, idx);
        return out, tiers[k - 1].score, part, idx;
      }
      k := k - 1;
    }
    if k == 0 { AllTaken(out, rows, ch, tiers); }
    level, part, idx := TakenIsTiered(out, rows, ch, tiers, k, maxRows);
  }

  /** All tiers together are all rows. */
  lemma AllTaken(out: seq<Row>, rows: seq<Row>, ch: nat, tiers: seq<Tier>)
    requires Grouped(tiers, rows, ch) && TakenFrom(out, rows, ch, tiers, 0) && |tiers| > 0
    ensures |out| == |rows|
  {
    forall r ensures multiset(out)[r] == multiset(rows)[r] {
      var s := Score(r, ch);
      if s < tiers[0].score {
        NoSuchTier(tiers, s);
        OfScoreCounts(rows, ch, s, r);
        assert TierOf(tiers, s) == OfScore(rows, ch, s);
      }
    }
    SameSize(out, rows);
  }

  lemma SomeTier(rows: seq<Row>, ch: nat, tiers: seq<Tier>)
    requires Grouped(tiers, rows, ch) && |rows| > 0
    ensures |tiers| > 0
  {
    var s := Score(rows[|rows| - 1], ch);
    assert TierOf(tiers, s) == OfScore(rows, ch, s) != [];
  }

  /** `truncate_rows`: a time-sorted selection within the budget.  With a priority column, keeping any row of a
      score means keeping every row of every higher score. */
  method TruncateRows(rows: seq<Row>, priority: Column, maxRows: nat)
    returns (out: seq<Row>, total: nat, ghost level: int, ghost part: seq<Row>, ghost idx: seq<nat>)
    requires Sorted(rows)
    ensures total == |rows| && |out| <= maxRows && Sorted(out) && (|rows| <= maxRows ==> out == rows)
    ensures forall r {:trigger multiset(out)[r]} :: multiset(out)[r] <= multiset(rows)[r]
    ensures priority.Column? && |rows| > maxRows ==> Tiered(out, rows, priority.ch, level)
    ensures priority.Column? && |rows| > maxRows ==> PrioritiesKept(out, rows, priority.ch)
    ensures priority.Column? && |rows| > maxRows ==> Truncated(out, rows, priority.ch, level, part, idx, maxRows)
    ensures priority.Column? && |rows| > maxRows ==> HighFirst(out, priority.ch)
    ensures priority.NoColumn? && |rows| > maxRows ==>
      |out| == SampleSize(rows, maxRows) && EvenSample(out, rows, idx, maxRows)
    ensures |out| == maxRows <==> BudgetMet(rows, priority, maxRows)
  {
    total, level, part, idx := |rows|, 0, [], [];
    if total <= maxRows { return rows, total, level, part, idx; }
    if priority.NoColumn? {
      out, idx := SampleEvenOverTime(rows, maxRows);
      PicksKeepOrder(out, rows, idx);
      forall r ensures multiset(out)[r] <= multiset(rows)[r] { PicksAreRows(out, rows, idx, r); }
      FillsIff(rows, maxRows);
      return;
    }
    var tiers := GroupByScore(rows, priority.ch);
    var picked;
    picked, level, part, idx := FillTiers(rows, priority.ch, tiers, maxRows);
    BudgetDecided(picked, rows, priority.ch, level, maxRows);
    SortSorts(picked);
    SortKeepsHighFirst(picked, priority.ch);
    out := SortByTime(picked);
    TieredKeeps(out, rows, priority.ch, level);
  }

  lemma TieredKeeps(out: seq<Row>, rows: seq<Row>, ch: nat, level: int)
    requires Tiered(out, rows, ch, level)
    ensures PrioritiesKept(out, rows, ch)
  {
    forall k, r | k in out && r in rows && Outranks(r, k, ch) ensures multiset(out)[r] == multiset(rows)[r] {
      OutranksByScore(r, k, ch);
      HigherScoresKept(out, rows, ch, level, k, r);
    }
  }

  /** In the words of the tier rule: one kept row of a score keeps all rows of higher scores. */
  lemma HigherScoresKept(out: seq<Row>, rows: seq<Row>, ch: nat, level: int, kept: Row, r: Row)
    requires Tiered(out, rows, ch, level) && kept in out && Score(r, ch) > Score(kept, ch)
    ensures multiset(out)[r] == multiset(rows)[r]
  {
    assert multiset(out)[kept] > 0;
  }

  /** Two ways to miss the budget of three: four rows that leave a time bucket empty, and four rows at one instant,
      where a stride of two takes two.  Six rows at one instant meet it. */
  method BudgetMissed() returns (gap: seq<Row>, burst: seq<Row>, met: seq<Row>)
    ensures |gap| == 2 && |burst| == 2 && |met| == 3
  {
    var r := Row(0, map[]);
    var gapRows, burstRows, metRows := [r, r, r, Row(10, map[])], [r, r, r, r], [r, r, r, r, r, r];
    ghost var level, part, idx;
    var total;
    GapBuckets(gapRows);
    gap, total, level, part, idx := TruncateRows(gapRows, NoColumn, 3);
    CeilDivIs(4, 3, 2);
    CeilDivIs(4, 2, 2);
    burst, total, level, part, idx := TruncateRows(burstRows, NoColumn, 3);
    CeilDivIs(6, 3, 2);
    CeilDivIs(6, 2, 3);
    met, total, level, part, idx := TruncateRows(metRows, NoColumn, 3);
  }

  lemma GapBuckets(rows: seq<Row>)
    requires rows == [Row(0, map[]), Row(0, map[]), Row(0, map[]), Row(10, map[])]
    ensures Sorted(rows) && |Occupied(Buckets(rows, 3))| == 2
  {
    assert 30 / 11 == 2;
    assert Buckets(rows, 3) == [0, 0, 0, 2];
    assert Occupied([0, 0, 0, 2]) == {0, 2};
  }
}
