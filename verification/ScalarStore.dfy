/** Down-sampled queries over the viewer's scalar samples, with values and time ratios as reals. */
module ScalarStore {
  import opened Bits
  import opened Partition

  datatype Sample = Sample(t: nat, v: real)
  datatype Bucket = Bucket(t: nat, min: real, max: real)

  predicate Sorted(s: seq<Sample>) { forall i, j :: 0 <= i < j < |s| ==> s[i].t <= s[j].t }

  /** `partition_point` on `t < bound`. */
  function CountBefore(s: seq<Sample>, bound: nat): (k: nat)
    ensures k <= |s| && (forall i :: 0 <= i < k ==> s[i].t < bound) && (k < |s| ==> s[k].t >= bound)
  {
    PartitionPoint(s, (x: Sample) => x.t < bound)
  }

  lemma CountBeforeOrdered(s: seq<Sample>, t0: nat, t1: nat)
    requires t0 <= t1
    ensures CountBefore(s, t0) <= CountBefore(s, t1)
  {
  }

  /** The samples with `t0 <= t < t1`. */
  function Window(s: seq<Sample>, t0: nat, t1: nat): seq<Sample>
    requires t0 <= t1
  {
    CountBeforeOrdered(s, t0, t1);
    s[CountBefore(s, t0)..CountBefore(s, t1)]
  }

  /** The window is exactly the samples in the range, in order. */
  lemma WindowIsExact(s: seq<Sample>, t0: nat, t1: nat) returns (lo: nat)
    requires Sorted(s) && t0 <= t1
    ensures lo + |Window(s, t0, t1)| <= |s| && Window(s, t0, t1) == s[lo..lo + |Window(s, t0, t1)|]
    ensures forall i :: 0 <= i < |s| ==> (lo <= i < lo + |Window(s, t0, t1)| <==> t0 <= s[i].t < t1)
  {
    lo := CountBefore(s, t0);
  }

  // ------------------------------------------------------------------------------------ bucket numbers

  /** `floor((t - t0) / bucket_width)` over the reals. */
  function BucketIndex(t: nat, t0: nat, t1: nat, n: nat): int
    requires t0 < t1 && n > 0
  {
    var bw := ((t1 - t0) as real) / (n as real);
    PositiveWidth((t1 - t0) as real, n as real);
    (((t - t0) as real) / bw).Floor
  }

  lemma PositiveWidth(span: real, n: real)
    requires span > 0.0 && n > 0.0
    ensures span / n > 0.0
  {
  }

  lemma RatioOfWidth(a: real, span: real, n: real)
    requires span > 0.0 && n > 0.0
    ensures span / n > 0.0 && a / (span / n) * span == a * n
  {
    var bw := span / n;
    PositiveWidth(span, n);
    var x := a / bw;
    assert x * bw == a;
    assert bw * n == span;
    calc { x * span; x * (bw * n); (x * bw) * n; a * n; }
  }

  lemma MulLess(x: real, y: real, s: real)
    requires s > 0.0 && x * s < y * s
    ensures x < y
  {
    assert (y - x) * s == y * s - x * s;
  }

  lemma MulAtMost(x: real, y: real, s: real)
    requires s > 0.0 && x * s <= y * s
    ensures x <= y
  {
    if x * s < y * s { MulLess(x, y, s); }
  }

  /** Numbers of samples in the window lie in `[0, n)`. */
  lemma IndexInRange(t: nat, t0: nat, t1: nat, n: nat)
    requires t0 <= t < t1 && n > 0
    ensures 0 <= BucketIndex(t, t0, t1, n) < n
  {
    var a, span, m := (t - t0) as real, (t1 - t0) as real, n as real;
    RatioOfWidth(a, span, m);
    var x := a / (span / m);
    assert a * m < span * m;
    assert x * span < m * span;
    MulLess(x, m, span);
  }

  /** Later samples never get smaller numbers. */
  lemma IndexMonotone(t: nat, u: nat, t0: nat, t1: nat, n: nat)
    requires t0 <= t <= u && t0 < t1 && n > 0
    ensures BucketIndex(t, t0, t1, n) <= BucketIndex(u, t0, t1, n)
  {
    var span, m := (t1 - t0) as real, n as real;
    var bw := span / m;
    PositiveWidth(span, m);
    var x, y := (t - t0) as real / bw, (u - t0) as real / bw;
    assert x * bw == (t - t0) as real && y * bw == (u - t0) as real;
    MulAtMost(x, y, bw);
  }

  lemma RealBounds(x: real, span: nat, an: nat)
    requires span > 0 && x * (span as real) == an as real && x >= 0.0
    ensures x.Floor >= 0 && x.Floor * span <= an < (x.Floor + 1) * span
  {
    var q := x.Floor;
    ScaleCompares(x, q, span, an);
    ScaleCompares(x, q + 1, span, an);
  }

  /** Comparing with a whole number is comparing the multiples. */
  lemma ScaleCompares(x: real, k: int, span: nat, an: nat)
    requires span > 0 && x * (span as real) == an as real
    ensures x < k as real <==> an < k * span
  {
    var s, y, m := span as real, k as real, k * span;
    assert m as real == y * s;
    assert (y - x) * s == m as real - an as real;
    if x < y { PositiveProduct(y - x, s); } else { PositiveProduct(x - y, s); assert (x - y) * s == -((y - x) * s); }
  }

  lemma PositiveProduct(a: real, b: real)
    requires a >= 0.0 && b > 0.0
    ensures a * b >= 0.0 && (a > 0.0 ==> a * b > 0.0)
  {
  }

  /** The number is the whole part of the position times `n` over the span, in integers. */
  lemma IndexIsQuotient(t: nat, t0: nat, t1: nat, n: nat)
    requires t0 <= t && t0 < t1 && n > 0
    ensures BucketIndex(t, t0, t1, n) == (t - t0) * n / (t1 - t0)
  {
    var a, span, m := (t - t0) as real, (t1 - t0) as real, n as real;
    RatioOfWidth(a, span, m);
    var x := a / (span / m);
    PositiveRatio(a, span / m);
    assert a * m == ((t - t0) * n) as real;
    RealBounds(x, t1 - t0, (t - t0) * n);
    var q := x.Floor;
    RemainderUnique(t1 - t0, (t - t0) * n, q, (t - t0) * n - q * (t1 - t0));
  }

  lemma PositiveRatio(a: real, b: real)
    requires a >= 0.0 && b > 0.0
    ensures a / b >= 0.0
  {
  }

  // ------------------------------------------------------------------------------------------- groups

  function Lowest(s: seq<Sample>, a: nat, b: nat): real
    requires a < b <= |s|
    decreases b - a
  {
    if b == a + 1 then s[a].v else RealMin(Lowest(s, a, b - 1), s[b - 1].v)
  }

  function Highest(s: seq<Sample>, a: nat, b: nat): real
    requires a < b <= |s|
    decreases b - a
  {
    if b == a + 1 then s[a].v else RealMax(Highest(s, a, b - 1), s[b - 1].v)
  }

  function RealMin(x: real, y: real): real { if y < x then y else x }

  function RealMax(x: real, y: real): real { if y > x then y else x }

  /** Extremes enclose every value of a stretch and are attained in it. */
  lemma {:induction false} ExtremesAreExact(s: seq<Sample>, a: nat, b: nat)
    requires a < b <= |s|
    ensures forall i :: a <= i < b ==> Lowest(s, a, b) <= s[i].v <= Highest(s, a, b)
    ensures exists i :: a <= i < b && s[i].v == Lowest(s, a, b)
    ensures exists i :: a <= i < b && s[i].v == Highest(s, a, b)
    decreases b - a
  {
    if b > a + 1 {
      ExtremesAreExact(s, a, b - 1);
      assert Lowest(s, a, b) == Lowest(s, a, b - 1) || Lowest(s, a, b) == s[b - 1].v;
      assert Highest(s, a, b) == Highest(s, a, b - 1) || Highest(s, a, b) == s[b - 1].v;
    } else {
      assert s[a].v == Lowest(s, a, b) == Highest(s, a, b);
    }
  }

  /** `cuts` splits `n` samples into consecutive non-empty groups. */
  ghost predicate Splits(cuts: seq<nat>, n: nat) {
    && |cuts| > 0 && cuts[0] == 0 && cuts[|cuts| - 1] == n
    && forall i, j :: 0 <= i < j < |cuts| ==> cuts[i] < cuts[j]
  }

  /** Bucket `b` is the first time and exact extremes of samples `[a, e)`. */
  ghost predicate Summarises(b: Bucket, s: seq<Sample>, a: nat, e: nat) {
    a < e <= |s| && b == Bucket(s[a].t, Lowest(s, a, e), Highest(s, a, e))
  }

  /** Each bucket summarises its group. */
  ghost predicate Summary(out: seq<Bucket>, cuts: seq<nat>, s: seq<Sample>) {
    |cuts| == |out| + 1 && forall k :: 0 <= k < |out| ==> Summarises(out[k], s, cuts[k], cuts[k + 1])
  }

  // ---------------------------------------------------------------------------------------- the queries

  function Numbers(s: seq<Sample>, t0: nat, t1: nat, n: nat): (nums: seq<int>)
    requires t0 < t1 && n > 0
    ensures |nums| == |s| && forall i :: 0 <= i < |s| ==> nums[i] == BucketIndex(s[i].t, t0, t1, n)
  {
    seq(|s|, i requires 0 <= i < |s| => BucketIndex(s[i].t, t0, t1, n))
  }

  /** A maximal stretch of equal numbers. */
  ghost predicate OneNumber(nums: seq<int>, a: nat, e: nat) {
    && a < e <= |nums| && (forall i :: a <= i < e ==> nums[i] == nums[a])
    && (a > 0 ==> nums[a - 1] < nums[a])
  }

  /** The groups are exactly the occupied time buckets, in order. */
  ghost predicate Grouped(cuts: seq<nat>, nums: seq<int>) {
    forall k :: 0 <= k < |cuts| - 1 ==> OneNumber(nums, cuts[k], cuts[k + 1])
  }

  function Singles(s: seq<Sample>): (out: seq<Bucket>)
    ensures |out| == |s| && forall i :: 0 <= i < |s| ==> out[i] == Bucket(s[i].t, s[i].v, s[i].v)
  {
    seq(|s|, i requires 0 <= i < |s| => Bucket(s[i].t, s[i].v, s[i].v))
  }

  function Naturals(n: nat): (cuts: seq<nat>)
    ensures |cuts| == n + 1 && forall i :: 0 <= i <= n ==> cuts[i] == i
  {
    seq(n + 1, i requires 0 <= i => i)
  }

  lemma SinglesSummarise(s: seq<Sample>)
    ensures Splits(Naturals(|s|), |s|) && Summary(Singles(s), Naturals(|s|), s)
  {
    var out, cuts := Singles(s), Naturals(|s|);
    forall k | 0 <= k < |out| ensures Summarises(out[k], s, cuts[k], cuts[k + 1]) {
      assert cuts[k] == k && cuts[k + 1] == k + 1;
    }
  }

  /** The state of the bucketing loop: `out` covers the groups up to `cuts`' last, `cur` the group since. */
  ghost predicate Bucketed(s: seq<Sample>, nums: seq<int>, i: nat, out: seq<Bucket>, cuts: seq<nat>, cur: Bucket) {
    && i <= |s| && |cuts| == |out| + 1 && Splits(cuts, cuts[|out|])
    && Summary(out, cuts, s) && Summarises(cur, s, cuts[|out|], i)
    && Grouped(cuts, nums) && OneNumber(nums, cuts[|out|], i)
  }

  lemma BucketCloses(s: seq<Sample>, nums: seq<int>, i: nat, out: seq<Bucket>, cuts: seq<nat>, cur: Bucket)
    requires Bucketed(s, nums, i, out, cuts, cur)
    ensures Splits(cuts + [i], i) && Summary(out + [cur], cuts + [i], s) && Grouped(cuts + [i], nums)
  {
    var more, all := cuts + [i], out + [cur];
    forall k | 0 <= k < |all| ensures Summarises(all[k], s, more[k], more[k + 1]) {
      if k < |out| { assert Summarises(out[k], s, cuts[k], cuts[k + 1]); }
    }
    forall k | 0 <= k < |more| - 1 ensures OneNumber(nums, more[k], more[k + 1]) {
      if k < |out| { assert OneNumber(nums, cuts[k], cuts[k + 1]); }
    }
  }

  /** One sample joins the current group or opens the next. */
  lemma SampleJoins(s: seq<Sample>, nums: seq<int>, i: nat, out: seq<Bucket>, cuts: seq<nat>, cur: Bucket)
    requires Bucketed(s, nums, i, out, cuts, cur) && i < |s| == |nums| && nums[i] == nums[i - 1]
    ensures Bucketed(s, nums, i + 1, out, cuts, Bucket(cur.t, RealMin(cur.min, s[i].v), RealMax(cur.max, s[i].v)))
  {
  }

  lemma SampleOpens(s: seq<Sample>, nums: seq<int>, i: nat, out: seq<Bucket>, cuts: seq<nat>, cur: Bucket)
    requires Bucketed(s, nums, i, out, cuts, cur) && i < |s| == |nums| && nums[i - 1] < nums[i]
    ensures Bucketed(s, nums, i + 1, out + [cur], cuts + [i], Bucket(s[i].t, s[i].v, s[i].v))
  {
    BucketCloses(s, nums, i, out, cuts, cur);
  }

  lemma FirstSample(s: seq<Sample>, nums: seq<int>)
    requires 0 < |s| == |nums|
    ensures Bucketed(s, nums, 1, [], [0], Bucket(s[0].t, s[0].v, s[0].v))
  {
  }

  /** The bucketing loop.  `cuts` are the group boundaries. */
  method Downsample(s: seq<Sample>, t0: nat, t1: nat, n: nat) returns (out: seq<Bucket>, ghost cuts: seq<nat>)
    requires Sorted(s) && |s| > 0 && t0 < t1 && n > 0 && forall i :: 0 <= i < |s| ==> t0 <= s[i].t < t1
    ensures Splits(cuts, |s|) && Summary(out, cuts, s) && Grouped(cuts, Numbers(s, t0, t1, n)) && |out| <= n
  {
    ghost var nums := Numbers(s, t0, t1, n);
    out, cuts := [], [0];
    var cur := Bucket(0, 0.0, 0.0);
    var curIdx := -1;
    var i := 0;
    while i < |s|
      invariant 0 <= i <= |s|
      invariant if i == 0 then curIdx == -1 && out == [] && cuts == [0] else Bucketed(s, nums, i, out, cuts, cur)
      invariant i > 0 ==> |out| <= curIdx == nums[i - 1] < n
    {
      var idx := BucketIndex(s[i].t, t0, t1, n);
      IndexInRange(s[i].t, t0, t1, n);
      if i == 0 { FirstSample(s, nums); } else { IndexMonotone(s[i - 1].t, s[i].t, t0, t1, n); }
      if idx != curIdx {
        if curIdx >= 0 {
          SampleOpens(s, nums, i, out, cuts, cur);
          out := out + [cur];
          cuts := cuts + [i];
        }
        curIdx := idx;
        cur := Bucket(s[i].t, s[i].v, s[i].v);
      } else {
        SampleJoins(s, nums, i, out, cuts, cur);
        cur := Bucket(cur.t, RealMin(cur.min, s[i].v), RealMax(cur.max, s[i].v));
      }
      i := i + 1;
    }
    BucketCloses(s, nums, i, out, cuts, cur);
    out := out + [cur];
    cuts := cuts + [i];
  }

  /** `query_scalar`: the samples in `[t0, t1)` split into at most `maxBuckets` consecutive non-empty groups,
      one bucket each. */
  method QueryScalar(scalars: seq<seq<Sample>>, ch: nat, t0: nat, t1: nat, maxBuckets: nat)
    returns (out: seq<Bucket>, ghost cuts: seq<nat>)
    requires ch < |scalars| ==> Sorted(scalars[ch])
    ensures |out| <= maxBuckets
    ensures maxBuckets == 0 || t1 <= t0 || ch >= |scalars| ==> out == []
    ensures maxBuckets > 0 && t0 < t1 && ch < |scalars| ==>
      var s := Window(scalars[ch], t0, t1);
      && Splits(cuts, |s|) && Summary(out, cuts, s)
      && (if |s| <= maxBuckets then cuts == Naturals(|s|) else Grouped(cuts, Numbers(s, t0, t1, maxBuckets)))
  {
    out, cuts := [], [0];
    if maxBuckets == 0 || t1 <= t0 { return; }
    if ch >= |scalars| { return; }
    var s := Window(scalars[ch], t0, t1);
    if |s| == 0 { return; }
    if |s| <= maxBuckets {
      SinglesSummarise(s);
      return Singles(s), Naturals(|s|);
    }
    WindowBounds(scalars[ch], t0, t1);
    out, cuts := Downsample(s, t0, t1, maxBuckets);
  }

  lemma WindowBounds(s: seq<Sample>, t0: nat, t1: nat)
    requires Sorted(s) && t0 <= t1
    ensures var w := Window(s, t0, t1); Sorted(w) && forall i :: 0 <= i < |w| ==> t0 <= w[i].t < t1
  {
    var lo := WindowIsExact(s, t0, t1);
    var w := Window(s, t0, t1);
    forall i | 0 <= i < |w| ensures w[i] == s[lo + i] { }
  }

  /** Two samples of the window share a group if and only if they lie in the same of `n` equal parts of the time. */
  lemma ShareBucketIff(cuts: seq<nat>, s: seq<Sample>, t0: nat, t1: nat, n: nat, i: nat, j: nat)
    requires Sorted(s) && t0 < t1 && n > 0 && (forall k :: 0 <= k < |s| ==> t0 <= s[k].t) && i <= j < |s|
    requires Splits(cuts, |s|) && Grouped(cuts, Numbers(s, t0, t1, n))
    ensures (exists k :: 0 <= k < |cuts| - 1 && cuts[k] <= i && j < cuts[k + 1]) <==>
            (s[i].t - t0) * n / (t1 - t0) == (s[j].t - t0) * n / (t1 - t0)
  {
    var nums := Numbers(s, t0, t1, n);
    IndexIsQuotient(s[i].t, t0, t1, n);
    IndexIsQuotient(s[j].t, t0, t1, n);
    forall a, b | 0 <= a <= b < |s| ensures nums[a] <= nums[b] { IndexMonotone(s[a].t, s[b].t, t0, t1, n); }
    SameNumberIff(cuts, nums, i, j);
  }

  lemma SameNumberIff(cuts: seq<nat>, nums: seq<int>, i: nat, j: nat)
    requires Splits(cuts, |nums|) && Grouped(cuts, nums) && i <= j < |nums|
    requires forall a, b :: 0 <= a <= b < |nums| ==> nums[a] <= nums[b]
    ensures (exists k :: 0 <= k < |cuts| - 1 && cuts[k] <= i && j < cuts[k + 1]) <==> nums[i] == nums[j]
  {
    var k := GroupOf(cuts, |cuts| - 1, i);
    var l := GroupOf(cuts, |cuts| - 1, j);
    assert OneNumber(nums, cuts[k], cuts[k + 1]) && OneNumber(nums, cuts[l], cuts[l + 1]);
    if exists g :: 0 <= g < |cuts| - 1 && cuts[g] <= i && j < cuts[g + 1] {
      var g :| 0 <= g < |cuts| - 1 && cuts[g] <= i && j < cuts[g + 1];
      assert OneNumber(nums, cuts[g], cuts[g + 1]);
    }
    if k < l {
      assert i < cuts[k + 1] <= cuts[l] <= j;
    }
  }

  /** The envelope survives: every sample lies between its bucket's extremes, and each extreme is a sample. */
  lemma EnvelopeKept(out: seq<Bucket>, cuts: seq<nat>, s: seq<Sample>, i: nat)
    requires Splits(cuts, |s|) && Summary(out, cuts, s) && i < |s|
    ensures exists k ::
      && 0 <= k < |out| && cuts[k] <= i < cuts[k + 1]
      && out[k].min <= s[i].v <= out[k].max && out[k].t == s[cuts[k]].t
  {
    var k := GroupOf(cuts, |out|, i);
    assert Summarises(out[k], s, cuts[k], cuts[k + 1]);
    ExtremesAreExact(s, cuts[k], cuts[k + 1]);
  }

  lemma {:induction false} GroupOf(cuts: seq<nat>, n: nat, i: nat) returns (k: nat)
    requires n < |cuts| && cuts[0] <= i < cuts[n]
    ensures k < n && cuts[k] <= i < cuts[k + 1]
  {
    if cuts[n - 1] <= i { k := n - 1; } else { k := GroupOf(cuts, n - 1, i); }
  }

  lemma ExtremesAttained(out: seq<Bucket>, cuts: seq<nat>, s: seq<Sample>, k: nat)
    requires Splits(cuts, |s|) && Summary(out, cuts, s) && k < |out|
    ensures exists i :: cuts[k] <= i < cuts[k + 1] && s[i].v == out[k].min
    ensures exists i :: cuts[k] <= i < cuts[k + 1] && s[i].v == out[k].max
  {
    assert Summarises(out[k], s, cuts[k], cuts[k + 1]);
    ExtremesAreExact(s, cuts[k], cuts[k + 1]);
  }

  // ------------------------------------------------------------------------------------------ striding

  /** Taking every `stride`-th of `n` items, with `stride` the rounded-up quotient, gives at most `max`. */
  lemma StrideFits(n: nat, max: nat)
    requires max > 0 && n > 0
    ensures CeilDiv(n, max) > 0 && CeilDiv(n, CeilDiv(n, max)) <= max
  {
    var stride := CeilDiv(n, max);
    CeilDivCovers(n, max);
    assert stride > 0;
    var k := CeilDiv(n, stride);
    CeilDivCovers(n, stride);
    if k > max {
      MulMonotone(max, k - 1, stride);
    }
  }

  /** `query_raw`: all samples of the window, or every `stride`-th of them, with the smallest stride that does not give
      more than asked for. */
  method QueryRaw(scalars: seq<seq<Sample>>, ch: nat, t0: nat, t1: nat, maxSamples: nat)
    returns (out: seq<Sample>, ghost stride: nat)
    ensures |out| <= maxSamples && stride > 0
    ensures maxSamples == 0 || t1 <= t0 || ch >= |scalars| ==> out == []
    ensures maxSamples > 0 && t0 < t1 && ch < |scalars| ==>
      var s := Window(scalars[ch], t0, t1);
      && (|s| <= maxSamples ==> stride == 1)
      && (|s| > maxSamples ==> (stride - 1) * maxSamples < |s| <= stride * maxSamples)
      && |out| == CeilDiv(|s|, stride)
      && forall i :: 0 <= i < |out| ==> i * stride < |s| && out[i] == s[i * stride]
  {
    out, stride := [], 1;
    if maxSamples == 0 || t1 <= t0 { return; }
    if ch >= |scalars| { return; }
    var s := Window(scalars[ch], t0, t1);
    if |s| <= maxSamples { return s, 1; }
    StrideFits(|s|, maxSamples);
    CeilDivCovers(|s|, maxSamples);
    var step := CeilDiv(|s|, maxSamples);
    out := StepBy(s, step);
    stride := step;
  }

  method StepBy(s: seq<Sample>, step: nat) returns (out: seq<Sample>)
    requires step > 0
    ensures |out| == CeilDiv(|s|, step) && forall i :: 0 <= i < |out| ==> i * step < |s| && out[i] == s[i * step]
  {
    out := [];
    var pos := 0;
    while pos < |s|
      invariant pos == |out| * step && (|out| > 0 ==> (|out| - 1) * step < |s|)
      invariant forall i :: 0 <= i < |out| ==> i * step < |s| && out[i] == s[i * step]
      decreases |s| - pos
    {
      out := out + [s[pos]];
      pos := pos + step;
    }
    CeilDivIs(|s|, step, |out|);
  }
}
