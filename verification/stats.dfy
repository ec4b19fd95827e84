/** Latency statistics: a five-bucket histogram, running totals and
    extremes, and a bounded store of samples that is overwritten round
    robin once full. A snapshot summarises them; its percentiles are read
    from the sorted store. */
module LatencyStats {
  import opened Common
  import opened Sorting

  // ---------------------------------------------------------------------
  // Histogram buckets
  // ---------------------------------------------------------------------

  /** The lower bounds, in nanoseconds, of buckets 1 to 4. */
  const BOUNDS: seq<u64> := [500 as u64, 1000 as u64, 2000 as u64, 5000 as u64]

  const BUCKETS: nat := 5

  /** How many of `bounds` are at most `x`. */
  function CountAtMost(bounds: seq<u64>, x: u64): nat
  {
    if |bounds| == 0 then 0
    else (if bounds[0] <= x then 1 else 0) + CountAtMost(bounds[1..], x)
  }

  /** The scan the source runs: step past each bound the latency reaches,
      stopping at the first it does not. */
  function Scan(x: u64, idx: nat): (r: nat)
    requires idx <= |BOUNDS|
    ensures idx <= r <= |BOUNDS|
    decreases |BOUNDS| - idx
  {
    if idx < |BOUNDS| && x >= BOUNDS[idx] then Scan(x, idx + 1) else idx
  }

  /** The bucket a latency falls in: one past the last bound it reaches,
      which is the number of bounds it reaches because they ascend. */
  function BucketFor(x: u64): (b: nat)
    ensures b < BUCKETS
    ensures b == CountAtMost(BOUNDS, x)
  {
    CountBounds(x);
    Scan(x, 0)
  }

  /** The buckets cover [0, 500), [500, 1000), [1000, 2000), [2000, 5000)
      and from 5000 up. */
  lemma BucketRanges(x: u64)
    ensures BucketFor(x) == 0 <==> x < 500
    ensures BucketFor(x) == 1 <==> 500 <= x < 1000
    ensures BucketFor(x) == 2 <==> 1000 <= x < 2000
    ensures BucketFor(x) == 3 <==> 2000 <= x < 5000
    ensures BucketFor(x) == 4 <==> 5000 <= x
  {
    CountBounds(x);
  }

  /** The count of bounds reached, bound by bound. */
  lemma CountBounds(x: u64)
    ensures CountAtMost(BOUNDS, x) ==
      (if 500 <= x then 1 else 0) + (if 1000 <= x then 1 else 0) +
      (if 2000 <= x then 1 else 0) + (if 5000 <= x then 1 else 0)
  {
    var b0 := BOUNDS;
    var b1, b2, b3: seq<u64> := [1000, 2000, 5000], [2000, 5000], [5000];
    assert b0[1..] == b1 && b1[1..] == b2 && b2[1..] == b3 && b3[1..] == [];
    assert CountAtMost(b3, x) == if 5000 <= x then 1 else 0;
    assert CountAtMost(b2, x) == (if 2000 <= x then 1 else 0) + CountAtMost(b3, x);
    assert CountAtMost(b1, x) == (if 1000 <= x then 1 else 0) + CountAtMost(b2, x);
  }

  /** A longer latency never lands in a lower bucket. */
  lemma BucketMonotone(x: u64, y: u64)
    requires x <= y
    ensures BucketFor(x) <= BucketFor(y)
  {
    CountBounds(x);
    CountBounds(y);
  }

  // ---------------------------------------------------------------------
  // The recorder
  // ---------------------------------------------------------------------

  datatype Stats = Stats(
    maxSamples: nat,
    samples: seq<u64>,
    nextIndex: nat,
    totalLatency: u64,
    totalSamples: u64,
    minNs: u64,
    maxNs: u64,
    buckets: seq<u64>)

  /** A recorder keeping at most `maxSamples` samples, with nothing
      recorded: the minimum starts at the largest 64-bit value so that the
      first sample replaces it. */
  function Init(maxSamples: nat): (st: Stats)
    ensures st.samples == [] && st.totalSamples == 0
    ensures |st.buckets| == BUCKETS && forall b :: 0 <= b < BUCKETS ==> st.buckets[b] == 0
    ensures st.maxSamples == maxSamples && st.nextIndex == 0
    ensures st.totalLatency == 0 && st.minNs == U64_MAX && st.maxNs == 0
    ensures maxSamples > 0 ==> Valid(st)
  {
    Stats(maxSamples, [], 0, 0, 0, U64_MAX, 0, [0, 0, 0, 0, 0])
  }

  /** The bound a recorder is built with when the caller gives none. */
  const DEFAULT_MAX_SAMPLES: nat := 1_000_000

  /** A recorder built without an explicit bound: empty, valid, and
      keeping at most a million samples. */
  function InitDefault(): (st: Stats)
    ensures Valid(st) && st.maxSamples == DEFAULT_MAX_SAMPLES
    ensures st.samples == [] && st.totalSamples == 0
  {
    Init(DEFAULT_MAX_SAMPLES)
  }

  /** What every recorder reachable from `Init` satisfies: the store never
      outgrows its bound, fills in order before wrapping round, and is
      empty only when nothing has been counted. */
  predicate Valid(st: Stats)
  {
    && st.maxSamples > 0
    && |st.buckets| == BUCKETS
    && |st.samples| <= st.maxSamples
    && st.nextIndex < st.maxSamples
    && (|st.samples| < st.maxSamples ==> st.nextIndex == |st.samples|)
    && (|st.samples| == 0 ==> st.totalSamples == 0)
  }

  function Min(a: u64, b: u64): u64 { if a <= b then a else b }

  function Max(a: u64, b: u64): u64 { if a >= b then a else b }

  /** Records one latency: totals in 64-bit arithmetic, the extremes, the
      store (appended while not full, else the slot at `nextIndex`), the
      round-robin index and the latency's bucket. */
  function Record(st: Stats, x: u64): (r: Stats)
    requires Valid(st)
    ensures Valid(r) && r.maxSamples == st.maxSamples
    ensures r.totalSamples == Wrap64(st.totalSamples as int + 1)
    ensures r.totalLatency == Wrap64(st.totalLatency as int + x as int)
    ensures r.minNs <= x <= r.maxNs && r.minNs <= st.minNs && st.maxNs <= r.maxNs
    ensures r.minNs == x || r.minNs == st.minNs
    ensures r.maxNs == x || r.maxNs == st.maxNs
  {
    var samples := if |st.samples| < st.maxSamples then st.samples + [x] else st.samples[st.nextIndex := x];
    var b := BucketFor(x);
    var buckets := st.buckets[b := Wrap64(st.buckets[b] as int + 1)];
    var total := Wrap64(st.totalSamples as int + 1);
    Stats(
      st.maxSamples,
      samples,
      RoundRobin(st.nextIndex, st.maxSamples),
      Wrap64(st.totalLatency as int + x as int),
      total,
      Min(st.minNs, x),
      Max(st.maxNs, x),
      buckets)
  }

  /** Recording a latency adds one to its bucket, in 64-bit arithmetic,
      and leaves the other buckets alone. */
  lemma RecordCountsBucket(st: Stats, x: u64)
    requires Valid(st)
    ensures forall b :: 0 <= b < BUCKETS ==>
      Record(st, x).buckets[b] == if b == BucketFor(x) then Wrap64(st.buckets[b] as int + 1) else st.buckets[b]
  {
  }

  /** Each record adds one to one bucket and one to the sample counter,
      so the buckets keep summing to the counter, modulo 2^64. */
  lemma RecordKeepsHistogramTotal(st: Stats, x: u64)
    requires Valid(st) && Sum(st.buckets) % TWO_64 == st.totalSamples as int
    ensures Sum(Record(st, x).buckets) % TWO_64 == Record(st, x).totalSamples as int
  {
    var b := BucketFor(x);
    var v := st.buckets[b];
    SumUpdate(st.buckets, b, Wrap64(v as int + 1));
    assert Record(st, x).buckets == st.buckets[b := Wrap64(v as int + 1)];
    ModSucc(Sum(st.buckets), st.totalSamples as int);
    if v as int + 1 < TWO_64 {
      assert Sum(Record(st, x).buckets) == Sum(st.buckets) + 1;
    } else {
      assert Sum(Record(st, x).buckets) == Sum(st.buckets) + 1 - TWO_64;
    }
  }

  /** A counter congruent to `t` stays congruent to `t + 1` after one more,
      however the stored copy wraps. */
  lemma ModSucc(a: int, t: int)
    requires a % TWO_64 == t
    ensures (a + 1) % TWO_64 == (t + 1) % TWO_64
    ensures (a + 1 - TWO_64) % TWO_64 == (t + 1) % TWO_64
  {
  }

  /** The histogram counts every sample recorded, modulo 2^64. */
  lemma {:induction false} HistogramTotalOfHistory(m: nat, xs: seq<u64>)
    requires m > 0
    ensures Sum(RecordAll(Init(m), xs).buckets) % TWO_64 == RecordAll(Init(m), xs).totalSamples as int
    decreases |xs|
  {
    if |xs| == 0 {
      SumZeros(Init(m).buckets);
    } else {
      HistogramTotalOfHistory(m, xs[..|xs| - 1]);
      RecordKeepsHistogramTotal(RecordAll(Init(m), xs[..|xs| - 1]), xs[|xs| - 1]);
    }
  }

  /** The round-robin index advances by one and wraps at the bound. */
  function RoundRobin(i: nat, m: nat): (j: nat)
    requires i < m
    ensures j == if i + 1 == m then 0 else i + 1
  {
    if i + 1 == m then
      assert (i + 1) % m == (m * 1 + 0) % m;
      (i + 1) % m
    else
      (i + 1) % m
  }

  /** Every field back to its initial value; the bound stays. */
  function Reset(st: Stats): (r: Stats)
    ensures r.maxSamples == st.maxSamples
    ensures r.samples == [] && r.totalSamples == 0 && r.totalLatency == 0
    ensures r.minNs == U64_MAX && r.maxNs == 0
    ensures forall b :: 0 <= b < |r.buckets| ==> r.buckets[b] == 0
    ensures st.maxSamples > 0 ==> Valid(r)
  {
    Init(st.maxSamples)
  }

  function MaxSamples(st: Stats): nat
  {
    st.maxSamples
  }

  // ---------------------------------------------------------------------
  // A history of samples
  // ---------------------------------------------------------------------

  /** The recorder after each latency of `xs` in turn. */
  function RecordAll(st: Stats, xs: seq<u64>): (r: Stats)
    requires Valid(st)
    ensures Valid(r) && r.maxSamples == st.maxSamples
    decreases |xs|
  {
    if |xs| == 0 then st else Record(RecordAll(st, xs[..|xs| - 1]), xs[|xs| - 1])
  }

  function SeqMin(xs: seq<u64>): u64
    requires |xs| > 0
  {
    if |xs| == 1 then xs[0] else Min(SeqMin(xs[..|xs| - 1]), xs[|xs| - 1])
  }

  function SeqMax(xs: seq<u64>): u64
    requires |xs| > 0
  {
    if |xs| == 1 then xs[0] else Max(SeqMax(xs[..|xs| - 1]), xs[|xs| - 1])
  }

  /** How many latencies of `xs` fall in bucket `b`. */
  function CountIn(xs: seq<u64>, b: nat): (n: nat)
    ensures n <= |xs|
  {
    if |xs| == 0 then 0
    else CountIn(xs[..|xs| - 1], b) + (if BucketFor(xs[|xs| - 1]) == b then 1 else 0)
  }

  /** After a history the sample counter holds its length, modulo 2^64. */
  lemma {:induction false} SamplesCounted(st: Stats, xs: seq<u64>)
    requires Valid(st)
    ensures RecordAll(st, xs).totalSamples == Wrap64(st.totalSamples as int + |xs|)
    decreases |xs|
  {
    if |xs| > 0 {
      var init := xs[..|xs| - 1];
      SamplesCounted(st, init);
      var before := RecordAll(st, init);
      assert RecordAll(st, xs).totalSamples == Wrap64(before.totalSamples as int + 1);
      WrapSucc(st.totalSamples as int + |init|);
    }
  }

  /** The running total after adding each of `xs` to `t` in 64-bit
      arithmetic. */
  function Accumulate(t: u64, xs: seq<u64>): u64
  {
    if |xs| == 0 then t else Wrap64(Accumulate(t, xs[..|xs| - 1]) as int + xs[|xs| - 1] as int)
  }

  /** After a history the running total holds the sum of its latencies,
      modulo 2^64. */
  lemma LatencyTotalled(st: Stats, xs: seq<u64>)
    requires Valid(st)
    ensures RecordAll(st, xs).totalLatency == Wrap64(st.totalLatency as int + Sum(xs))
  {
    TotalAccumulates(st, xs);
    AccumulateWraps(st.totalLatency, xs);
  }

  lemma {:induction false} TotalAccumulates(st: Stats, xs: seq<u64>)
    requires Valid(st)
    ensures RecordAll(st, xs).totalLatency == Accumulate(st.totalLatency, xs)
    decreases |xs|
  {
    if |xs| > 0 {
      TotalAccumulates(st, xs[..|xs| - 1]);
    }
  }

  lemma {:induction false} AccumulateWraps(t: u64, xs: seq<u64>)
    ensures Accumulate(t, xs) == Wrap64(t as int + Sum(xs))
    decreases |xs|
  {
    if |xs| > 0 {
      AccumulateWraps(t, xs[..|xs| - 1]);
      WrapAdd(t as int + Sum(xs[..|xs| - 1]), xs[|xs| - 1] as int);
    }
  }

  /** After a nonempty history the extremes are its least and greatest
      latencies. */
  lemma {:induction false} ExtremesOfHistory(m: nat, xs: seq<u64>)
    requires m > 0 && |xs| > 0
    ensures RecordAll(Init(m), xs).minNs == SeqMin(xs)
    ensures RecordAll(Init(m), xs).maxNs == SeqMax(xs)
    decreases |xs|
  {
    var init := xs[..|xs| - 1];
    if |xs| > 1 {
      ExtremesOfHistory(m, init);
    } else {
      assert init == [];
    }
  }

  /** While fewer than 2^64 latencies have been recorded, each bucket
      holds exactly how many of them fall in it. */
  lemma {:induction false} HistogramOfHistory(m: nat, xs: seq<u64>, b: nat)
    requires m > 0 && b < BUCKETS && |xs| < TWO_64
    ensures RecordAll(Init(m), xs).buckets[b] as int == CountIn(xs, b)
    decreases |xs|
  {
    if |xs| > 0 {
      var init := xs[..|xs| - 1];
      HistogramOfHistory(m, init, b);
    }
  }

  lemma WrapSucc(n: nat)
    ensures Wrap64(Wrap64(n) as int + 1) == Wrap64(n + 1)
  {
  }

  lemma WrapAdd(a: nat, b: int)
    ensures Wrap64(Wrap64(a) as int + b) == Wrap64(a + b)
  {
  }

  /** The last `m` latencies of a history, oldest first. */
  function Window(xs: seq<u64>, m: nat): (w: seq<u64>)
    ensures |w| == if |xs| <= m then |xs| else m
  {
    if |xs| <= m then xs else xs[|xs| - m..]
  }

  /** Where the slot `j` falls in the window when the oldest retained
      sample sits in slot `next`. */
  function Age(j: nat, next: nat, m: nat): (a: nat)
    requires j < m && next < m
    ensures a < m
  {
    if j >= next then j - next else j + m - next
  }

  /** The store after a history: the history itself until it reaches the
      bound; after that, exactly its last `m` latencies laid out round
      robin, the oldest in the slot that is overwritten next. */
  lemma {:induction false} StoreOfHistory(m: nat, xs: seq<u64>)
    requires m > 0
    ensures |xs| < m ==> StoreFilling(RecordAll(Init(m), xs), xs)
    ensures |xs| >= m ==> StoreRotated(RecordAll(Init(m), xs), Window(xs, m))
    decreases |xs|
  {
    if |xs| > 0 {
      var init := xs[..|xs| - 1];
      var x := xs[|xs| - 1];
      StoreOfHistory(m, init);
      assert init + [x] == xs;
      StoreStep(RecordAll(Init(m), init), init, x);
    }
  }

  /** One more latency keeps the store as `StoreOfHistory` describes it. */
  lemma StoreStep(st: Stats, xs: seq<u64>, x: u64)
    requires Valid(st)
    requires |xs| < st.maxSamples ==> StoreFilling(st, xs)
    requires |xs| >= st.maxSamples ==> StoreRotated(st, Window(xs, st.maxSamples))
    ensures |xs| + 1 < st.maxSamples ==> StoreFilling(Record(st, x), xs + [x])
    ensures |xs| + 1 >= st.maxSamples ==> StoreRotated(Record(st, x), Window(xs + [x], st.maxSamples))
  {
    var m := st.maxSamples;
    if |xs| < m {
      FillingStep(st, xs, x);
      assert |xs| + 1 == m ==> Window(xs + [x], m) == xs + [x];
    } else {
      WindowSlides(xs, x, m);
      RotatedStep(st, Window(xs, m), x);
    }
  }

  /** Once the history has reached the bound, each new latency pushes the
      oldest out of the window. */
  lemma WindowSlides(xs: seq<u64>, x: u64, m: nat)
    requires |xs| >= m > 0
    ensures Window(xs + [x], m) == Window(xs, m)[1..] + [x]
  {
    var ys := xs + [x];
    assert Window(ys, m) == ys[|ys| - m..];
    assert Window(xs, m)[1..] == xs[|xs| - m + 1..];
  }

  /** The store holds the whole history so far, in order. */
  predicate StoreFilling(st: Stats, xs: seq<u64>)
  {
    st.samples == xs && st.nextIndex == |xs|
  }

  /** The store is full and holds `w` rotated so that `w[0]` sits in slot
      `nextIndex`. */
  predicate StoreRotated(st: Stats, w: seq<u64>)
    requires Valid(st)
  {
    && |st.samples| == st.maxSamples && |w| == st.maxSamples
    && forall j :: 0 <= j < st.maxSamples ==> st.samples[j] == w[Age(j, st.nextIndex, st.maxSamples)]
  }

  lemma FillingStep(st: Stats, xs: seq<u64>, x: u64)
    requires Valid(st) && StoreFilling(st, xs) && |xs| < st.maxSamples
    ensures |xs| + 1 < st.maxSamples ==> StoreFilling(Record(st, x), xs + [x])
    ensures |xs| + 1 == st.maxSamples ==> StoreRotated(Record(st, x), xs + [x])
  {
    var r := Record(st, x);
    assert r.samples == xs + [x];
  }

  lemma RotatedStep(st: Stats, w: seq<u64>, x: u64)
    requires Valid(st) && StoreRotated(st, w)
    ensures StoreRotated(Record(st, x), w[1..] + [x])
  {
    var m := st.maxSamples;
    var r := Record(st, x);
    var w' := w[1..] + [x];
    assert r.samples == st.samples[st.nextIndex := x];
    forall j | 0 <= j < m
      ensures r.samples[j] == w'[Age(j, r.nextIndex, m)]
    {
      if j != st.nextIndex {
        assert Age(j, r.nextIndex, m) + 1 == Age(j, st.nextIndex, m);
      }
    }
  }

  // ---------------------------------------------------------------------
  // Snapshots
  // ---------------------------------------------------------------------

  datatype Snapshot = Snapshot(
    sampleCount: u64,
    avgNs: u64,
    minNs: u64,
    maxNs: u64,
    p50: u64,
    p95: u64,
    p99: u64,
    p999: u64,
    histogram: seq<u64>)

  const ZERO: Snapshot := Snapshot(0, 0, 0, 0, 0, 0, 0, 0, [0, 0, 0, 0, 0])

  /** The ranks at which the four percentiles are read: the products of
      0.50, 0.95, 0.99 and 0.999 with the number of sorted samples,
      truncated. They are computed in floating point and are inputs here. */
  datatype Ranks = Ranks(r50: nat, r95: nat, r99: nat, r999: nat)

  /** The sample at a rank, the rank held to the last index. */
  function Percentile(sorted: seq<u64>, rank: nat): (p: u64)
    requires |sorted| > 0
    ensures p in sorted
    ensures rank < |sorted| ==> p == sorted[rank]
    ensures rank >= |sorted| ==> p == sorted[|sorted| - 1]
  {
    var idx := if rank < |sorted| - 1 then rank else |sorted| - 1;
    sorted[idx]
  }

  /** How many samples a snapshot reports: those recorded, capped at the
      bound. */
  function Recorded(st: Stats): (n: nat)
    ensures n <= st.maxSamples && n <= st.totalSamples as int
    ensures n == st.maxSamples || n == st.totalSamples as int
  {
    if st.totalSamples as int <= st.maxSamples then st.totalSamples as int else st.maxSamples
  }

  /** The samples a snapshot ranks: the stored ones, as many as it
      reports, in ascending order. */
  function Ranked(st: Stats): (s: seq<u64>)
    requires Valid(st)
    ensures Sorted(s)
    ensures st.totalSamples > 0 ==> |s| > 0
    ensures |s| <= |st.samples| && multiset(s) == multiset(st.samples[..|s|])
    ensures |s| == if |st.samples| <= Recorded(st) then |st.samples| else Recorded(st)
  {
    var available := if |st.samples| <= Recorded(st) then |st.samples| else Recorded(st);
    Sort(st.samples[..available])
  }

  /** With nothing recorded, all zeros; otherwise the count of samples
      kept (capped at the bound), the truncated mean, the extremes and
      histogram as they stand, and the percentiles read from the sorted
      store. */
  function TakeSnapshot(st: Stats, ranks: Ranks): (s: Snapshot)
    requires Valid(st)
    ensures st.totalSamples == 0 ==> s == ZERO
    ensures st.totalSamples > 0 ==>
      && s.sampleCount as int == Recorded(st)
      && s.avgNs == Mean(st.totalLatency, st.totalSamples)
      && s.minNs == st.minNs && s.maxNs == st.maxNs && s.histogram == st.buckets
    ensures st.totalSamples > 0 ==>
      s.p50 == Percentile(Ranked(st), ranks.r50) && s.p95 == Percentile(Ranked(st), ranks.r95) &&
      s.p99 == Percentile(Ranked(st), ranks.r99) && s.p999 == Percentile(Ranked(st), ranks.r999)
  {
    var recorded := Recorded(st);
    if recorded == 0 then ZERO
    else
      var sorted := Ranked(st);
      Snapshot(
        recorded as u64,
        Mean(st.totalLatency, st.totalSamples),
        st.minNs,
        st.maxNs,
        Percentile(sorted, ranks.r50),
        Percentile(sorted, ranks.r95),
        Percentile(sorted, ranks.r99),
        Percentile(sorted, ranks.r999),
        st.buckets)
  }

  /** The mean latency in whole nanoseconds: the quotient truncated, so
      that it times the count is at most the total and one more times the
      count exceeds it. */
  function Mean(total: u64, n: u64): (q: u64)
    requires n > 0
    ensures q as int * n as int <= total as int < (q as int + 1) * n as int
  {
    DivBracket(total as int, n as int);
    total / n
  }

  lemma DivBracket(a: nat, n: nat)
    requires n > 0
    ensures (a / n) * n <= a < (a / n + 1) * n
    ensures a / n <= a
  {
    var q, r := a / n, a % n;
    assert a == q * n + r && 0 <= r < n;
    assert (q + 1) * n == q * n + n;
    assert q <= q * n by { MulAtLeast(q, n); }
  }

  lemma MulAtLeast(q: nat, n: nat)
    requires n > 0
    ensures q <= q * n
  {
  }

  /** Each percentile is one of the stored samples. */
  lemma PercentilesAreSamples(st: Stats, ranks: Ranks)
    requires Valid(st) && st.totalSamples > 0
    ensures TakeSnapshot(st, ranks).p50 in st.samples
    ensures TakeSnapshot(st, ranks).p95 in st.samples
    ensures TakeSnapshot(st, ranks).p99 in st.samples
    ensures TakeSnapshot(st, ranks).p999 in st.samples
  {
    var s := Ranked(st);
    var available := |s|;
    assert multiset(s) == multiset(st.samples[..available]);
    assert st.samples == st.samples[..available] + st.samples[available..];
    var snap := TakeSnapshot(st, ranks);
    forall p | p in [snap.p50, snap.p95, snap.p99, snap.p999]
      ensures p in st.samples
    {
      assert p in s;
      assert p in multiset(st.samples[..available]);
      assert p in st.samples[..available];
    }
  }

  /** Ranks in order give percentiles in order, the sorted samples being
      ascending. */
  lemma PercentilesOrdered(st: Stats, ranks: Ranks)
    requires Valid(st) && st.totalSamples > 0
    requires ranks.r50 <= ranks.r95 <= ranks.r99 <= ranks.r999
    ensures TakeSnapshot(st, ranks).p50 <= TakeSnapshot(st, ranks).p95
    ensures TakeSnapshot(st, ranks).p95 <= TakeSnapshot(st, ranks).p99
    ensures TakeSnapshot(st, ranks).p99 <= TakeSnapshot(st, ranks).p999
  {
    var s := Ranked(st);
    PercentileMonotone(s, ranks.r50, ranks.r95);
    PercentileMonotone(s, ranks.r95, ranks.r99);
    PercentileMonotone(s, ranks.r99, ranks.r999);
  }

  /** Reading a sorted sequence at a higher rank never gives less. */
  lemma PercentileMonotone(sorted: seq<u64>, a: nat, b: nat)
    requires Sorted(sorted) && |sorted| > 0 && a <= b
    ensures Percentile(sorted, a) <= Percentile(sorted, b)
  {
    var i := if a < |sorted| - 1 then a else |sorted| - 1;
    var j := if b < |sorted| - 1 then b else |sorted| - 1;
    assert i <= j;
    if i < j {
      assert sorted[i] <= sorted[j];
    }
  }

  /** Resetting forgets everything: the next snapshot is all zeros. */
  lemma ResetSnapshotIsZero(st: Stats, ranks: Ranks)
    requires st.maxSamples > 0
    ensures TakeSnapshot(Reset(st), ranks) == ZERO
  {
  }
}
