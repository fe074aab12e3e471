/** Distributions in the aggregator while fewer than 2^32 samples are submitted: no count wraps around, so that
    they are the multisets of their samples, survive serialization, and aggregate to the same buckets in stages as
    in one place (relay-metrics/src/aggregation.rs). */
module Exactness {
  import opened Wrappers
  import opened Metrics
  import opened Distributions
  import opened BucketValues
  import opened Instants
  import opened FlushSchedule
  import opened FlushQueues
  import opened Aggregation
  import opened Tallies
  import opened FlushProtocol
  import opened PreAggregation

  // ----- Values --------------------------------------------------------------------------------------

  ghost predicate ExactValue(value: BucketValue) {
    value.DistributionTotal? ==> Exact(value.histogram)
  }

  /** The number of samples of a distribution. */
  function Size(value: BucketValue): nat {
    if value.DistributionTotal? then value.histogram.length else 0
  }

  lemma ExactIsSound(value: BucketValue)
    requires ExactValue(value)
    ensures Sound(value)
  {
    if value.DistributionTotal? {
      WrapSmall(value.histogram.length);
    }
  }

  lemma SingleExact(metric: MetricValue)
    ensures var value := Single(metric).ToBucketValue();
            ExactValue(value) && Size(value) == if metric.DistributionValue? then 1 else 0
  {
    if metric.DistributionValue? {
      ExactSingle(Value(metric.sample), 1);
    }
  }

  lemma MergeIntoExact(value: Mergeable, current: BucketValue)
    requires value.MergeInto(current).Some? && ExactValue(current) && ExactValue(value.ToBucketValue())
    requires Size(current) + Size(value.ToBucketValue()) < COUNT_VALUES
    ensures ExactValue(value.MergeInto(current).value)
    ensures Size(value.MergeInto(current).value) == Size(current) + Size(value.ToBucketValue())
  {
    match (current, value)
    case (DistributionTotal(lhs), Single(DistributionValue(x))) => InsertedExact(lhs, Value(x), 1);
    case (DistributionTotal(lhs), Aggregated(DistributionTotal(rhs))) =>
      MergeExact(lhs, rhs);
      ExactIsSound(DistributionTotal(rhs));
      MergeBalanced(lhs, rhs);
    case _ =>
  }

  /** Exact values that report the same are the same. */
  lemma ExactIsMeaning(a: BucketValue, b: BucketValue)
    requires ExactValue(a) && ExactValue(b) && MeaningOf(a) == MeaningOf(b)
    ensures a == b
  {
    if a.DistributionTotal? {
      var g, h := a.histogram, b.histogram;
      forall v
        ensures Get(g.values, v) == Get(h.values, v)
      {
        assert Get(Occurring(g.values), v) == Get(Occurring(h.values), v);
      }
      ExactIsCounts(g, h);
    }
  }

  /** Any key. */
  const NO_KEY := BucketKey(0, "", Counter, NoUnit, map[])

  // ----- The aggregator ------------------------------------------------------------------------------

  ghost predicate AllExact(buckets: Buckets) {
    forall key :: key in buckets ==> ExactValue(buckets[key])
  }

  function HeldSize(buckets: Buckets, key: BucketKey): nat {
    if key in buckets then Size(buckets[key]) else 0
  }

  /** Merging keeps all distributions exact as long as the samples of its own key fit into 32 bits. */
  lemma AbsorbExact(s: State, key: BucketKey, value: Mergeable, flushAt: Option<int>)
    requires Consistent(s) && value.Ty() == key.ty && (key !in s.entries ==> flushAt.Some?)
    requires AllExact(s.entries) && ExactValue(value.ToBucketValue())
    requires HeldSize(s.entries, key) + Size(value.ToBucketValue()) < COUNT_VALUES
    ensures Absorb(s, key, value, flushAt).Some?
    ensures var entries := Absorb(s, key, value, flushAt).value.entries;
            && AllExact(entries)
            && forall k :: HeldSize(entries, k) ==
                 HeldSize(s.entries, k) + if k == key then Size(value.ToBucketValue()) else 0
  {
    ExactIsSound(value.ToBucketValue());
    NewValueCombines(s, key, value);
    AbsorbIsNewValue(s, key, value, flushAt);
    if key in s.entries {
      MergeIntoExact(value, s.entries[key]);
    }
  }

  /** What a bucket weighs for a key. */
  function BucketSize(key: BucketKey): Bucket -> nat {
    (b: Bucket) => if b.Key() == key then Size(b.value) else 0
  }

  /** What a metric weighs for a key. */
  function MetricSize(config: Config, key: BucketKey): Metric -> nat
    requires config.bucketInterval > 0
  {
    (m: Metric) => if MetricKey(config, m) == key && m.value.DistributionValue? then 1 else 0
  }

  lemma InsertMetricExact(config: Config, s: State, m: Metric, clock: Clock)
    requires config.bucketInterval > 0 && Schedulable(config, s, MetricKey(config, m), clock)
    requires Consistent(s) && AllExact(s.entries)
    requires forall key :: HeldSize(s.entries, key) + MetricSize(config, key)(m) < COUNT_VALUES
    ensures var r := InsertMetric(config, s, m, clock);
            && r.Some? && AllExact(r.value.entries)
            && forall key :: HeldSize(r.value.entries, key) == HeldSize(s.entries, key) + MetricSize(config, key)(m)
  {
    var key := MetricKey(config, m);
    SingleExact(m.value);
    assert MetricSize(config, key)(m) == Size(Single(m.value).ToBucketValue());
    AbsorbExact(s, key, Single(m.value), FlushTime(config, key.timestamp, clock));
  }

  lemma {:induction false} InsertMetricsExact(config: Config, s: State, metrics: seq<Metric>, clocks: seq<Clock>)
    requires config.bucketInterval > 0 && MetricsSchedulable(config, s, metrics, clocks)
    requires Consistent(s) && AllExact(s.entries)
    requires forall key :: HeldSize(s.entries, key) + Weigh(metrics, MetricSize(config, key)) < COUNT_VALUES
    ensures var entries := InsertMetrics(config, s, metrics, clocks).0.entries;
            && AllExact(entries)
            && forall key :: HeldSize(entries, key) ==
                 HeldSize(s.entries, key) + Weigh(metrics, MetricSize(config, key))
  {
    if metrics != [] {
      var n := |metrics| - 1;
      forall key
        ensures Weigh(metrics, MetricSize(config, key)) ==
                  Weigh(metrics[..n], MetricSize(config, key)) + MetricSize(config, key)(metrics[n])
      {
      }
      InsertMetricsExact(config, s, metrics[..n], clocks[..n]);
      InsertMetricsCombines(config, s, metrics[..n], clocks[..n], NO_KEY);
      InsertMetricExact(config, InsertMetrics(config, s, metrics[..n], clocks[..n]).0, metrics[n], clocks[n]);
    }
  }

  lemma MergeBucketExact(config: Config, s: State, b: Bucket, clock: Clock)
    requires Schedulable(config, s, b.Key(), clock) && Consistent(s) && AllExact(s.entries) && ExactValue(b.value)
    requires forall key :: HeldSize(s.entries, key) + BucketSize(key)(b) < COUNT_VALUES
    ensures var r := MergeBucket(config, s, b, clock);
            && r.Some? && AllExact(r.value.entries)
            && forall key :: HeldSize(r.value.entries, key) == HeldSize(s.entries, key) + BucketSize(key)(b)
  {
    assert BucketSize(b.Key())(b) == Size(b.value);
    AbsorbExact(s, b.Key(), Aggregated(b.value), FlushTime(config, b.timestamp, clock));
  }

  lemma {:induction false} MergeBucketsExact(config: Config, s: State, buckets: seq<Bucket>, clocks: seq<Clock>)
    requires AllSchedulable(config, s, buckets, clocks) && Consistent(s) && AllExact(s.entries)
    requires forall i :: 0 <= i < |buckets| ==> ExactValue(buckets[i].value)
    requires forall key :: HeldSize(s.entries, key) + Weigh(buckets, BucketSize(key)) < COUNT_VALUES
    ensures var entries := MergeBuckets(config, s, buckets, clocks).0.entries;
            && AllExact(entries)
            && forall key :: HeldSize(entries, key) == HeldSize(s.entries, key) + Weigh(buckets, BucketSize(key))
  {
    if buckets != [] {
      var n := |buckets| - 1;
      forall key
        ensures Weigh(buckets, BucketSize(key)) == Weigh(buckets[..n], BucketSize(key)) + BucketSize(key)(buckets[n])
      {
      }
      MergeBucketsExact(config, s, buckets[..n], clocks[..n]);
      forall i | 0 <= i < n
        ensures Sound(buckets[i].value)
      {
        ExactIsSound(buckets[i].value);
      }
      MergeBucketsCombines(config, s, buckets[..n], clocks[..n], NO_KEY);
      MergeBucketExact(config, MergeBuckets(config, s, buckets[..n], clocks[..n]).0, buckets[n], clocks[n]);
    }
  }

  // ----- Flushing ------------------------------------------------------------------------------------

  function PartSize(key: BucketKey): ((BucketKey, BucketValue)) -> nat {
    (p: (BucketKey, BucketValue)) => if p.0 == key then Size(p.1) else 0
  }

  lemma EmittedExact(s: State, popped: seq<Queued<BucketKey>>)
    requires AllExact(s.entries) && KeysOf(popped) <= s.entries.Keys
    ensures forall b :: b in ToBuckets(Emitted(s, popped)) ==> ExactValue(b.value)
  {
    EmittedParts(s, popped);
    var parts := Emitted(s, popped);
    forall i | 0 <= i < |parts|
      ensures ExactValue(parts[i].1)
    {
      assert parts[i] in parts;
    }
  }

  lemma EmittedSize(s: State, popped: seq<Queued<BucketKey>>, key: BucketKey)
    requires Typed(s.entries) && KeysOf(popped) <= s.entries.Keys && DistinctKeys(popped)
    ensures Weigh(ToBuckets(Emitted(s, popped)), BucketSize(key)) ==
              if key in KeysOf(popped) then HeldSize(s.entries, key) else 0
  {
    var parts := Emitted(s, popped);
    var buckets := ToBuckets(parts);
    EmittedParts(s, popped);
    forall i | 0 <= i < |parts|
      ensures PartSize(key)(parts[i]) == BucketSize(key)(buckets[i])
    {
      assert parts[i] in parts;
      KeyRoundTrip(parts[i].0, parts[i].1);
    }
    WeighMap(parts, buckets, PartSize(key), BucketSize(key));
    EmittedWeigh(s, popped, key, PartSize(key));
  }

  lemma FlushSize(s: State, after: State, popped: seq<Queued<BucketKey>>, key: BucketKey)
    requires Consistent(s) && Drained(s, after, popped) && KeysOf(popped) <= s.entries.Keys
    ensures HeldSize(s.entries, key) ==
              Weigh(ToBuckets(Emitted(s, popped)), BucketSize(key)) + HeldSize(after.entries, key)
  {
    PoppedDistinct(s, after, popped);
    EmittedSize(s, popped, key);
  }

  // ----- Aggregating in stages -----------------------------------------------------------------------

  /** Aggregators that report the same for all keys and have no wrapped counts have the same buckets. */
  lemma SameReports(a: Buckets, b: Buckets)
    requires AllExact(a) && AllExact(b) && forall key :: Held(a, key) == Held(b, key)
    ensures a == b
  {
    forall key
      ensures key in a <==> key in b
      ensures key in a && key in b ==> a[key] == b[key]
    {
      assert Held(a, key) == Held(b, key);
      if key in a && key in b {
        ExactIsMeaning(a[key], b[key]);
      }
    }
  }

  lemma MergeFlushedExact(config: Config, first: State, second: State, popped: seq<Queued<BucketKey>>, clocks: seq<Clock>)
    requires Consistent(first) && Consistent(second) && FlushesAll(second, popped)
    requires AllSchedulable(config, first, ToBuckets(Emitted(second, popped)), clocks)
    requires AllExact(first.entries) && AllExact(second.entries)
    requires forall key :: HeldSize(first.entries, key) + HeldSize(second.entries, key) < COUNT_VALUES
    ensures AllExact(MergeBuckets(config, first, ToBuckets(Emitted(second, popped)), clocks).0.entries)
  {
    var buckets := ToBuckets(Emitted(second, popped));
    forall key
      ensures Weigh(buckets, BucketSize(key)) == HeldSize(second.entries, key)
    {
      FlushSize(second, INITIAL, popped, key);
    }
    EmittedExact(second, popped);
    assert forall i :: 0 <= i < |buckets| ==> buckets[i] in buckets;
    MergeBucketsExact(config, first, buckets, clocks);
  }

  /** An aggregator that was filled from scratch. */
  lemma FilledExact(config: Config, metrics: seq<Metric>, clocks: seq<Clock>)
    requires config.bucketInterval > 0 && MetricsSchedulable(config, INITIAL, metrics, clocks)
    requires forall key :: Weigh(metrics, MetricSize(config, key)) < COUNT_VALUES
    ensures var s := InsertMetrics(config, INITIAL, metrics, clocks).0;
            && Consistent(s) && AllExact(s.entries)
            && forall key :: HeldSize(s.entries, key) == Weigh(metrics, MetricSize(config, key))
  {
    InsertMetricsExact(config, INITIAL, metrics, clocks);
    InsertMetricsCombines(config, INITIAL, metrics, clocks, NO_KEY);
  }

  lemma SizesAdd(config: Config, other: Config, xs: seq<Metric>, ys: seq<Metric>, key: BucketKey)
    requires config.bucketInterval == other.bucketInterval > 0
    ensures Weigh(xs + ys, MetricSize(config, key)) ==
              Weigh(xs, MetricSize(config, key)) + Weigh(ys, MetricSize(other, key))
  {
    WeighConcat(xs, ys, MetricSize(config, key));
    WeighMap(ys, ys, MetricSize(config, key), MetricSize(other, key));
  }

  /** While the samples of every key fit into 32 bits, aggregating `ys` elsewhere and merging the flushed buckets
      gives the same bucket map as aggregating `xs + ys` in one place. */
  lemma PreAggregationGivesSameBuckets(
      config: Config, xs: seq<Metric>, xClocks: seq<Clock>, first: State,
      other: Config, ys: seq<Metric>, yClocks: seq<Clock>, second: State,
      jointClocks: seq<Clock>, joint: State,
      popped: seq<Queued<BucketKey>>, mergeClocks: seq<Clock>)
    requires config.bucketInterval == other.bucketInterval > 0
    requires MetricsSchedulable(config, INITIAL, xs, xClocks) && first == InsertMetrics(config, INITIAL, xs, xClocks).0
    requires MetricsSchedulable(other, INITIAL, ys, yClocks) && second == InsertMetrics(other, INITIAL, ys, yClocks).0
    requires MetricsSchedulable(config, INITIAL, xs + ys, jointClocks)
    requires joint == InsertMetrics(config, INITIAL, xs + ys, jointClocks).0
    requires FlushesAll(second, popped)
    requires AllSchedulable(config, first, ToBuckets(Emitted(second, popped)), mergeClocks)
    requires forall key :: Weigh(xs + ys, MetricSize(config, key)) < COUNT_VALUES
    ensures MergeBuckets(config, first, ToBuckets(Emitted(second, popped)), mergeClocks).0.entries == joint.entries
  {
    forall key
      ensures Weigh(xs + ys, MetricSize(config, key)) ==
                Weigh(xs, MetricSize(config, key)) + Weigh(ys, MetricSize(other, key))
    {
      SizesAdd(config, other, xs, ys, key);
    }
    FilledExact(config, xs, xClocks);
    FilledExact(other, ys, yClocks);
    FilledExact(config, xs + ys, jointClocks);
    MergeFlushedExact(config, first, second, popped, mergeClocks);
    var merged := MergeBuckets(config, first, ToBuckets(Emitted(second, popped)), mergeClocks).0.entries;
    forall key
      ensures Held(merged, key) == Held(joint.entries, key)
    {
      PreAggregationPreservesMeaning(config, xs, xClocks, first, other, ys, yClocks, second, jointClocks, joint, popped,
                                     mergeClocks, key);
    }
    SameReports(merged, joint.entries);
  }

  /** Equality up to the last value of a gauge. */
  predicate SameButLast(a: BucketValue, b: BucketValue) {
    a == b || (a.GaugeTotal? && b.GaugeTotal? && a.gauge.(last := b.gauge.last) == b.gauge)
  }

  lemma SameMeaningButLast(a: BucketValue, b: BucketValue)
    requires ExactValue(a) && ExactValue(b) && Same(MeaningOf(a), MeaningOf(b))
    ensures SameButLast(a, b)
  {
    if a.GaugeTotal? {
      var g, h := a.gauge, b.gauge;
      assert g.(last := 0.0) == h.(last := 0.0);
    } else {
      ExactIsMeaning(a, b);
    }
  }

  lemma SameReportsButLast(a: Buckets, b: Buckets)
    requires AllExact(a) && AllExact(b) && forall key :: Same(Held(a, key), Held(b, key))
    ensures a.Keys == b.Keys && forall key :: key in a && key in b ==> SameButLast(a[key], b[key])
  {
    forall key
      ensures key in a <==> key in b
      ensures key in a && key in b ==> SameButLast(a[key], b[key])
    {
      assert Same(Held(a, key), Held(b, key));
      if key in a && key in b {
        SameMeaningButLast(a[key], b[key]);
      }
    }
  }

  /** While the samples of every key fit into 32 bits, permuting the metrics gives the same bucket map, except for the
      last values of gauges. */
  lemma OrderGivesSameBuckets(config: Config, xs: seq<Metric>, clocks: seq<Clock>, ys: seq<Metric>, otherClocks: seq<Clock>)
    requires config.bucketInterval > 0 && multiset(xs) == multiset(ys)
    requires MetricsSchedulable(config, INITIAL, xs, clocks) && MetricsSchedulable(config, INITIAL, ys, otherClocks)
    requires forall key :: Weigh(xs, MetricSize(config, key)) < COUNT_VALUES
    ensures var a := InsertMetrics(config, INITIAL, xs, clocks).0.entries;
            var b := InsertMetrics(config, INITIAL, ys, otherClocks).0.entries;
            a.Keys == b.Keys && forall key :: key in a && key in b ==> SameButLast(a[key], b[key])
  {
    var a, b := InsertMetrics(config, INITIAL, xs, clocks).0.entries, InsertMetrics(config, INITIAL, ys, otherClocks).0.entries;
    forall key
      ensures Weigh(ys, MetricSize(config, key)) == Weigh(xs, MetricSize(config, key))
    {
      WeighPermutation(xs, ys, MetricSize(config, key));
    }
    FilledExact(config, xs, clocks);
    FilledExact(config, ys, otherClocks);
    forall key
      ensures Same(Held(a, key), Held(b, key))
    {
      OrderDoesNotMatter(config, xs, clocks, ys, otherClocks, key);
    }
    SameReportsButLast(a, b);
  }

  // ----- Runs ----------------------------------------------------------------------------------------

  /** What a submission weighs for a key. */
  function SubmissionSize(config: Config, key: BucketKey): Submission -> nat
    requires config.bucketInterval > 0
  {
    (s: Submission) =>
      match s
      case Inserted(m) => if MetricKey(config, m) == key && m.value.DistributionValue? then 1 else 0
      case Merged(b) => if b.Key() == key then Size(b.value) else 0
  }

  ghost predicate SubmittedExact(s: System) {
    forall x :: x in s.submitted && x.Merged? ==> ExactValue(x.bucket.value)
  }

  /** The submitted samples of every key fit into 32 bits. */
  ghost predicate Fits(config: Config, s: System)
    requires config.bucketInterval > 0
  {
    forall key :: Weigh(s.submitted, SubmissionSize(config, key)) < COUNT_VALUES
  }

  ghost predicate SizesConserved(config: Config, s: System, key: BucketKey)
    requires config.bucketInterval > 0
  {
    HeldSize(s.aggregator.entries, key) + Weigh(Released(s), BucketSize(key)) ==
      Weigh(s.submitted, SubmissionSize(config, key))
  }

  /** All distributions are exact, and their samples add up to those submitted. */
  ghost predicate ExactInv(config: Config, s: System)
    requires config.bucketInterval > 0
  {
    && AllExact(s.aggregator.entries)
    && (forall b :: b in Released(s) ==> ExactValue(b.value))
    && forall key :: SizesConserved(config, s, key)
  }

  lemma InsertExact(config: Config, s: System, s': System, e: Event)
    requires config.bucketInterval > 0 && (e.Insert? || e.Merge?) && Next(config, s, s', e) && Healthy(s)
    requires ExactInv(config, s) && SubmittedExact(s') && Fits(config, s')
    ensures ExactInv(config, s')
  {
    var k, value, clock := if e.Insert? then MetricKey(config, e.metric) else e.bucket.Key(),
                           if e.Insert? then Single(e.metric.value) else Aggregated(e.bucket.value),
                           e.clock;
    var n := |s.submitted|;
    assert s'.submitted[n] in s'.submitted && s'.submitted[..n] == s.submitted;
    if e.Insert? {
      SingleExact(e.metric.value);
    }
    forall key
      ensures Weigh(s'.submitted, SubmissionSize(config, key)) ==
                Weigh(s.submitted, SubmissionSize(config, key)) + if key == k then Size(value.ToBucketValue()) else 0
    {
      assert SubmissionSize(config, key)(s'.submitted[n]) == if key == k then Size(value.ToBucketValue()) else 0;
    }
    assert SizesConserved(config, s, k);
    AbsorbExact(s.aggregator, k, value, FlushTime(config, k.timestamp, clock));
    forall key
      ensures SizesConserved(config, s', key)
    {
      assert SizesConserved(config, s, key);
    }
  }

  lemma FlushExact(config: Config, s: System, s': System, e: Event)
    requires config.bucketInterval > 0 && e.TryFlush? && Next(config, s, s', e) && Healthy(s)
    requires ExactInv(config, s)
    ensures ExactInv(config, s')
  {
    var emitted := ToBuckets(Emitted(s.aggregator, e.popped));
    ReleasedBySend(s, s', emitted);
    EmittedExact(s.aggregator, e.popped);
    forall key
      ensures SizesConserved(config, s', key)
    {
      assert SizesConserved(config, s, key);
      FlushSize(s.aggregator, s'.aggregator, e.popped, key);
      WeighConcat(Released(s), emitted, BucketSize(key));
    }
  }

  lemma ResolveExact(config: Config, s: System, s': System, e: Event)
    requires config.bucketInterval > 0 && (e.Accept? || e.Drop?) && Next(config, s, s', e)
    requires ExactInv(config, s)
    ensures ExactInv(config, s')
  {
    ReleasedByResolve(s, s', e.i);
    forall key
      ensures SizesConserved(config, s', key)
    {
      assert SizesConserved(config, s, key);
      WeighPermutation(Released(s), Released(s'), BucketSize(key));
    }
  }

  lemma RejectExact(config: Config, s: System, s': System, e: Event)
    requires config.bucketInterval > 0 && e.Reject? && Next(config, s, s', e) && Healthy(s)
    requires ExactInv(config, s) && Fits(config, s')
    ensures ExactInv(config, s')
  {
    ReleasedByReject(s, s', e.i, e.returned, e.kept);
    assert forall i :: 0 <= i < |e.returned| ==> e.returned[i] in e.returned;
    forall key
      ensures Weigh(Released(s), BucketSize(key)) ==
                Weigh(Released(s'), BucketSize(key)) + Weigh(e.returned, BucketSize(key))
      ensures SizesConserved(config, s, key)
    {
      WeighPermutation(Released(s), Released(s') + e.returned, BucketSize(key));
      WeighConcat(Released(s'), e.returned, BucketSize(key));
    }
    MergeBucketsExact(config, s.aggregator, e.returned, e.clocks);
  }

  lemma NextExact(config: Config, s: System, s': System, e: Event)
    requires config.bucketInterval > 0 && Next(config, s, s', e) && Healthy(s)
    requires ExactInv(config, s) && SubmittedExact(s') && Fits(config, s')
    ensures ExactInv(config, s')
  {
    match e
    case TryFlush(_, _) => FlushExact(config, s, s', e);
    case Reject(_, _, _, _) => RejectExact(config, s, s', e);
    case Accept(_) => ResolveExact(config, s, s', e);
    case Drop(_) => ResolveExact(config, s, s', e);
    case _ => InsertExact(config, s, s', e);
  }

  /** What was submitted earlier fits if what was submitted later does. */
  lemma EarlierFits(config: Config, s: System, s': System, e: Event)
    requires config.bucketInterval > 0 && Next(config, s, s', e)
    requires SubmittedExact(s') && Fits(config, s')
    ensures SubmittedExact(s) && Fits(config, s)
  {
    var more := s'.submitted[|s.submitted|..];
    assert s'.submitted == s.submitted + more;
    forall key
      ensures Weigh(s.submitted, SubmissionSize(config, key)) < COUNT_VALUES
    {
      WeighConcat(s.submitted, more, SubmissionSize(config, key));
    }
  }

  /** In every run, as long as the submitted samples of every key fit into 32 bits, all distributions that are held,
      in flight, delivered or dropped are exactly the multisets of their samples, and for every key their numbers of
      samples add up to those submitted. */
  lemma {:induction false} RunExact(config: Config, states: seq<System>, events: seq<Event>)
    requires config.bucketInterval > 0 && Run(config, states, events)
    requires SubmittedExact(states[|events|]) && Fits(config, states[|events|])
    ensures ExactInv(config, states[|events|])
  {
    var n := |events|;
    if n > 0 {
      EarlierFits(config, states[n - 1], states[n], events[n - 1]);
      RunExact(config, states[..n], events[..n - 1]);
      RunConserves(config, states[..n], events[..n - 1], NO_KEY);
      NextExact(config, states[n - 1], states[n], events[n - 1]);
    }
  }

  /** So the iterator over a distribution that is sent off does not underflow, and the receiver reads back the same
      distribution. */
  lemma RunSerializes(config: Config, states: seq<System>, events: seq<Event>, b: Bucket)
    requires config.bucketInterval > 0 && Run(config, states, events)
    requires SubmittedExact(states[|events|]) && Fits(config, states[|events|])
    requires b in Released(states[|events|]) && b.value.DistributionTotal?
    ensures var h := b.value.histogram; Exact(h) && FromSamples(Expand(Entries(h.values))) == h
  {
    RunExact(config, states, events);
    assert ExactValue(b.value);
    SerializeRoundTrip(b.value.histogram);
  }
}
