/** Aggregating in stages (relay-metrics/src/aggregation.rs, `Handler<InsertMetrics>` and
    `Aggregator::merge_all`): a relay may aggregate its own metrics and hand the buckets on. */
module PreAggregation {
  import opened Metrics
  import opened BucketValues
  import opened Instants
  import opened FlushSchedule
  import opened FlushQueues
  import opened Aggregation
  import opened Tallies
  import opened FlushProtocol

  /** None of the insertions panics. */
  predicate MetricsSchedulable(config: Config, s: State, metrics: seq<Metric>, clocks: seq<Clock>)
    requires config.bucketInterval > 0
    decreases |metrics|, 0
  {
    && |metrics| == |clocks|
    && (metrics == [] ||
        var n := |metrics| - 1;
        && MetricsSchedulable(config, s, metrics[..n], clocks[..n])
        && var (t, ok) := InsertMetrics(config, s, metrics[..n], clocks[..n]);
           (ok ==> Schedulable(config, t, MetricKey(config, metrics[n]), clocks[n])))
  }

  /** Inserts metrics up to the first one that fails, and says whether there was none. */
  function InsertMetrics(config: Config, s: State, metrics: seq<Metric>, clocks: seq<Clock>): (State, bool)
    requires config.bucketInterval > 0 && MetricsSchedulable(config, s, metrics, clocks)
    decreases |metrics|, 1
  {
    if metrics == [] then (s, true) else
      var n := |metrics| - 1;
      var (t, ok) := InsertMetrics(config, s, metrics[..n], clocks[..n]);
      if !ok then (t, false) else
        match InsertMetric(config, t, metrics[n], clocks[n])
        case None => (t, false)
        case Some(u) => (u, true)
  }

  /** What a metric contributes to a key. */
  function MetricReport(interval: nat, key: BucketKey): Metric -> Meaning
    requires interval > 0
  {
    (m: Metric) =>
      if MetricKey(Config(interval, 0, 0), m) == key then MeaningOf(Single(m.value).ToBucketValue()) else Nothing
  }

  lemma InsertMetricCombines(config: Config, s: State, metric: Metric, clock: Clock, key: BucketKey)
    requires config.bucketInterval > 0 && Consistent(s) && Schedulable(config, s, MetricKey(config, metric), clock)
    ensures var r := InsertMetric(config, s, metric, clock);
            && r.Some? && Consistent(r.value)
            && Held(r.value.entries, key) ==
               Combine(Held(s.entries, key), MetricReport(config.bucketInterval, key)(metric))
  {
    var k := MetricKey(config, metric);
    var flushAt := FlushTime(config, k.timestamp, clock);
    SingleSound(metric.value);
    AbsorbConsistent(s, k, Single(metric.value), flushAt);
    AbsorbCombines(s, k, Single(metric.value), flushAt, key);
  }

  lemma InsertMetricsStep(config: Config, s: State, metrics: seq<Metric>, clocks: seq<Clock>)
    requires config.bucketInterval > 0 && metrics != [] && MetricsSchedulable(config, s, metrics, clocks)
    ensures var n := |metrics| - 1;
            && MetricsSchedulable(config, s, metrics[..n], clocks[..n])
            && var (t, ok) := InsertMetrics(config, s, metrics[..n], clocks[..n]);
               ok ==>
                 && Schedulable(config, t, MetricKey(config, metrics[n]), clocks[n])
                 && var r := InsertMetric(config, t, metrics[n], clocks[n]);
                    r.Some? ==> InsertMetrics(config, s, metrics, clocks) == (r.value, true)
  {
  }

  /** Insertion adds exactly what the metrics report, whatever the delays and the clock readings. */
  lemma {:induction false} InsertMetricsCombines(config: Config, s: State, metrics: seq<Metric>, clocks: seq<Clock>,
                                                key: BucketKey)
    requires config.bucketInterval > 0 && MetricsSchedulable(config, s, metrics, clocks) && Consistent(s)
    ensures var (t, ok) := InsertMetrics(config, s, metrics, clocks);
            && ok && Consistent(t)
            && Held(t.entries, key) ==
               Combine(Held(s.entries, key), Tally(metrics, MetricReport(config.bucketInterval, key)))
  {
    if metrics != [] {
      var n, report := |metrics| - 1, MetricReport(config.bucketInterval, key);
      InsertMetricsStep(config, s, metrics, clocks);
      InsertMetricsCombines(config, s, metrics[..n], clocks[..n], key);
      InsertMetricCombines(config, InsertMetrics(config, s, metrics[..n], clocks[..n]).0, metrics[n], clocks[n], key);
      CombineAssociative(Held(s.entries, key), Tally(metrics[..n], report), report(metrics[n]));
    }
  }

  /** All buckets of an aggregator, flushed in the order in which they are popped. */
  ghost predicate FlushesAll(s: State, popped: seq<Queued<BucketKey>>) {
    Drained(s, INITIAL, popped) && KeysOf(popped) <= s.entries.Keys
  }

  /** Merging all that another aggregator flushes combines what the two aggregators hold. */
  lemma MergeFlushed(config: Config, first: State, second: State, popped: seq<Queued<BucketKey>>,
                     clocks: seq<Clock>, key: BucketKey)
    requires Consistent(first) && Consistent(second) && FlushesAll(second, popped)
    requires AllSchedulable(config, first, ToBuckets(Emitted(second, popped)), clocks)
    ensures Held(MergeBuckets(config, first, ToBuckets(Emitted(second, popped)), clocks).0.entries, key) ==
              Combine(Held(first.entries, key), Held(second.entries, key))
  {
    FlushAllTally(second, INITIAL, popped, key);
    EmittedSound(second, popped);
    var buckets := ToBuckets(Emitted(second, popped));
    assert forall i :: 0 <= i < |buckets| ==> buckets[i] in buckets;
    MergeBucketsCombines(config, first, ToBuckets(Emitted(second, popped)), clocks, key);
  }

  /** Pre-aggregation preserves meaning: aggregating `ys` elsewhere, with the same interval but any delays,
      and merging the flushed buckets gives what aggregating `xs + ys` in one place gives, including the
      last value of every gauge. */
  lemma PreAggregationPreservesMeaning(
      config: Config, xs: seq<Metric>, xClocks: seq<Clock>, first: State,
      other: Config, ys: seq<Metric>, yClocks: seq<Clock>, second: State,
      jointClocks: seq<Clock>, joint: State,
      popped: seq<Queued<BucketKey>>, mergeClocks: seq<Clock>, key: BucketKey)
    requires config.bucketInterval == other.bucketInterval > 0
    requires MetricsSchedulable(config, INITIAL, xs, xClocks) && first == InsertMetrics(config, INITIAL, xs, xClocks).0
    requires MetricsSchedulable(other, INITIAL, ys, yClocks) && second == InsertMetrics(other, INITIAL, ys, yClocks).0
    requires MetricsSchedulable(config, INITIAL, xs + ys, jointClocks)
    requires joint == InsertMetrics(config, INITIAL, xs + ys, jointClocks).0
    requires FlushesAll(second, popped)
    requires AllSchedulable(config, first, ToBuckets(Emitted(second, popped)), mergeClocks)
    ensures Held(MergeBuckets(config, first, ToBuckets(Emitted(second, popped)), mergeClocks).0.entries, key) ==
              Held(joint.entries, key)
  {
    InsertMetricsCombines(config, INITIAL, xs, xClocks, key);
    InsertMetricsCombines(other, INITIAL, ys, yClocks, key);
    InsertMetricsCombines(config, INITIAL, xs + ys, jointClocks, key);
    MergeFlushed(config, first, second, popped, mergeClocks, key);
    TallyConcat(xs, ys, MetricReport(config.bucketInterval, key));
  }

  /** The order of submissions matters to nothing but the last value of a gauge. */
  lemma OrderDoesNotMatter(config: Config, xs: seq<Metric>, clocks: seq<Clock>, ys: seq<Metric>, otherClocks: seq<Clock>,
                           key: BucketKey)
    requires config.bucketInterval > 0 && multiset(xs) == multiset(ys)
    requires MetricsSchedulable(config, INITIAL, xs, clocks) && MetricsSchedulable(config, INITIAL, ys, otherClocks)
    ensures Same(Held(InsertMetrics(config, INITIAL, xs, clocks).0.entries, key),
                 Held(InsertMetrics(config, INITIAL, ys, otherClocks).0.entries, key))
  {
    InsertMetricsCombines(config, INITIAL, xs, clocks, key);
    InsertMetricsCombines(config, INITIAL, ys, otherClocks, key);
    TallyPermutation(xs, ys, MetricReport(config.bucketInterval, key));
  }
}
