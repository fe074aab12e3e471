/** What buckets mean in terms of the submitted metrics: which metrics belong to a bucket, and how its value
    sums them up (relay-metrics/src/aggregation.rs, `BucketValue`, `GaugeValue`, `Aggregator::insert`). */
module Reports {
  import opened Multiples
  import opened Metrics
  import opened Distributions
  import opened BucketValues
  import opened Instants
  import opened FlushSchedule
  import opened Aggregation
  import opened Tallies
  import opened FlushProtocol
  import opened PreAggregation

  // ----- Summaries of values -----------------------------------------------------------------------

  function Number(value: MetricValue): real {
    match value
    case CounterValue(x) => x
    case DistributionValue(x) => x
    case GaugeValue(x) => x
    case SetValue(_) => 0.0
  }

  function Total(values: seq<MetricValue>): real {
    if values == [] then 0.0 else Total(values[..|values| - 1]) + Number(values[|values| - 1])
  }

  /** How often a sample was submitted. */
  function Occurrences(values: seq<MetricValue>, v: Value): nat { multiset(values)[DistributionValue(v.number)] }

  ghost predicate Bounds(g: GaugeSummary, values: seq<MetricValue>) {
    && (forall i :: 0 <= i < |values| ==> g.min <= Number(values[i]) <= g.max)
    && (exists i :: 0 <= i < |values| && g.min == Number(values[i]))
    && (exists i :: 0 <= i < |values| && g.max == Number(values[i]))
  }

  /** A gauge has the least and the greatest value, the sum, the last value, and the number of values modulo
      2^64. */
  ghost predicate Summarizes(g: GaugeSummary, values: seq<MetricValue>) {
    && values != []
    && Bounds(g, values)
    && g.sum == Total(values)
    && g.last == Number(values[|values| - 1])
    && g.count == |values| % UPDATE_VALUES
  }

  ghost predicate Counts(counts: map<Value, Count>, values: seq<MetricValue>) {
    forall v :: Get(counts, v) == Wrap(Occurrences(values, v)) && (v in counts <==> Wrap(Occurrences(values, v)) != 0)
  }

  ghost predicate Contains(hashes: set<Hash>, values: seq<MetricValue>) {
    forall h :: h in hashes <==> SetValue(h.bits) in values
  }

  /** What a bucket of a given type should report for the values submitted to it. */
  ghost predicate Reports(meaning: Meaning, ty: MetricType, values: seq<MetricValue>) {
    if values == [] then meaning == Nothing else
      match ty
      case Counter => meaning == Sum(Total(values))
      case Distribution =>
        meaning.Samples? && Counts(meaning.counts, values) && meaning.length == Wrap(|values|)
      case Set => meaning.Elements? && Contains(meaning.hashes, values)
      case Gauge => meaning.Snapshot? && Summarizes(meaning.gauge, values)
  }

  lemma {:induction false} TotalConcat(a: seq<MetricValue>, b: seq<MetricValue>)
    ensures Total(a + b) == Total(a) + Total(b)
  {
    if b == [] {
      assert a + b == a;
    } else {
      assert (a + b)[..|a + b| - 1] == a + b[..|b| - 1];
      TotalConcat(a, b[..|b| - 1]);
    }
  }

  lemma UpdatesSum(m: nat, n: nat)
    ensures (m + n) % UPDATE_VALUES == AddUpdates(m % UPDATE_VALUES, n % UPDATE_VALUES)
  {
    var p, q := m / UPDATE_VALUES, n / UPDATE_VALUES;
    assert m == p * UPDATE_VALUES + m % UPDATE_VALUES && n == q * UPDATE_VALUES + n % UPDATE_VALUES;
  }

  lemma CountsConcat(x: map<Value, Count>, a: seq<MetricValue>, y: map<Value, Count>, b: seq<MetricValue>)
    requires Counts(x, a) && Counts(y, b)
    ensures Counts(AddCounts(x, y), a + b)
  {
    forall v
      ensures Get(AddCounts(x, y), v) == Wrap(Occurrences(a + b, v))
      ensures v in AddCounts(x, y) <==> Wrap(Occurrences(a + b, v)) != 0
    {
      CountOfSum(x, y, v);
      WrapSum(Occurrences(a, v), Occurrences(b, v));
    }
  }

  lemma BoundsConcat(g: GaugeSummary, a: seq<MetricValue>, h: GaugeSummary, b: seq<MetricValue>)
    requires Bounds(g, a) && Bounds(h, b)
    ensures Bounds(g.Merge(h), a + b)
  {
    var i, j :| 0 <= i < |a| && 0 <= j < |a| && g.min == Number(a[i]) && g.max == Number(a[j]);
    var k, l :| 0 <= k < |b| && 0 <= l < |b| && h.min == Number(b[k]) && h.max == Number(b[l]);
    assert (a + b)[i] == a[i] && (a + b)[j] == a[j];
    assert (a + b)[|a| + k] == b[k] && (a + b)[|a| + l] == b[l];
  }

  /** The merge of two gauges summarizes what both were given. */
  lemma GaugesMerge(g: GaugeSummary, a: seq<MetricValue>, h: GaugeSummary, b: seq<MetricValue>)
    requires Summarizes(g, a) && Summarizes(h, b)
    ensures Summarizes(g.Merge(h), a + b)
  {
    BoundsConcat(g, a, h, b);
    TotalConcat(a, b);
    UpdatesSum(|a|, |b|);
  }

  /** Combining two reports reports the values of both. */
  lemma ReportsConcat(x: Meaning, a: seq<MetricValue>, y: Meaning, b: seq<MetricValue>, ty: MetricType)
    requires Reports(x, ty, a) && Reports(y, ty, b)
    ensures Reports(Combine(x, y), ty, a + b)
  {
    if a == [] || b == [] {
      assert a + b == if a == [] then b else a;
    } else {
      match ty
      case Counter => TotalConcat(a, b);
      case Distribution =>
        CountsConcat(x.counts, a, y.counts, b);
        WrapSum(|a|, |b|);
      case Gauge => GaugesMerge(x.gauge, a, y.gauge, b);
      case Set =>
    }
  }

  /** A bucket made from a single value reports this value. */
  lemma ReportsOne(value: MetricValue)
    ensures Reports(MeaningOf(Single(value).ToBucketValue()), value.Ty(), [value])
  {
    assert Total([value]) == Total([]) + Number(value);
    match value
    case DistributionValue(x) =>
      forall v
        ensures Occurrences([value], v) == if v == Value(x) then 1 else 0
      {
      }
    case SetValue(n) =>
      forall h
        ensures h in {Hash(n)} <==> SetValue(h.bits) in [value]
      {
      }
    case GaugeValue(x) => assert [value][0] == value;
    case CounterValue(_) =>
  }

  // ----- Buckets and metrics -------------------------------------------------------------------------

  /** The metric belongs into the bucket: the bucket's interval covers its timestamp, and all else agrees. */
  predicate Belongs(interval: nat, key: BucketKey, metric: Metric)
    requires interval > 0
  {
    && key.timestamp % interval == 0 && key.timestamp <= metric.timestamp < key.timestamp + interval
    && key.name == metric.name && key.unit == metric.unit && key.tags == metric.tags
    && key.ty == metric.value.Ty()
  }

  lemma IntervalStart(t: nat, x: nat, w: nat)
    requires w > 0
    ensures t % w == 0 && t <= x < t + w <==> t == x / w * w
  {
    Divided(t, w);
    Divided(x, w);
    if t % w == 0 && t <= x < t + w {
      MultipleBelow(t / w, x / w, w, x);
    }
    MultipleOf(x / w, w);
  }

  lemma BelongsIff(config: Config, key: BucketKey, metric: Metric)
    requires config.bucketInterval > 0
    ensures Belongs(config.bucketInterval, key, metric) <==> MetricKey(config, metric) == key
  {
    IntervalStart(key.timestamp, metric.timestamp, config.bucketInterval);
  }

  /** The values of the metrics that belong into the bucket, in their order. */
  function Values(interval: nat, key: BucketKey, metrics: seq<Metric>): seq<MetricValue>
    requires interval > 0
  {
    if metrics == [] then [] else
      var m := metrics[|metrics| - 1];
      Values(interval, key, metrics[..|metrics| - 1]) + if Belongs(interval, key, m) then [m.value] else []
  }

  lemma {:induction false} TallyReports(interval: nat, key: BucketKey, metrics: seq<Metric>)
    requires interval > 0
    ensures Reports(Tally(metrics, MetricReport(interval, key)), key.ty, Values(interval, key, metrics))
  {
    if metrics != [] {
      var init, m := metrics[..|metrics| - 1], metrics[|metrics| - 1];
      var report := MetricReport(interval, key);
      TallyReports(interval, key, init);
      BelongsIff(Config(interval, 0, 0), key, m);
      ReportsOne(m.value);
      ReportsConcat(Tally(init, report), Values(interval, key, init), report(m),
                    if Belongs(interval, key, m) then [m.value] else [], key.ty);
    }
  }

  /** An aggregator has a bucket exactly for those keys that some inserted metric belongs to, and it holds the
      sum, the sample counts, the elements or the gauge summary of just the metrics that belong to it. */
  lemma AggregatorReports(config: Config, metrics: seq<Metric>, clocks: seq<Clock>, key: BucketKey)
    requires config.bucketInterval > 0 && MetricsSchedulable(config, INITIAL, metrics, clocks)
    ensures Reports(Held(InsertMetrics(config, INITIAL, metrics, clocks).0.entries, key), key.ty,
                    Values(config.bucketInterval, key, metrics))
  {
    InsertMetricsCombines(config, INITIAL, metrics, clocks, key);
    TallyReports(config.bucketInterval, key, metrics);
  }

  /** In every run to which metrics are submitted, what is delivered, dropped, in flight and held for a key
      reports, up to the order of gauge values, just the submitted metrics that belong to it. */
  lemma RunReports(config: Config, states: seq<System>, events: seq<Event>, key: BucketKey, metrics: seq<Metric>)
    returns (meaning: Meaning)
    requires config.bucketInterval > 0 && Run(config, states, events)
    requires var s := states[|events|];
             |s.submitted| == |metrics| && forall i :: 0 <= i < |metrics| ==> s.submitted[i] == Inserted(metrics[i])
    ensures var s := states[|events|];
            && Reports(meaning, key.ty, Values(config.bucketInterval, key, metrics))
            && Same(Combine(Tally(Released(s), BucketReport(key)), Held(s.aggregator.entries, key)), meaning)
  {
    var s := states[|events|];
    RunConserves(config, states, events, key);
    TallyReports(config.bucketInterval, key, metrics);
    TallyMap(metrics, s.submitted, MetricReport(config.bucketInterval, key), SubmissionReport(config, key));
    meaning := Tally(metrics, MetricReport(config.bucketInterval, key));
  }
}
