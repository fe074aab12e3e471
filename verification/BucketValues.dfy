/** Aggregated bucket values and their merging (relay-metrics/src/aggregation.rs, `BucketValue`,
    `GaugeValue`, `MergeValue`), and the algebra in which aggregation is measured. */
module BucketValues {
  import opened Wrappers
  import opened Metrics
  import opened Distributions

  /** The number of values of the `u64` counter of gauge updates. */
  const UPDATE_VALUES: nat := 0x1_0000_0000_0000_0000

  type Updates = n: nat | n < UPDATE_VALUES

  function AddUpdates(a: Updates, b: Updates): Updates {
    if a + b < UPDATE_VALUES then a + b else a + b - UPDATE_VALUES
  }

  function Max(a: real, b: real): real { if a < b then b else a }

  function Min(a: real, b: real): real { if b < a then b else a }

  /** A hashed set element. */
  datatype Hash = Hash(bits: nat)

  datatype GaugeSummary = GaugeSummary(max: real, min: real, sum: real, last: real, count: Updates) {
    function Insert(value: real): GaugeSummary {
      GaugeSummary(Max(max, value), Min(min, value), sum + value, value, AddUpdates(count, 1))
    }

    function Merge(other: GaugeSummary): GaugeSummary {
      GaugeSummary(Max(max, other.max), Min(min, other.min), sum + other.sum, other.last,
                   AddUpdates(count, other.count))
    }
  }

  function SingleGauge(value: real): GaugeSummary {
    GaugeSummary(value, value, value, value, 1)
  }

  datatype BucketValue =
    | CounterTotal(total: real)
    | DistributionTotal(histogram: Histogram)
    | SetTotal(hashes: set<Hash>)
    | GaugeTotal(gauge: GaugeSummary)
  {
    function Ty(): MetricType {
      match this
      case CounterTotal(_) => Counter
      case DistributionTotal(_) => Distribution
      case SetTotal(_) => Set
      case GaugeTotal(_) => Gauge
    }
  }

  /** A value that can be merged into a bucket: a single metric value or another bucket's value. */
  datatype Mergeable = Single(metric: MetricValue) | Aggregated(bucket: BucketValue) {
    function Ty(): MetricType {
      match this
      case Single(m) => m.Ty()
      case Aggregated(b) => b.Ty()
    }

    /** The bucket value that holds nothing but this value. */
    function ToBucketValue(): BucketValue {
      match this
      case Single(CounterValue(x)) => CounterTotal(x)
      case Single(DistributionValue(x)) => DistributionTotal(Inserted(EMPTY, Value(x), 1))
      case Single(SetValue(h)) => SetTotal({Hash(h)})
      case Single(GaugeValue(x)) => GaugeTotal(SingleGauge(x))
      case Aggregated(b) => b
    }

    /** The value of a bucket after merging this value into it, `None` standing for
        `AggregateMetricsError`. */
    function MergeInto(current: BucketValue): Option<BucketValue> {
      match (current, this)
      case (CounterTotal(lhs), Single(CounterValue(x))) => Some(CounterTotal(lhs + x))
      case (DistributionTotal(lhs), Single(DistributionValue(x))) =>
        Some(DistributionTotal(Inserted(lhs, Value(x), 1)))
      case (SetTotal(lhs), Single(SetValue(h))) => Some(SetTotal(lhs + {Hash(h)}))
      case (GaugeTotal(lhs), Single(GaugeValue(x))) => Some(GaugeTotal(lhs.Insert(x)))
      case (CounterTotal(lhs), Aggregated(CounterTotal(rhs))) => Some(CounterTotal(lhs + rhs))
      case (DistributionTotal(lhs), Aggregated(DistributionTotal(rhs))) =>
        Some(DistributionTotal(Distributions.Merge(lhs, rhs)))
      case (SetTotal(lhs), Aggregated(SetTotal(rhs))) => Some(SetTotal(lhs + rhs))
      case (GaugeTotal(lhs), Aggregated(GaugeTotal(rhs))) => Some(GaugeTotal(lhs.Merge(rhs)))
      case _ => None
    }
  }

  // ----- What a bucket value means -------------------------------------------------------------

  /** What was reported for a bucket. `Nothing` stands for no bucket, `Clash` for values of
      different types. */
  datatype Meaning =
    | Nothing
    | Sum(total: real)
    | Samples(counts: map<Value, Count>, length: Count)
    | Elements(hashes: set<Hash>)
    | Snapshot(gauge: GaugeSummary)
    | Clash

  /** The values that occur at all, with their counts. */
  function Occurring(values: map<Value, Count>): map<Value, Count> {
    map v | v in values && values[v] != 0 :: values[v]
  }

  function MeaningOf(value: BucketValue): Meaning {
    match value
    case CounterTotal(total) => Sum(total)
    case DistributionTotal(h) => Samples(Occurring(h.values), h.length)
    case SetTotal(hashes) => Elements(hashes)
    case GaugeTotal(g) => Snapshot(g)
  }

  /** The length of a distribution is in line with its counts. */
  ghost predicate Sound(value: BucketValue) {
    value.DistributionTotal? ==> Balanced(value.histogram)
  }

  /** Adds up the counts of every value. */
  function AddCounts(a: map<Value, Count>, b: map<Value, Count>): map<Value, Count> {
    map v | v in a.Keys + b.Keys && WrapAdd(Get(a, v), Get(b, v)) != 0 :: WrapAdd(Get(a, v), Get(b, v))
  }

  function Combine(a: Meaning, b: Meaning): Meaning {
    match (a, b)
    case (Nothing, _) => b
    case (_, Nothing) => a
    case (Sum(x), Sum(y)) => Sum(x + y)
    case (Samples(x, m), Samples(y, n)) => Samples(AddCounts(x, y), WrapAdd(m, n))
    case (Elements(x), Elements(y)) => Elements(x + y)
    case (Snapshot(x), Snapshot(y)) => Snapshot(x.Merge(y))
    case _ => Clash
  }

  /** Forgets the last reported gauge value, the one component that depends on the order of reports. */
  function Unordered(m: Meaning): Meaning {
    match m
    case Snapshot(g) => Snapshot(g.(last := 0.0))
    case _ => m
  }

  lemma CountOfSum(a: map<Value, Count>, b: map<Value, Count>, v: Value)
    ensures Get(AddCounts(a, b), v) == WrapAdd(Get(a, v), Get(b, v))
    ensures v in AddCounts(a, b) <==> WrapAdd(Get(a, v), Get(b, v)) != 0
  {
  }

  lemma CountsAssociate(a: map<Value, Count>, b: map<Value, Count>, c: map<Value, Count>, v: Value)
    ensures Get(AddCounts(AddCounts(a, b), c), v) == Get(AddCounts(a, AddCounts(b, c)), v)
    ensures v in AddCounts(AddCounts(a, b), c) <==> v in AddCounts(a, AddCounts(b, c))
  {
    CountOfSum(a, b, v);
    CountOfSum(b, c, v);
    CountOfSum(AddCounts(a, b), c, v);
    CountOfSum(a, AddCounts(b, c), v);
    WrapAddAssociative(Get(a, v), Get(b, v), Get(c, v));
  }

  lemma AddCountsAssociative(a: map<Value, Count>, b: map<Value, Count>, c: map<Value, Count>)
    ensures AddCounts(AddCounts(a, b), c) == AddCounts(a, AddCounts(b, c))
  {
    var left, right := AddCounts(AddCounts(a, b), c), AddCounts(a, AddCounts(b, c));
    forall v
      ensures v in left <==> v in right
      ensures v in left ==> left[v] == right[v]
    {
      CountsAssociate(a, b, c, v);
      assert Get(left, v) == Get(right, v);
    }
  }

  lemma CombineAssociative(a: Meaning, b: Meaning, c: Meaning)
    ensures Combine(Combine(a, b), c) == Combine(a, Combine(b, c))
  {
    if a.Samples? && b.Samples? && c.Samples? {
      AddCountsAssociative(a.counts, b.counts, c.counts);
      WrapAddAssociative(a.length, b.length, c.length);
    }
  }

  /** Up to the last gauge value, reports may be combined in any order. */
  lemma CombineCommutative(a: Meaning, b: Meaning)
    ensures Unordered(Combine(a, b)) == Unordered(Combine(b, a))
  {
    if a.Samples? && b.Samples? {
      assert AddCounts(a.counts, b.counts) == AddCounts(b.counts, a.counts);
    }
  }

  lemma UnorderedCombine(a: Meaning, b: Meaning)
    ensures Unordered(Combine(a, b)) == Combine(Unordered(a), Unordered(b))
  {
  }

  /** Merging the values of two histograms adds up their counts. */
  lemma OccurringMerge(h: Histogram, other: Histogram)
    ensures Occurring(Distributions.Merge(h, other).values) == AddCounts(Occurring(h.values), Occurring(other.values))
  {
    var left := Occurring(Distributions.Merge(h, other).values);
    var right := AddCounts(Occurring(h.values), Occurring(other.values));
    forall v
      ensures v in left <==> v in right
      ensures v in left ==> left[v] == right[v]
    {
      MergeCounts(h, other, v);
      CountOfSum(Occurring(h.values), Occurring(other.values), v);
    }
  }

  lemma OccurringInsert(h: Histogram, v: Value)
    ensures Occurring(Inserted(h, v, 1).values) == AddCounts(Occurring(h.values), Occurring(Inserted(EMPTY, v, 1).values))
  {
    var left := Occurring(Inserted(h, v, 1).values);
    var one := Occurring(Inserted(EMPTY, v, 1).values);
    assert one == map[v := 1];
    var right := AddCounts(Occurring(h.values), one);
    forall w
      ensures w in left <==> w in right
      ensures w in left ==> left[w] == right[w]
    {
      CountOfSum(Occurring(h.values), one, w);
    }
  }

  /** Merging succeeds exactly when the types agree, keeps the type, and combines what was reported:
      a single value counts for as much as the bucket that holds nothing else. */
  lemma MergeIntoCombines(value: Mergeable, current: BucketValue)
    ensures value.ToBucketValue().Ty() == value.Ty()
    ensures value.MergeInto(current).Some? <==> value.Ty() == current.Ty()
    ensures value.MergeInto(current).Some? ==> value.MergeInto(current).value.Ty() == current.Ty()
    ensures value.MergeInto(current).Some? && Sound(value.ToBucketValue()) ==>
              MeaningOf(value.MergeInto(current).value) ==
                Combine(MeaningOf(current), MeaningOf(value.ToBucketValue()))
  {
    match (current, value)
    case (DistributionTotal(lhs), Single(DistributionValue(x))) => OccurringInsert(lhs, Value(x));
    case (DistributionTotal(lhs), Aggregated(DistributionTotal(rhs))) =>
      OccurringMerge(lhs, rhs);
      if Balanced(rhs) {
        MergeBalanced(lhs, rhs);
      }
    case _ =>
  }

  /** Merging keeps the length of a distribution in line with its counts. */
  lemma MergeIntoSound(value: Mergeable, current: BucketValue)
    requires value.MergeInto(current).Some? && Sound(current) && Sound(value.ToBucketValue())
    ensures Sound(value.MergeInto(current).value)
  {
    match (current, value)
    case (DistributionTotal(lhs), Single(DistributionValue(x))) => InsertedBalanced(lhs, Value(x), 1);
    case (DistributionTotal(lhs), Aggregated(DistributionTotal(rhs))) => MergeBalanced(lhs, rhs);
    case _ =>
  }

  lemma SingleSound(metric: MetricValue)
    ensures Sound(Single(metric).ToBucketValue())
  {
    if metric.DistributionValue? {
      FromSamplesBalanced([]);
      InsertedBalanced(EMPTY, Value(metric.sample), 1);
    }
  }
}
