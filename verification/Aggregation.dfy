/** The metrics aggregator: a map of buckets and a queue of flush times
    (relay-metrics/src/aggregation.rs, `Aggregator`). */
module Aggregation {
  import opened Wrappers
  import opened Metrics
  import opened BucketValues
  import opened Instants
  import opened FlushSchedule
  import opened FlushQueues

  datatype BucketKey = BucketKey(
    timestamp: nat,
    name: string,
    ty: MetricType,
    unit: MetricUnit,
    tags: map<string, string>)

  datatype Bucket = Bucket(
    timestamp: nat,
    name: string,
    unit: MetricUnit,
    value: BucketValue,
    tags: map<string, string>)
  {
    /** The key under which `merge` files the bucket. */
    function Key(): BucketKey { BucketKey(timestamp, name, value.Ty(), unit, tags) }
  }

  function FromParts(key: BucketKey, value: BucketValue): Bucket {
    Bucket(key.timestamp, key.name, key.unit, value, key.tags)
  }

  /** Rebuilding the key of a bucket whose value has the type that its key says. */
  lemma KeyRoundTrip(key: BucketKey, value: BucketValue)
    ensures FromParts(key, value).Key() == key <==> value.Ty() == key.ty
  {
  }

  function ToBuckets(parts: seq<(BucketKey, BucketValue)>): (buckets: seq<Bucket>)
    ensures |buckets| == |parts|
    ensures forall i :: 0 <= i < |parts| ==> buckets[i] == FromParts(parts[i].0, parts[i].1)
  {
    seq(|parts|, i requires 0 <= i < |parts| => FromParts(parts[i].0, parts[i].1))
  }

  /** The start of the bucket interval that a timestamp lies in. */
  function BucketTimestamp(config: Config, timestamp: nat): (t: nat)
    requires config.bucketInterval > 0
    ensures t <= timestamp < t + config.bucketInterval
  {
    timestamp / config.bucketInterval * config.bucketInterval
  }

  /** The key under which `insert` files a metric. */
  function MetricKey(config: Config, metric: Metric): BucketKey
    requires config.bucketInterval > 0
  {
    BucketKey(BucketTimestamp(config, metric.timestamp), metric.name, metric.value.Ty(), metric.unit,
              metric.tags)
  }

  type Buckets = map<BucketKey, BucketValue>

  type State = Table<BucketKey, BucketValue>

  const INITIAL: State := Table(map[], multiset{})

  /** Every bucket's value has the type that its key says. */
  ghost predicate Typed(buckets: Buckets) {
    forall key :: key in buckets ==> buckets[key].Ty() == key.ty
  }

  ghost predicate AllSound(buckets: Buckets) {
    forall key :: key in buckets ==> Sound(buckets[key])
  }

  ghost predicate Consistent(s: State) {
    Agrees(s) && Typed(s.entries) && AllSound(s.entries)
  }

  /** The state after merging a value into the bucket at `key`, which is queued with the given flush
      time if it is new. `None` stands for `AggregateMetricsError`. */
  function Absorb(s: State, key: BucketKey, value: Mergeable, flushAt: Option<int>): Option<State>
    requires key !in s.entries ==> flushAt.Some?
  {
    if key in s.entries then
      match value.MergeInto(s.entries[key])
      case None => None
      case Some(merged) => Some(s.(entries := s.entries[key := merged]))
    else
      Some(Table(s.entries[key := value.ToBucketValue()], s.queue + multiset{Queued(flushAt.value, key)}))
  }

  /** What a map of buckets holds for a key. */
  function Held<K(==)>(buckets: map<K, BucketValue>, key: K): Meaning {
    if key in buckets then MeaningOf(buckets[key]) else Nothing
  }

  lemma HeldCombines<K>(buckets: map<K, BucketValue>, key: K, value: BucketValue, report: Meaning, k: K)
    requires MeaningOf(value) == Combine(Held(buckets, key), report)
    ensures Held(buckets[key := value], k) == Combine(Held(buckets, k), if k == key then report else Nothing)
  {
  }

  lemma HeldRest<K>(buckets: map<K, BucketValue>, gone: set<K>, k: K)
    ensures Held(buckets - gone, k) == if k in gone then Nothing else Held(buckets, k)
  {
  }

  lemma ReplaceConsistent(s: State, key: BucketKey, value: BucketValue)
    requires Consistent(s) && key in s.entries && value.Ty() == key.ty && Sound(value)
    ensures Consistent(s.(entries := s.entries[key := value]))
  {
    ReplaceAgrees(s, key, value);
  }

  lemma AddConsistent(s: State, key: BucketKey, value: BucketValue, flushAt: int)
    requires Consistent(s) && key !in s.entries && value.Ty() == key.ty && Sound(value)
    ensures Consistent(Table(s.entries[key := value], s.queue + multiset{Queued(flushAt, key)}))
  {
    AddAgrees(s, key, value, flushAt);
  }

  /** Merging a value of the key's type never fails and keeps the queue in line with the buckets. */
  lemma AbsorbConsistent(s: State, key: BucketKey, value: Mergeable, flushAt: Option<int>)
    requires Consistent(s) && value.Ty() == key.ty && Sound(value.ToBucketValue())
    requires key !in s.entries ==> flushAt.Some?
    ensures Absorb(s, key, value, flushAt).Some? && Consistent(Absorb(s, key, value, flushAt).value)
  {
    if key in s.entries {
      MergeIntoCombines(value, s.entries[key]);
      MergeIntoSound(value, s.entries[key]);
      ReplaceConsistent(s, key, value.MergeInto(s.entries[key]).value);
    } else {
      MergeIntoCombines(value, value.ToBucketValue());
      AddConsistent(s, key, value.ToBucketValue(), flushAt.value);
    }
  }

  /** The value that a bucket has after merging. */
  function NewValue(s: State, key: BucketKey, value: Mergeable): Option<BucketValue> {
    if key in s.entries then value.MergeInto(s.entries[key]) else Some(value.ToBucketValue())
  }

  lemma NewValueCombines(s: State, key: BucketKey, value: Mergeable)
    requires Typed(s.entries) && value.Ty() == key.ty && Sound(value.ToBucketValue())
    ensures NewValue(s, key, value).Some?
    ensures MeaningOf(NewValue(s, key, value).value) ==
              Combine(Held(s.entries, key), MeaningOf(value.ToBucketValue()))
  {
    if key in s.entries {
      MergeIntoCombines(value, s.entries[key]);
    }
  }

  lemma AbsorbIsNewValue(s: State, key: BucketKey, value: Mergeable, flushAt: Option<int>)
    requires (key !in s.entries ==> flushAt.Some?) && NewValue(s, key, value).Some?
    ensures Absorb(s, key, value, flushAt).Some?
    ensures Absorb(s, key, value, flushAt).value.entries == s.entries[key := NewValue(s, key, value).value]
  {
  }

  /** Merging adds the reported value to what is held for the key, and leaves all other keys alone. */
  lemma AbsorbCombines(s: State, key: BucketKey, value: Mergeable, flushAt: Option<int>, k: BucketKey)
    requires Consistent(s) && value.Ty() == key.ty && Sound(value.ToBucketValue())
    requires key !in s.entries ==> flushAt.Some?
    ensures Absorb(s, key, value, flushAt).Some?
    ensures Held(Absorb(s, key, value, flushAt).value.entries, k) ==
              Combine(Held(s.entries, k), if k == key then MeaningOf(value.ToBucketValue()) else Nothing)
  {
    NewValueCombines(s, key, value);
    AbsorbIsNewValue(s, key, value, flushAt);
    HeldCombines(s.entries, key, NewValue(s, key, value).value, MeaningOf(value.ToBucketValue()), k);
  }

  lemma DrainedConsistent(s: State, after: State, popped: seq<Queued<BucketKey>>)
    requires Consistent(s) && Drained(s, after, popped)
    ensures Consistent(after)
  {
    DrainedAgrees(s, after, popped);
  }

  /** Merging does not panic: the flush time of a new bucket can be computed. That of an existing one is not
      looked at. */
  predicate Schedulable(config: Config, s: State, key: BucketKey, clock: Clock) {
    key !in s.entries ==> FlushTime(config, key.timestamp, clock).Some?
  }

  function InsertMetric(config: Config, s: State, metric: Metric, clock: Clock): Option<State>
    requires config.bucketInterval > 0 && Schedulable(config, s, MetricKey(config, metric), clock)
  {
    var key := MetricKey(config, metric);
    Absorb(s, key, Single(metric.value), FlushTime(config, key.timestamp, clock))
  }

  function MergeBucket(config: Config, s: State, bucket: Bucket, clock: Clock): Option<State>
    requires Schedulable(config, s, bucket.Key(), clock)
  {
    Absorb(s, bucket.Key(), Aggregated(bucket.value), FlushTime(config, bucket.timestamp, clock))
  }

  /** None of the merges panics. */
  predicate AllSchedulable(config: Config, s: State, buckets: seq<Bucket>, clocks: seq<Clock>)
    decreases |buckets|, 0
  {
    && |buckets| == |clocks|
    && (buckets == [] ||
        var n := |buckets| - 1;
        && AllSchedulable(config, s, buckets[..n], clocks[..n])
        && var (t, ok) := MergeBuckets(config, s, buckets[..n], clocks[..n]);
           (ok ==> Schedulable(config, t, buckets[n].Key(), clocks[n])))
  }

  /** Merges buckets up to the first one that fails, and says whether there was none. */
  function MergeBuckets(config: Config, s: State, buckets: seq<Bucket>, clocks: seq<Clock>): (State, bool)
    requires AllSchedulable(config, s, buckets, clocks)
    decreases |buckets|, 1
  {
    if buckets == [] then (s, true) else
      var n := |buckets| - 1;
      var (t, ok) := MergeBuckets(config, s, buckets[..n], clocks[..n]);
      if !ok then (t, false) else
        match MergeBucket(config, t, buckets[n], clocks[n])
        case None => (t, false)
        case Some(u) => (u, true)
  }

  lemma {:induction false} SchedulablePrefix(config: Config, s: State, buckets: seq<Bucket>, clocks: seq<Clock>, i: nat)
    requires AllSchedulable(config, s, buckets, clocks) && i <= |buckets|
    ensures AllSchedulable(config, s, buckets[..i], clocks[..i])
  {
    var n := |buckets| - 1;
    if i == |buckets| {
      assert buckets[..i] == buckets && clocks[..i] == clocks;
    } else {
      assert buckets[..n][..i] == buckets[..i] && clocks[..n][..i] == clocks[..i];
      SchedulablePrefix(config, s, buckets[..n], clocks[..n], i);
    }
  }

  /** One more bucket is merged. */
  lemma MergeBucketsStep(config: Config, s: State, buckets: seq<Bucket>, clocks: seq<Clock>, i: nat)
    requires i < |buckets| == |clocks| && AllSchedulable(config, s, buckets[..i + 1], clocks[..i + 1])
    ensures AllSchedulable(config, s, buckets[..i], clocks[..i])
    ensures var (t, ok) := MergeBuckets(config, s, buckets[..i], clocks[..i]);
            ok ==>
              && Schedulable(config, t, buckets[i].Key(), clocks[i])
              && var r := MergeBucket(config, t, buckets[i], clocks[i]);
                 r.Some? ==> MergeBuckets(config, s, buckets[..i + 1], clocks[..i + 1]) == (r.value, true)
  {
    assert buckets[..i + 1][..i] == buckets[..i] && clocks[..i + 1][..i] == clocks[..i];
  }

  class Aggregator {
    const config: Config
    var buckets: Buckets
    var queue: multiset<Queued<BucketKey>>

    ghost function View(): State
      reads this
    {
      Table(buckets, queue)
    }

    ghost predicate Valid()
      reads this
    {
      config.bucketInterval > 0 && Consistent(View())
    }

    constructor (config: Config)
      requires config.bucketInterval > 0
      ensures Valid() && View() == INITIAL && this.config == config
    {
      this.config := config;
      buckets, queue := map[], multiset{};
    }

    /** Merges any mergeable value into the bucket at `key`, creating it if needed. It fails, and changes
        nothing, if there is a bucket whose type differs from that of the value. */
    method MergeIn(key: BucketKey, value: Mergeable, clock: Clock) returns (ok: bool)
      requires Valid() && Schedulable(config, View(), key, clock)
      modifies this
      ensures ok <==> key in old(buckets) ==> value.Ty() == key.ty
      ensures value.Ty() == key.ty && Sound(value.ToBucketValue()) ==> Valid()
      ensures queue == if key in old(buckets) then old(queue)
                       else old(queue) + multiset{Queued(FlushTime(config, key.timestamp, clock).value, key)}
      ensures forall k :: k in buckets <==> k in old(buckets) || k == key
      ensures var absorbed := Absorb(old(View()), key, value, FlushTime(config, key.timestamp, clock));
              if ok then absorbed == Some(View()) else absorbed == None && View() == old(View())
    {
      if value.Ty() == key.ty && Sound(value.ToBucketValue()) {
        AbsorbConsistent(View(), key, value, FlushTime(config, key.timestamp, clock));
      }
      if key in buckets {
        MergeIntoCombines(value, buckets[key]);
        var merged := value.MergeInto(buckets[key]);
        if merged.None? {
          return false;
        }
        buckets := buckets[key := merged.value];
      } else {
        var flushAt := FlushTime(config, key.timestamp, clock);
        queue := queue + multiset{Queued(flushAt.value, key)};
        buckets := buckets[key := value.ToBucketValue()];
      }
      return true;
    }

    method Insert(metric: Metric, clock: Clock) returns (ok: bool)
      requires Valid() && Schedulable(config, View(), MetricKey(config, metric), clock)
      modifies this
      ensures Valid() && ok
      ensures Some(View()) == InsertMetric(config, old(View()), metric, clock)
    {
      SingleSound(metric.value);
      ok := MergeIn(MetricKey(config, metric), Single(metric.value), clock);
    }

    method Merge(bucket: Bucket, clock: Clock) returns (ok: bool)
      requires Valid() && Sound(bucket.value) && Schedulable(config, View(), bucket.Key(), clock)
      modifies this
      ensures Valid() && ok
      ensures Some(View()) == MergeBucket(config, old(View()), bucket, clock)
    {
      ok := MergeIn(bucket.Key(), Aggregated(bucket.value), clock);
    }

    method MergeAll(incoming: seq<Bucket>, clocks: seq<Clock>) returns (ok: bool)
      requires Valid() && AllSchedulable(config, View(), incoming, clocks)
      requires forall i :: 0 <= i < |incoming| ==> Sound(incoming[i].value)
      modifies this
      ensures Valid() && ok
      ensures (View(), ok) == MergeBuckets(config, old(View()), incoming, clocks)
    {
      for i := 0 to |incoming|
        invariant Valid() && AllSchedulable(config, old(View()), incoming[..i], clocks[..i])
        invariant (View(), true) == MergeBuckets(config, old(View()), incoming[..i], clocks[..i])
      {
        SchedulablePrefix(config, old(View()), incoming, clocks, i + 1);
        MergeBucketsStep(config, old(View()), incoming, clocks, i);
        ok := Merge(incoming[i], clocks[i]);
        if !ok {
          return false;
        }
      }
      assert incoming[..|incoming|] == incoming && clocks[..|clocks|] == clocks;
      return true;
    }

    /** Takes all buckets that are due out of the aggregator. The i-th comparison with a flush time reads
        the instant `clock(i)`. */
    method TryFlush(clock: nat -> int) returns (flushed: seq<Bucket>, ghost popped: seq<Queued<BucketKey>>)
      requires Valid()
      modifies this
      ensures Valid() && Flush(old(View()), View(), popped, clock)
      ensures KeysOf(popped) <= old(buckets).Keys
      ensures flushed == ToBuckets(Emitted(old(View()), popped))
    {
      var parts;
      buckets, queue, parts, popped := PopDue(buckets, queue, clock);
      DrainedConsistent(old(View()), View(), popped);
      flushed := ToBuckets(parts);
    }
  }
}
