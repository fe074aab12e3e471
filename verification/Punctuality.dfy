/** When buckets leave the aggregator (relay-metrics/src/aggregation.rs, `Aggregator::merge_in` and `try_flush`): every
    queued flush time was computed when its bucket was created, and no bucket is emitted before it. */
module Punctuality {
  import opened Wrappers
  import opened Metrics
  import opened BucketValues
  import opened Instants
  import opened FlushSchedule
  import opened FlushQueues
  import opened Aggregation
  import opened Tallies
  import opened FlushProtocol

  /** The clock readings of an event at which buckets may be created. */
  function Readings(e: Event): seq<Clock> {
    match e
    case Insert(_, clock) => [clock]
    case Merge(_, clock) => [clock]
    case Reject(_, _, _, clocks) => clocks
    case _ => []
  }

  /** All clock readings of the events. */
  ghost predicate Read(events: seq<Event>, clock: Clock) {
    exists i :: 0 <= i < |events| && clock in Readings(events[i])
  }

  /** The flush time of the queue entry was computed at one of the readings. */
  ghost predicate ScheduledAt(config: Config, q: Queued<BucketKey>, clock: Clock) {
    FlushTime(config, q.key.timestamp, clock) == Some(q.flushAt)
  }

  ghost predicate Scheduled(config: Config, q: Queued<BucketKey>, events: seq<Event>) {
    exists clock :: Read(events, clock) && ScheduledAt(config, q, clock)
  }

  ghost predicate AllScheduled(config: Config, s: State, events: seq<Event>) {
    forall q :: q in s.queue ==> Scheduled(config, q, events)
  }

  /** Merging queues a new bucket with the given flush time, and changes nothing else in the queue. */
  lemma AbsorbQueues(s: State, key: BucketKey, value: Mergeable, flushAt: Option<int>)
    requires (key !in s.entries ==> flushAt.Some?) && Absorb(s, key, value, flushAt).Some?
    ensures Absorb(s, key, value, flushAt).value.queue ==
              if key in s.entries then s.queue else s.queue + multiset{Queued(flushAt.value, key)}
  {
  }

  lemma {:induction false} MergeBucketsQueues(config: Config, s: State, buckets: seq<Bucket>, clocks: seq<Clock>,
                                             q: Queued<BucketKey>)
    requires AllSchedulable(config, s, buckets, clocks) && q in MergeBuckets(config, s, buckets, clocks).0.queue
    ensures q in s.queue || exists clock :: clock in clocks && ScheduledAt(config, q, clock)
  {
    if buckets != [] {
      var n := |buckets| - 1;
      var (t, ok) := MergeBuckets(config, s, buckets[..n], clocks[..n]);
      var b := buckets[n];
      assert clocks[n] in clocks;
      if ok && MergeBucket(config, t, b, clocks[n]).Some? {
        AbsorbQueues(t, b.Key(), Aggregated(b.value), FlushTime(config, b.timestamp, clocks[n]));
      }
      if q in t.queue {
        MergeBucketsQueues(config, s, buckets[..n], clocks[..n], q);
        assert forall clock :: clock in clocks[..n] ==> clock in clocks;
      } else {
        assert ScheduledAt(config, q, clocks[n]);
      }
    }
  }

  lemma ReadEarlier(events: seq<Event>, clock: Clock)
    requires events != []
    ensures Read(events, clock) <==>
              Read(events[..|events| - 1], clock) || clock in Readings(events[|events| - 1])
  {
    var n := |events| - 1;
    assert forall i :: 0 <= i < n ==> events[..n][i] == events[i];
  }

  /** A new queue entry of a step was scheduled at a reading of its event. */
  lemma NextSchedules(config: Config, s: System, s': System, e: Event, q: Queued<BucketKey>)
    requires config.bucketInterval > 0 && Next(config, s, s', e) && q in s'.aggregator.queue
    ensures q in s.aggregator.queue || exists clock :: clock in Readings(e) && ScheduledAt(config, q, clock)
  {
    match e
    case Insert(metric, clock) =>
      var key := MetricKey(config, metric);
      if InsertMetric(config, s.aggregator, metric, clock).Some? {
        AbsorbQueues(s.aggregator, key, Single(metric.value), FlushTime(config, key.timestamp, clock));
      }
      assert clock in Readings(e);
    case Merge(b, clock) =>
      if MergeBucket(config, s.aggregator, b, clock).Some? {
        AbsorbQueues(s.aggregator, b.Key(), Aggregated(b.value), FlushTime(config, b.timestamp, clock));
      }
      assert clock in Readings(e);
    case Reject(_, returned, _, clocks) => MergeBucketsQueues(config, s.aggregator, returned, clocks, q);
    case _ =>
  }

  /** In every run, each queued flush time is the one that was computed at some clock reading of the run. */
  lemma {:induction false} RunSchedules(config: Config, states: seq<System>, events: seq<Event>)
    requires config.bucketInterval > 0 && Run(config, states, events)
    ensures AllScheduled(config, states[|events|].aggregator, events)
  {
    var n := |events| - 1;
    if n >= 0 {
      RunSchedules(config, states[..n + 1], events[..n]);
      forall q | q in states[n + 1].aggregator.queue
        ensures Scheduled(config, q, events)
      {
        NextSchedules(config, states[n], states[n + 1], events[n], q);
        if q in states[n].aggregator.queue {
          var clock :| Read(events[..n], clock) && ScheduledAt(config, q, clock);
          ReadEarlier(events, clock);
        } else {
          var clock :| clock in Readings(events[n]) && ScheduledAt(config, q, clock);
          ReadEarlier(events, clock);
        }
      }
    }
  }

  /** By the clock at which it was created, the bucket leaves after its window and grace period if they had not
      passed then, and otherwise after the debounce delay. */
  ghost predicate LeavesInTime(config: Config, key: BucketKey, clock: Clock, at: int) {
    if Pending(config, key.timestamp, clock)
    then Seconds(key.timestamp + config.bucketInterval + config.initialDelay) < clock.SystemTimeAt(at)
    else clock.system + Seconds(config.debounceDelay) < clock.SystemTimeAt(at)
  }

  /** In every run, no bucket is emitted too early: for the i-th bucket of a flush there is a clock reading of the run
      at which it was created, by which it leaves in time. */
  lemma EmittedInTime(config: Config, states: seq<System>, events: seq<Event>, i: nat) returns (clock: Clock)
    requires config.bucketInterval > 0 && Run(config, states, events) && events != []
    requires var e := events[|events| - 1]; e.TryFlush? && i < |e.popped|
    ensures var e := events[|events| - 1];
            && Read(events, clock) && ScheduledAt(config, e.popped[i], clock)
            && LeavesInTime(config, e.popped[i].key, clock, e.readings(i))
  {
    var n := |events| - 1;
    var e, s := events[n], states[n];
    RunSchedules(config, states[..n + 1], events[..n]);
    RunConserves(config, states[..n + 1], events[..n], e.popped[i].key);
    PoppedAreHeld(s.aggregator, states[n + 1].aggregator, e.popped);
    assert e.popped[i] in s.aggregator.queue;
    clock :| Read(events[..n], clock) && ScheduledAt(config, e.popped[i], clock);
    ReadEarlier(events, clock);
    FlushTimeSchedule(config, e.popped[i].key.timestamp, clock);
  }
}
