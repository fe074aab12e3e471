/** Runs of the aggregator beside its receiver (relay-metrics/src/aggregation.rs, `Aggregator::try_flush`):
    metrics and buckets arrive, due buckets are sent off, and a message that was sent is accepted, sent
    back in part or whole, or lost, while other messages are still under way. */
module FlushProtocol {
  import opened Wrappers
  import opened Metrics
  import opened BucketValues
  import opened Instants
  import opened FlushSchedule
  import opened FlushQueues
  import opened Aggregation
  import opened Tallies

  datatype Submission = Inserted(metric: Metric) | Merged(bucket: Bucket)

  datatype System = System(
    aggregator: State,
    inFlight: seq<seq<Bucket>>,
    delivered: seq<Bucket>,
    dropped: seq<Bucket>,
    submitted: seq<Submission>)

  datatype Event =
    | Insert(metric: Metric, clock: Clock)
    | Merge(bucket: Bucket, clock: Clock)
    | TryFlush(popped: seq<Queued<BucketKey>>, readings: nat -> int)
    | Accept(i: nat)
    | Reject(i: nat, returned: seq<Bucket>, kept: seq<Bucket>, clocks: seq<Clock>)
    | Drop(i: nat)

  function Initial(): System { System(INITIAL, [], [], [], []) }

  /** One step. A receiver that rejects a message returns some of its buckets, in any order, and keeps
      the others. A failing merge would lose the rest of the returned buckets. */
  ghost predicate Next(config: Config, s: System, s': System, e: Event)
    requires config.bucketInterval > 0
  {
    match e
    case Insert(metric, clock) =>
      && Schedulable(config, s.aggregator, MetricKey(config, metric), clock)
      && var r := InsertMetric(config, s.aggregator, metric, clock);
      && s' == s.(aggregator := if r.Some? then r.value else s.aggregator,
                  submitted := s.submitted + [Inserted(metric)])
    case Merge(bucket, clock) =>
      && Sound(bucket.value) && Schedulable(config, s.aggregator, bucket.Key(), clock)
      && var r := MergeBucket(config, s.aggregator, bucket, clock);
      && s' == s.(aggregator := if r.Some? then r.value else s.aggregator,
                  submitted := s.submitted + [Merged(bucket)])
    case TryFlush(popped, readings) =>
      && Flush(s.aggregator, s'.aggregator, popped, readings)
      && KeysOf(popped) <= s.aggregator.entries.Keys
      && s' == s.(aggregator := s'.aggregator,
                  inFlight := if popped == [] then s.inFlight
                              else s.inFlight + [ToBuckets(Emitted(s.aggregator, popped))])
    case Accept(i) =>
      && i < |s.inFlight|
      && s' == s.(inFlight := Without(s.inFlight, i), delivered := s.delivered + s.inFlight[i])
    case Reject(i, returned, kept, clocks) =>
      && i < |s.inFlight|
      && multiset(returned) + multiset(kept) == multiset(s.inFlight[i])
      && AllSchedulable(config, s.aggregator, returned, clocks)
      && s' == s.(aggregator := MergeBuckets(config, s.aggregator, returned, clocks).0,
                  inFlight := Without(s.inFlight, i), delivered := s.delivered + kept)
    case Drop(i) =>
      && i < |s.inFlight|
      && s' == s.(inFlight := Without(s.inFlight, i), dropped := s.dropped + s.inFlight[i])
  }

  // ----- What is accounted for -----------------------------------------------------------------

  function Flatten<T>(messages: seq<seq<T>>): seq<T> {
    if messages == [] then [] else Flatten(messages[..|messages| - 1]) + messages[|messages| - 1]
  }

  /** All buckets that have left the aggregator and have not come back. */
  function Released(s: System): seq<Bucket> {
    s.delivered + s.dropped + Flatten(s.inFlight)
  }

  /** The queue agrees with the map, and all distributions have the length that their counts say. */
  ghost predicate Healthy(s: System) {
    && Consistent(s.aggregator)
    && forall b :: b in Released(s) ==> Sound(b.value)
  }

  /** What a bucket contributes to a key. */
  function BucketReport(key: BucketKey): Bucket -> Meaning {
    (b: Bucket) => if b.Key() == key then MeaningOf(b.value) else Nothing
  }

  /** What a submission contributes to a key. */
  function SubmissionReport(config: Config, key: BucketKey): Submission -> Meaning
    requires config.bucketInterval > 0
  {
    (s: Submission) =>
      match s
      case Inserted(m) =>
        if MetricKey(config, m) == key then MeaningOf(Single(m.value).ToBucketValue()) else Nothing
      case Merged(b) => if b.Key() == key then MeaningOf(b.value) else Nothing
  }

  /** For a key, what was delivered, was dropped, is under way and is held adds up to what was submitted. */
  ghost predicate Conserved(config: Config, s: System, key: BucketKey)
    requires config.bucketInterval > 0
  {
    Same(Combine(Tally(Released(s), BucketReport(key)), Held(s.aggregator.entries, key)),
         Tally(s.submitted, SubmissionReport(config, key)))
  }

  // ----- Multisets of messages -----------------------------------------------------------------

  lemma {:induction false} FlattenWithout<T>(messages: seq<seq<T>>, i: nat)
    requires i < |messages|
    ensures multiset(Flatten(messages)) == multiset(Flatten(Without(messages, i))) + multiset(messages[i])
  {
    var n := |messages| - 1;
    if i == n {
      assert Without(messages, i) == messages[..n];
    } else {
      FlattenWithout(messages[..n], i);
      var rest := Without(messages, i);
      assert rest[..n - 1] == Without(messages[..n], i) && rest[n - 1] == messages[n];
    }
  }

  lemma SameMembers<T>(a: seq<T>, b: seq<T>)
    requires multiset(a) == multiset(b)
    ensures forall x :: x in a <==> x in b
  {
    assert forall x :: x in a <==> x in multiset(a);
    assert forall x :: x in b <==> x in multiset(b);
  }

  // ----- Conservation, operation by operation --------------------------------------------------

  lemma MergeBucketCombines(config: Config, s: State, b: Bucket, clock: Clock, key: BucketKey)
    requires Consistent(s) && Sound(b.value) && Schedulable(config, s, b.Key(), clock)
    ensures var r := MergeBucket(config, s, b, clock);
            && r.Some? && Consistent(r.value)
            && Held(r.value.entries, key) == Combine(Held(s.entries, key), BucketReport(key)(b))
  {
    var flushAt := FlushTime(config, b.timestamp, clock);
    AbsorbConsistent(s, b.Key(), Aggregated(b.value), flushAt);
    AbsorbCombines(s, b.Key(), Aggregated(b.value), flushAt, key);
  }

  /** Buckets that are merged back in are all merged, and are added to what is held. */
  lemma {:induction false} MergeBucketsCombines(config: Config, s: State, buckets: seq<Bucket>, clocks: seq<Clock>,
                                               key: BucketKey)
    requires Consistent(s) && AllSchedulable(config, s, buckets, clocks)
    requires forall i :: 0 <= i < |buckets| ==> Sound(buckets[i].value)
    ensures var (t, ok) := MergeBuckets(config, s, buckets, clocks);
            && ok && Consistent(t)
            && Held(t.entries, key) == Combine(Held(s.entries, key), Tally(buckets, BucketReport(key)))
  {
    if buckets != [] {
      var n := |buckets| - 1;
      assert buckets[..n + 1] == buckets && clocks[..n + 1] == clocks;
      MergeBucketsStep(config, s, buckets, clocks, n);
      MergeBucketsCombines(config, s, buckets[..n], clocks[..n], key);
      MergeBucketCombines(config, MergeBuckets(config, s, buckets[..n], clocks[..n]).0, buckets[n], clocks[n], key);
      CombineAssociative(Held(s.entries, key), Tally(buckets[..n], BucketReport(key)), BucketReport(key)(buckets[n]));
    }
  }

  /** What a map entry contributes to a key. */
  function PartReport(key: BucketKey): ((BucketKey, BucketValue)) -> Meaning {
    (p: (BucketKey, BucketValue)) => if p.0 == key then MeaningOf(p.1) else Nothing
  }

  /** A flushed bucket reports what was held for its key, which is rebuilt from it. */
  lemma ToBucketsTally(s: State, popped: seq<Queued<BucketKey>>, key: BucketKey)
    requires Typed(s.entries) && KeysOf(popped) <= s.entries.Keys
    ensures Tally(ToBuckets(Emitted(s, popped)), BucketReport(key)) == Tally(Emitted(s, popped), PartReport(key))
  {
    var parts := Emitted(s, popped);
    var buckets := ToBuckets(parts);
    EmittedParts(s, popped);
    forall i | 0 <= i < |parts|
      ensures PartReport(key)(parts[i]) == BucketReport(key)(buckets[i])
    {
      assert parts[i] in parts;
      KeyRoundTrip(parts[i].0, parts[i].1);
    }
    TallyMap(parts, buckets, PartReport(key), BucketReport(key));
  }

  lemma EmittedHeld(s: State, popped: seq<Queued<BucketKey>>, key: BucketKey)
    requires Typed(s.entries) && KeysOf(popped) <= s.entries.Keys && DistinctKeys(popped)
    ensures Tally(ToBuckets(Emitted(s, popped)), BucketReport(key)) ==
              if key in KeysOf(popped) then Held(s.entries, key) else Nothing
  {
    ToBucketsTally(s, popped, key);
    EmittedTally(s, popped, key, PartReport(key));
  }

  lemma SubmitConserves(released: Meaning, held: Meaning, submitted: Meaning, report: Meaning)
    requires Same(Combine(released, held), submitted)
    ensures Same(Combine(released, Combine(held, report)), Combine(submitted, report))
  {
    CombineAssociative(released, held, report);
    SameCombine(Combine(released, held), submitted, report, report);
  }

  /** Whether something counts as held or as released does not matter. */
  lemma MoveConserves(released: Meaning, moved: Meaning, held: Meaning, more: Meaning, less: Meaning)
    requires Same(more, Combine(released, moved)) && Same(less, Combine(moved, held))
    ensures Same(Combine(released, less), Combine(more, held))
    ensures Same(Combine(released, Combine(held, moved)), Combine(more, held))
  {
    CombineAssociative(released, moved, held);
    CombineCommutative(moved, held);
    SameCombine(released, released, less, Combine(moved, held));
    SameCombine(released, released, Combine(held, moved), Combine(moved, held));
    SameCombine(more, Combine(released, moved), held, held);
  }

  /** A value that is merged and logged as submitted is accounted for. */
  lemma SubmissionConserves(config: Config, s: System, s': System, key: BucketKey, k: BucketKey, value: Mergeable,
                            flushAt: Option<int>, x: Submission)
    requires config.bucketInterval > 0 && Healthy(s) && Conserved(config, s, key)
    requires value.Ty() == k.ty && Sound(value.ToBucketValue()) && (k !in s.aggregator.entries ==> flushAt.Some?)
    requires SubmissionReport(config, key)(x) == if k == key then MeaningOf(value.ToBucketValue()) else Nothing
    requires var r := Absorb(s.aggregator, k, value, flushAt);
             s' == s.(aggregator := if r.Some? then r.value else s.aggregator, submitted := s.submitted + [x])
    ensures Healthy(s') && Conserved(config, s', key)
  {
    var report := SubmissionReport(config, key);
    AbsorbConsistent(s.aggregator, k, value, flushAt);
    AbsorbCombines(s.aggregator, k, value, flushAt, key);
    assert s'.submitted[..|s.submitted|] == s.submitted;
    SubmitConserves(Tally(Released(s), BucketReport(key)), Held(s.aggregator.entries, key),
                    Tally(s.submitted, report), report(x));
  }

  /** Every step keeps the queue in line with the buckets and loses nothing. */
  lemma InsertConserves(config: Config, s: System, s': System, e: Event, key: BucketKey)
    requires config.bucketInterval > 0 && (e.Insert? || e.Merge?) && Next(config, s, s', e)
    requires Healthy(s) && Conserved(config, s, key)
    ensures Healthy(s') && Conserved(config, s', key)
  {
    match e
    case Insert(m, clock) =>
      var k := MetricKey(config, m);
      SingleSound(m.value);
      SubmissionConserves(config, s, s', key, k, Single(m.value), FlushTime(config, k.timestamp, clock), Inserted(m));
    case Merge(b, clock) =>
      SubmissionConserves(config, s, s', key, b.Key(), Aggregated(b.value), FlushTime(config, b.timestamp, clock), Merged(b));
  }

  /** What a flush emits was held before, and what is held afterwards is the rest. */
  lemma FlushMoves(s: State, after: State, popped: seq<Queued<BucketKey>>, key: BucketKey)
    requires Consistent(s) && Drained(s, after, popped) && KeysOf(popped) <= s.entries.Keys
    ensures Consistent(after)
    ensures Held(s.entries, key) ==
              Combine(Tally(ToBuckets(Emitted(s, popped)), BucketReport(key)), Held(after.entries, key))
  {
    DrainedConsistent(s, after, popped);
    PoppedDistinct(s, after, popped);
    EmittedHeld(s, popped, key);
    HeldRest(s.entries, KeysOf(popped), key);
  }

  /** All that is held can be flushed. */
  lemma FlushAllTally(s: State, after: State, popped: seq<Queued<BucketKey>>, key: BucketKey)
    requires Consistent(s) && Drained(s, after, popped) && KeysOf(popped) <= s.entries.Keys
    requires after.entries == map[]
    ensures Held(s.entries, key) == Tally(ToBuckets(Emitted(s, popped)), BucketReport(key))
  {
    PoppedDistinct(s, after, popped);
    EmittedHeld(s, popped, key);
    HeldRest(s.entries, KeysOf(popped), key);
  }

  lemma EmittedSound(s: State, popped: seq<Queued<BucketKey>>)
    requires Consistent(s) && KeysOf(popped) <= s.entries.Keys
    ensures forall b :: b in ToBuckets(Emitted(s, popped)) ==> Sound(b.value)
  {
    EmittedParts(s, popped);
    var parts := Emitted(s, popped);
    forall i | 0 <= i < |parts|
      ensures Sound(parts[i].1)
    {
      assert parts[i] in parts;
    }
  }

  lemma ReleasedBySend(s: System, s': System, message: seq<Bucket>)
    requires s'.delivered == s.delivered && s'.dropped == s.dropped
    requires s'.inFlight == if message == [] then s.inFlight else s.inFlight + [message]
    ensures Released(s') == Released(s) + message
  {
    if message != [] {
      assert s'.inFlight[..|s.inFlight|] == s.inFlight;
    }
  }

  /** A resolved message stays among what was released. */
  lemma ReleasedByResolve(s: System, s': System, i: nat)
    requires i < |s.inFlight| && s'.inFlight == Without(s.inFlight, i)
    requires (s'.delivered, s'.dropped) == (s.delivered + s.inFlight[i], s.dropped) ||
             (s'.delivered, s'.dropped) == (s.delivered, s.dropped + s.inFlight[i])
    ensures multiset(Released(s')) == multiset(Released(s))
    ensures forall b :: b in Released(s') <==> b in Released(s)
  {
    FlattenWithout(s.inFlight, i);
    assert multiset(Released(s')) == multiset(Released(s));
    SameMembers(Released(s'), Released(s));
  }

  /** What was released before a rejection are the returned buckets and what is released afterwards. */
  lemma ReleasedByReject(s: System, s': System, i: nat, returned: seq<Bucket>, kept: seq<Bucket>)
    requires i < |s.inFlight| && multiset(returned) + multiset(kept) == multiset(s.inFlight[i])
    requires s'.inFlight == Without(s.inFlight, i) && s'.delivered == s.delivered + kept && s'.dropped == s.dropped
    ensures multiset(Released(s') + returned) == multiset(Released(s))
    ensures forall b :: b in Released(s) <==> b in Released(s') || b in returned
  {
    FlattenWithout(s.inFlight, i);
    assert multiset(Released(s') + returned) == multiset(Released(s));
    SameMembers(Released(s') + returned, Released(s));
  }

  lemma FlushConserves(config: Config, s: System, s': System, e: Event, key: BucketKey)
    requires config.bucketInterval > 0 && e.TryFlush? && Next(config, s, s', e)
    requires Healthy(s) && Conserved(config, s, key)
    ensures Healthy(s') && Conserved(config, s', key)
  {
    FlushMoves(s.aggregator, s'.aggregator, e.popped, key);
    EmittedSound(s.aggregator, e.popped);
    var f := BucketReport(key);
    var emitted := ToBuckets(Emitted(s.aggregator, e.popped));
    ReleasedBySend(s, s', emitted);
    TallyConcat(Released(s), emitted, f);
    MoveConserves(Tally(Released(s), f), Tally(emitted, f), Held(s'.aggregator.entries, key),
                  Tally(Released(s'), f), Held(s.aggregator.entries, key));
  }

  lemma ResolveConserves(config: Config, s: System, s': System, e: Event, key: BucketKey)
    requires config.bucketInterval > 0 && (e.Accept? || e.Drop?) && Next(config, s, s', e)
    requires Healthy(s) && Conserved(config, s, key)
    ensures Healthy(s') && Conserved(config, s', key)
  {
    ReleasedByResolve(s, s', e.i);
    TallyPermutation(Released(s), Released(s'), BucketReport(key));
    SameCombine(Tally(Released(s), BucketReport(key)), Tally(Released(s'), BucketReport(key)),
                Held(s.aggregator.entries, key), Held(s.aggregator.entries, key));
  }

  lemma RejectConserves(config: Config, s: System, s': System, e: Event, key: BucketKey)
    requires config.bucketInterval > 0 && e.Reject? && Next(config, s, s', e)
    requires Healthy(s) && Conserved(config, s, key)
    ensures Healthy(s') && Conserved(config, s', key)
  {
    var f := BucketReport(key);
    ReleasedByReject(s, s', e.i, e.returned, e.kept);
    assert forall j :: 0 <= j < |e.returned| ==> e.returned[j] in e.returned;
    TallyPermutation(Released(s), Released(s') + e.returned, f);
    TallyConcat(Released(s'), e.returned, f);
    MergeBucketsCombines(config, s.aggregator, e.returned, e.clocks, key);
    MoveConserves(Tally(Released(s'), f), Tally(e.returned, f), Held(s.aggregator.entries, key),
                  Tally(Released(s), f), Combine(Tally(e.returned, f), Held(s.aggregator.entries, key)));
  }

  /** No merge of the step returns `AggregateMetricsError`. */
  ghost predicate Succeeds(config: Config, s: System, s': System, e: Event)
    requires config.bucketInterval > 0 && Next(config, s, s', e)
  {
    match e
    case Insert(metric, clock) => InsertMetric(config, s.aggregator, metric, clock).Some?
    case Merge(bucket, clock) => MergeBucket(config, s.aggregator, bucket, clock).Some?
    case Reject(_, returned, _, clocks) => MergeBuckets(config, s.aggregator, returned, clocks).1
    case _ => true
  }

  lemma NextSucceeds(config: Config, s: System, s': System, e: Event)
    requires config.bucketInterval > 0 && Next(config, s, s', e) && Healthy(s)
    ensures Succeeds(config, s, s', e)
  {
    match e
    case Insert(metric, clock) =>
      var key := MetricKey(config, metric);
      SingleSound(metric.value);
      AbsorbConsistent(s.aggregator, key, Single(metric.value), FlushTime(config, key.timestamp, clock));
    case Merge(b, clock) => MergeBucketCombines(config, s.aggregator, b, clock, b.Key());
    case Reject(i, returned, kept, clocks) =>
      ReleasedByReject(s, s', i, returned, kept);
      assert forall j :: 0 <= j < |returned| ==> returned[j] in returned;
      MergeBucketsCombines(config, s.aggregator, returned, clocks, BucketKey(0, "", Counter, NoUnit, map[]));
    case _ =>
  }

  /** Every step keeps the queue in line with the buckets and accounts for everything submitted. */
  lemma NextConserves(config: Config, s: System, s': System, e: Event, key: BucketKey)
    requires config.bucketInterval > 0 && Next(config, s, s', e)
    requires Healthy(s) && Conserved(config, s, key)
    ensures Healthy(s') && Conserved(config, s', key)
  {
    match e
    case TryFlush(_, _) => FlushConserves(config, s, s', e, key);
    case Reject(_, _, _, _) => RejectConserves(config, s, s', e, key);
    case Accept(_) => ResolveConserves(config, s, s', e, key);
    case Drop(_) => ResolveConserves(config, s, s', e, key);
    case _ => InsertConserves(config, s, s', e, key);
  }

  /** A run from the initial state to the last of `states`, one event for every step. */
  ghost predicate Run(config: Config, states: seq<System>, events: seq<Event>)
    requires config.bucketInterval > 0
  {
    var n := |events|;
    && |states| == n + 1
    && if n == 0 then states[0] == Initial()
       else Run(config, states[..n], events[..n - 1]) && Next(config, states[n - 1], states[n], events[n - 1])
  }

  /** Whatever arrives, is flushed, comes back or gets lost, and in whatever order: at the end of every run
      the queue and the buckets agree, and for every key all that was submitted is delivered, dropped,
      under way or held. */
  lemma {:induction false} RunConserves(config: Config, states: seq<System>, events: seq<Event>, key: BucketKey)
    requires config.bucketInterval > 0 && Run(config, states, events)
    ensures var s := states[|events|]; Healthy(s) && Conserved(config, s, key)
  {
    var n := |events|;
    if n > 0 {
      RunConserves(config, states[..n], events[..n - 1], key);
      NextConserves(config, states[n - 1], states[n], events[n - 1], key);
    }
  }

  /** No merge in any run fails, and nothing is dropped but by a failed send. */
  lemma {:induction false} RunSucceeds(config: Config, states: seq<System>, events: seq<Event>)
    requires config.bucketInterval > 0 && Run(config, states, events)
    ensures var n := |events|; n > 0 ==> Succeeds(config, states[n - 1], states[n], events[n - 1])
    ensures (forall e :: e in events ==> !e.Drop?) ==> states[|events|].dropped == []
  {
    var n := |events|;
    if n > 0 {
      RunConserves(config, states[..n], events[..n - 1], BucketKey(0, "", Counter, NoUnit, map[]));
      NextSucceeds(config, states[n - 1], states[n], events[n - 1]);
      RunSucceeds(config, states[..n], events[..n - 1]);
      assert forall e :: e in events[..n - 1] ==> e in events;
      assert events[n - 1] in events;
    }
  }
}
