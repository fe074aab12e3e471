/** When buckets are due (relay-metrics/src/aggregation.rs, `AggregatorConfig`, and
    relay-common/src/time.rs, `UnixTimestamp::to_instant`). */
module FlushSchedule {
  import opened Wrappers
  import opened Instants

  datatype MonotonicResult = Instant(at: int) | Past | Future

  function ToInstant(timestamp: nat, clock: Clock): MonotonicResult {
    var now := clock.UnixNow();
    if timestamp > now then
      var at := clock.instant + Seconds(timestamp - now);
      if at <= MAX_INSTANT then Instant(at) else Future
    else
      var at := clock.instant - Seconds(now - timestamp);
      if MIN_INSTANT <= at then Instant(at) else Past
  }

  datatype Config = Config(bucketInterval: nat, initialDelay: nat, debounceDelay: nat)

  function Debounced(config: Config, clock: Clock): Option<int> {
    CheckedAdd(clock.instant, Seconds(config.debounceDelay))
  }

  /** The instant at which a bucket should be flushed; `None` stands for the panic of an
      addition whose result cannot be represented. */
  function FlushTime(config: Config, timestamp: nat, clock: Clock): Option<int> {
    match ToInstant(timestamp, clock)
    case Instant(start) =>
      (match CheckedAdd(start, Seconds(config.bucketInterval))
       case None => None
       case Some(end) =>
         match CheckedAdd(end, Seconds(config.initialDelay))
         case None => None
         case Some(initialFlush) =>
           if initialFlush > clock.instant then Some(initialFlush) else Debounced(config, clock))
    case _ => Debounced(config, clock)
  }

  /** The initial flush of a bucket is still to come: its start can be represented as an instant, and its window and
      grace period have not passed. */
  predicate Pending(config: Config, timestamp: nat, clock: Clock) {
    var now := clock.UnixNow();
    var start := clock.instant + Seconds(timestamp - now);
    && (if timestamp > now then start <= MAX_INSTANT else MIN_INSTANT <= start)
    && timestamp + config.bucketInterval + config.initialDelay > now
  }

  /** A bucket is never scheduled into the past. A bucket whose window and grace period have not
      passed is due when they have, to within the second that the system clock's fraction adds; any
      other bucket is due after the debounce delay. */
  lemma FlushTimeSchedule(config: Config, timestamp: nat, clock: Clock)
    requires FlushTime(config, timestamp, clock).Some?
    ensures var at := FlushTime(config, timestamp, clock).value;
            var graceEnd := timestamp + config.bucketInterval + config.initialDelay;
            && clock.instant <= at <= MAX_INSTANT
            && (if Pending(config, timestamp, clock)
                then Seconds(graceEnd) <= clock.SystemTimeAt(at) < Seconds(graceEnd + 1)
                else clock.SystemTimeAt(at) == clock.system + Seconds(config.debounceDelay))
  {
    assert clock.system == Seconds(clock.UnixNow()) + clock.system % 1_000_000_000;
  }

  /** Scheduling panics exactly if the end of the window or of the grace period of a representable
      timestamp, or the debounce delay that replaces them, runs past the last instant. */
  lemma FlushTimePanics(config: Config, timestamp: nat, clock: Clock)
    requires MIN_INSTANT <= clock.instant <= MAX_INSTANT
    ensures var start := clock.instant + Seconds(timestamp - clock.UnixNow());
            var initialFlush := start + Seconds(config.bucketInterval + config.initialDelay);
            FlushTime(config, timestamp, clock).None? <==>
              if MIN_INSTANT <= start <= MAX_INSTANT && initialFlush > clock.instant
              then initialFlush > MAX_INSTANT
              else clock.instant + Seconds(config.debounceDelay) > MAX_INSTANT
  {
  }
}
