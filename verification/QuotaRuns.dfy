/** What counting against quotas guarantees over whole runs: no quota's limit is exceeded within a window. */
module QuotaRuns {
  import opened Wrappers
  import opened Instants
  import opened Quotas
  import opened RateLimits
  import opened RedisKeys
  import opened RedisLimiter

  // ----- When a call is limited ------------------------------------------------------------------------

  lemma AddedLimited(limits: seq<RateLimit>, limit: RateLimit, now: int)
    ensures IsLimited(Added(limits, limit), now) <==> IsLimited(limits, now) || limit.Active(now)
  {
    var r := Added(limits, limit);
    var i := Find(limits, Canonical(limit));
    if IsLimited(limits, now) {
      var j :| 0 <= j < |limits| && limits[j].Active(now);
      assert r[j].Active(now);
    }
    if limit.Active(now) {
      assert r[i].Active(now);
    }
    if IsLimited(r, now) {
      var j :| 0 <= j < |r| && r[j].Active(now);
      assert (j < |limits| && r[j] == limits[j]) || r[j] == Canonical(limit);
    }
  }

  lemma {:induction false} AddedAllLimited(limits: seq<RateLimit>, more: seq<RateLimit>, now: int)
    ensures IsLimited(AddedAll(limits, more), now) <==> IsLimited(limits, now) || IsLimited(more, now)
  {
    if more != [] {
      var n := |more| - 1;
      AddedAllLimited(limits, more[..n], now);
      AddedLimited(AddedAll(limits, more[..n]), more[n], now);
      if i :| 0 <= i < n && more[..n][i].Active(now) {
        assert more[i].Active(now);
      }
      if i :| 0 <= i < |more| && more[i].Active(now) {
        assert i < n ==> more[..n][i].Active(now);
      }
    }
  }

  /** The end of a limit for the given number of seconds can be represented. */
  predicate Representable(maxLimit: Option<nat>, now: int, seconds: nat) {
    now + Seconds(if maxLimit.Some? && maxLimit.value < seconds then maxLimit.value else seconds) <= MAX_INSTANT
  }

  /** The instant after the given number of seconds, or after the maximum limit if that is less; now if it cannot be
      represented. */
  function End(maxLimit: Option<nat>, now: int, seconds: nat): int {
    var end := now + Seconds(if maxLimit.Some? && maxLimit.value < seconds then maxLimit.value else seconds);
    if end <= MAX_INSTANT then end else now
  }

  lemma LimitEnds(maxLimit: Option<nat>, now: int, seconds: nat)
    ensures RetryAfter(now, Bounded(maxLimit, seconds)) == End(maxLimit, now, seconds)
  {
  }

  /** A limit lasts for its seconds, but no longer than the maximum limit, or not at all if its end cannot be
      represented. */
  lemma LimitsLast(maxLimit: Option<nat>, now: int, seconds: nat)
    ensures 0 <= RetryAfter(now, Bounded(maxLimit, seconds)) - now <= Seconds(Bounded(maxLimit, seconds))
    ensures Representable(maxLimit, now, seconds) ==>
              RetryAfter(now, Bounded(maxLimit, seconds)) == now + Seconds(Bounded(maxLimit, seconds))
    ensures now < RetryAfter(now, Bounded(maxLimit, seconds)) <==>
              seconds > 0 && maxLimit != Some(0) && Representable(maxLimit, now, seconds)
  {
  }

  ghost predicate SomeRejectsAll(quotas: seq<Quota>, item: ItemScoping) {
    exists i :: 0 <= i < |quotas| && RejectsAll(quotas[i], item)
  }

  lemma {:induction false} ZeroLimited(maxLimit: Option<nat>, quotas: seq<Quota>, item: ItemScoping, now: int)
    requires Representable(maxLimit, now, REJECT_ALL_SECS)
    ensures IsLimited(ZeroLimits(maxLimit, quotas, item, now), now) <==>
              maxLimit != Some(0) && SomeRejectsAll(quotas, item)
  {
    if quotas != [] {
      var n := |quotas| - 1;
      var init, all := ZeroLimits(maxLimit, quotas[..n], item, now), ZeroLimits(maxLimit, quotas, item, now);
      ZeroLimited(maxLimit, quotas[..n], item, now);
      LimitsLast(maxLimit, now, REJECT_ALL_SECS);
      if i :| 0 <= i < |init| && init[i].Active(now) {
        assert all[i].Active(now);
      }
      if i :| 0 <= i < |quotas[..n]| && RejectsAll(quotas[..n][i], item) {
        assert RejectsAll(quotas[i], item);
      }
      if i :| 0 <= i < |quotas| && RejectsAll(quotas[i], item) {
        assert i < n ==> RejectsAll(quotas[..n][i], item);
      }
      if RejectsAll(quotas[n], item) && maxLimit != Some(0) {
        assert all[|all| - 1].Active(now);
      }
    }
  }

  /** The ends of all limits can be represented. */
  predicate Durable(maxLimit: Option<nat>, tracked: seq<RedisQuota>, clock: Clock) {
    && Representable(maxLimit, clock.instant, REJECT_ALL_SECS)
    && forall i :: 0 <= i < |tracked| ==>
         && clock.UnixNow() < tracked[i].expiry
         && Representable(maxLimit, clock.instant, tracked[i].expiry - clock.UnixNow())
  }

  /** The limit for a tracked quota that was exceeded. */
  function ExceededLimit(maxLimit: Option<nat>, q: RedisQuota, item: ItemScoping, clock: Clock): RateLimit
    requires clock.UnixNow() <= q.expiry
  {
    FromQuota(q.quota, item.scoping, RetryAfter(clock.instant, Bounded(maxLimit, q.expiry - clock.UnixNow())))
  }

  lemma {:induction false} ExceededMembers(maxLimit: Option<nat>, store: Store, tracked: seq<RedisQuota>, item: ItemScoping,
                                          quantity: nat, clock: Clock, l: RateLimit)
    requires Ahead(tracked, clock.UnixNow())
    ensures l in ExceededLimits(maxLimit, store, tracked, item, quantity, clock) <==>
              exists i :: 0 <= i < |tracked| && Exceeds(store, tracked[i], quantity) &&
                          l == ExceededLimit(maxLimit, tracked[i], item, clock)
  {
    if tracked != [] {
      var n := |tracked| - 1;
      ExceededMembers(maxLimit, store, tracked[..n], item, quantity, clock, l);
      assert forall i :: 0 <= i < n ==> tracked[..n][i] == tracked[i];
    }
  }

  /** Whether the limit for an exceeded quota lasts at all. */
  lemma ExceededLasts(maxLimit: Option<nat>, q: RedisQuota, item: ItemScoping, clock: Clock)
    requires clock.UnixNow() < q.expiry
    ensures ExceededLimit(maxLimit, q, item, clock).Active(clock.instant) <==>
              maxLimit != Some(0) && Representable(maxLimit, clock.instant, q.expiry - clock.UnixNow())
  {
    LimitsLast(maxLimit, clock.instant, q.expiry - clock.UnixNow());
  }

  lemma ExceededLimited(maxLimit: Option<nat>, store: Store, tracked: seq<RedisQuota>, item: ItemScoping, quantity: nat,
                        clock: Clock)
    requires Ahead(tracked, clock.UnixNow()) && Durable(maxLimit, tracked, clock)
    ensures IsLimited(ExceededLimits(maxLimit, store, tracked, item, quantity, clock), clock.instant) <==>
              maxLimit != Some(0) && AnyExceeds(store, tracked, quantity)
  {
    var limits, now := ExceededLimits(maxLimit, store, tracked, item, quantity, clock), clock.instant;
    if k :| 0 <= k < |limits| && limits[k].Active(now) {
      assert limits[k] in limits;
      ExceededMembers(maxLimit, store, tracked, item, quantity, clock, limits[k]);
      var i :| 0 <= i < |tracked| && Exceeds(store, tracked[i], quantity) &&
               limits[k] == ExceededLimit(maxLimit, tracked[i], item, clock);
      ExceededLasts(maxLimit, tracked[i], item, clock);
    }
    if i :| 0 <= i < |tracked| && Exceeds(store, tracked[i], quantity) {
      var limit := ExceededLimit(maxLimit, tracked[i], item, clock);
      ExceededMembers(maxLimit, store, tracked, item, quantity, clock, limit);
      ExceededLasts(maxLimit, tracked[i], item, clock);
    }
  }

  /** The item may pass: no quota rejects it statically, and it exceeds no tracked quota. */
  ghost predicate Passes(store: Store, quotas: seq<Quota>, item: ItemScoping, quantity: nat, timestamp: nat)
    requires WindowsValid(quotas, item, timestamp)
  {
    !SomeRejectsAll(quotas, item) && !AnyExceeds(store, Tracked(quotas, item, timestamp), quantity)
  }

  /** The number that is stored under a key. */
  function Stored(store: Store, key: string): int {
    match if key in store then Some(store[key].value) else None
    case Some(n) => n
    case None => 0
  }

  /** The item passes exactly if no applicable quota has a limit of zero, and for every tracked quota with a limit what
      was counted, less what was refunded, and the item's quantity stay within it. */
  lemma PassesIff(store: Store, quotas: seq<Quota>, item: ItemScoping, quantity: nat, timestamp: nat)
    requires WindowsValid(quotas, item, timestamp)
    ensures Passes(store, quotas, item, quantity, timestamp) <==>
              && (forall i :: 0 <= i < |quotas| && quotas[i].Matches(item) ==> quotas[i].limit != Some(0))
              && (forall r :: r in Tracked(quotas, item, timestamp) && r.quota.limit.Some? ==>
                    Stored(store, r.key) - Stored(store, "r:" + r.key) + quantity <= r.quota.limit.value)
  {
    var tracked := Tracked(quotas, item, timestamp);
    assert forall r :: r in tracked ==> exists i :: 0 <= i < |tracked| && tracked[i] == r;
    assert forall i :: 0 <= i < |tracked| ==> tracked[i] in tracked;
    forall r | r in tracked
      ensures Exceeds(store, r, quantity) <==>
                r.quota.limit.Some? &&
                Stored(store, r.key) - Stored(store, "r:" + r.key) + quantity > r.quota.limit.value
    {
    }
  }

  /** All or nothing: a call is limited exactly if some quota does not let the item pass and the maximum limit is not
      zero. Either no counter changes, or the item counts against all tracked quotas: namely if it passes, or, with
      a maximum limit of zero, if it exceeds no tracked quota. */
  lemma AllOrNothing(maxLimit: Option<nat>, store: Store, quotas: seq<Quota>, item: ItemScoping, quantity: nat, clock: Clock)
    requires WindowsValid(quotas, item, clock.UnixNow())
    requires Durable(maxLimit, Tracked(quotas, item, clock.UnixNow()), clock)
    ensures var d, tracked := Decide(maxLimit, store, quotas, item, quantity, clock), Tracked(quotas, item, clock.UnixNow());
            var passes := Passes(store, quotas, item, quantity, clock.UnixNow());
            && (IsLimited(d.limits, clock.instant) <==> maxLimit != Some(0) && !passes)
            && d.store == if passes || (maxLimit == Some(0) && !AnyExceeds(store, tracked, quantity))
                          then Counted(store, tracked, quantity) else store
  {
    var tracked := Tracked(quotas, item, clock.UnixNow());
    var zeros := ZeroLimits(maxLimit, quotas, item, clock.instant);
    ExpiriesAhead(quotas, item, clock.UnixNow());
    ZeroLimited(maxLimit, quotas, item, clock.instant);
    AddedAllLimited([], zeros, clock.instant);
    ExceededLimited(maxLimit, store, tracked, item, quantity, clock);
    AddedAllLimited(AddedAll([], zeros), ExceededLimits(maxLimit, store, tracked, item, quantity, clock), clock.instant);
  }

  /** The limit for a quota that rejects an item statically. */
  function ZeroLimit(maxLimit: Option<nat>, q: Quota, item: ItemScoping, now: int): RateLimit {
    FromQuota(q, item.scoping, RetryAfter(now, Bounded(maxLimit, REJECT_ALL_SECS)))
  }

  lemma {:induction false} ZeroMembers(maxLimit: Option<nat>, quotas: seq<Quota>, item: ItemScoping, now: int, l: RateLimit)
    ensures l in ZeroLimits(maxLimit, quotas, item, now) <==>
              exists q :: q in quotas && RejectsAll(q, item) && l == ZeroLimit(maxLimit, q, item, now)
  {
    if quotas != [] {
      var n := |quotas| - 1;
      ZeroMembers(maxLimit, quotas[..n], item, now, l);
      assert forall q :: q in quotas <==> q in quotas[..n] || q == quotas[n];
    }
  }

  /** The quota rejects the item, statically or because its counter is used up. */
  ghost predicate Rejects(store: Store, quotas: seq<Quota>, item: ItemScoping, quantity: nat, timestamp: nat, q: Quota)
    requires WindowsValid(quotas, item, timestamp)
  {
    && q in quotas
    && (RejectsAll(q, item) ||
        exists r :: r in Tracked(quotas, item, timestamp) && r.quota == q && Exceeds(store, r, quantity))
  }

  /** The number of seconds for which the quota may reject: those of a static rejection, or its window. */
  function Span(q: Quota): nat {
    if q.limit == Some(0) then REJECT_ALL_SECS else if q.window.Some? then q.window.value else 0
  }

  /** The limit is that of the given quota, and lasts no longer than the quota may reject and no longer than the
      maximum limit. */
  ghost predicate LimitOf(maxLimit: Option<nat>, q: Quota, item: ItemScoping, now: int, l: RateLimit) {
    && l == Canonical(FromQuota(q, item.scoping, l.retryAfter))
    && 0 <= l.retryAfter - now <= Seconds(Span(q))
    && (maxLimit.Some? ==> l.retryAfter - now <= Seconds(maxLimit.value))
  }

  lemma ZeroLimitOf(maxLimit: Option<nat>, q: Quota, item: ItemScoping, now: int)
    requires RejectsAll(q, item)
    ensures LimitOf(maxLimit, q, item, now, Canonical(ZeroLimit(maxLimit, q, item, now)))
  {
    LimitsLast(maxLimit, now, REJECT_ALL_SECS);
  }

  lemma ExceededLimitOf(maxLimit: Option<nat>, quotas: seq<Quota>, item: ItemScoping, clock: Clock, i: nat)
    requires WindowsValid(quotas, item, clock.UnixNow()) && i < |Tracked(quotas, item, clock.UnixNow())|
    ensures var q := Tracked(quotas, item, clock.UnixNow())[i];
            && clock.UnixNow() <= q.expiry
            && LimitOf(maxLimit, q.quota, item, clock.instant, Canonical(ExceededLimit(maxLimit, q, item, clock)))
  {
    var q := Tracked(quotas, item, clock.UnixNow())[i];
    TrackedProperties(quotas, item, clock.UnixNow(), i);
    LimitsLast(maxLimit, clock.instant, q.expiry - clock.UnixNow());
  }

  ghost predicate IsZeroLimit(maxLimit: Option<nat>, quotas: seq<Quota>, item: ItemScoping, now: int, l: RateLimit) {
    exists q :: q in quotas && RejectsAll(q, item) && l == Canonical(ZeroLimit(maxLimit, q, item, now))
  }

  ghost predicate IsExceededLimit(maxLimit: Option<nat>, store: Store, tracked: seq<RedisQuota>, item: ItemScoping,
                                  quantity: nat, clock: Clock, l: RateLimit)
    requires Ahead(tracked, clock.UnixNow())
  {
    exists i :: 0 <= i < |tracked| && Exceeds(store, tracked[i], quantity) &&
                l == Canonical(ExceededLimit(maxLimit, tracked[i], item, clock))
  }

  lemma ZeroFrom(maxLimit: Option<nat>, quotas: seq<Quota>, item: ItemScoping, now: int, l: RateLimit)
    requires l in AddedAll([], ZeroLimits(maxLimit, quotas, item, now))
    ensures IsZeroLimit(maxLimit, quotas, item, now, l)
  {
    var zeros := ZeroLimits(maxLimit, quotas, item, now);
    AddedAllFrom([], zeros, l);
    var m :| m in zeros && l == Canonical(m);
    ZeroMembers(maxLimit, quotas, item, now, m);
  }

  lemma ExceededFrom(maxLimit: Option<nat>, store: Store, tracked: seq<RedisQuota>, item: ItemScoping, quantity: nat,
                     clock: Clock, zero: seq<RateLimit>, l: RateLimit)
    requires Ahead(tracked, clock.UnixNow())
    requires l in AddedAll(zero, ExceededLimits(maxLimit, store, tracked, item, quantity, clock)) && l !in zero
    ensures IsExceededLimit(maxLimit, store, tracked, item, quantity, clock, l)
  {
    var exceeded := ExceededLimits(maxLimit, store, tracked, item, quantity, clock);
    AddedAllFrom(zero, exceeded, l);
    var m :| m in exceeded && l == Canonical(m);
    ExceededMembers(maxLimit, store, tracked, item, quantity, clock, m);
    var i :| 0 <= i < |tracked| && Exceeds(store, tracked[i], quantity) &&
             m == ExceededLimit(maxLimit, tracked[i], item, clock);
    assert l == Canonical(ExceededLimit(maxLimit, tracked[i], item, clock));
  }

  /** Every returned limit is one for a static rejection or for an exceeded quota. */
  lemma LimitIsZeroOrExceeded(maxLimit: Option<nat>, store: Store, quotas: seq<Quota>, item: ItemScoping, quantity: nat,
                              clock: Clock, l: RateLimit)
    requires WindowsValid(quotas, item, clock.UnixNow())
    requires l in Decide(maxLimit, store, quotas, item, quantity, clock).limits
    ensures var tracked := Tracked(quotas, item, clock.UnixNow());
            && Ahead(tracked, clock.UnixNow())
            && (IsZeroLimit(maxLimit, quotas, item, clock.instant, l) ||
                IsExceededLimit(maxLimit, store, tracked, item, quantity, clock, l))
  {
    var tracked := Tracked(quotas, item, clock.UnixNow());
    var zero := AddedAll([], ZeroLimits(maxLimit, quotas, item, clock.instant));
    ExpiriesAhead(quotas, item, clock.UnixNow());
    if l in zero {
      ZeroFrom(maxLimit, quotas, item, clock.instant, l);
    } else {
      ExceededFrom(maxLimit, store, tracked, item, quantity, clock, zero, l);
    }
  }

  /** Every returned limit is that of a quota which rejects the item, and lasts no longer than this quota may reject
      and no longer than the maximum limit. */
  lemma LimitsAreDeserved(maxLimit: Option<nat>, store: Store, quotas: seq<Quota>, item: ItemScoping, quantity: nat,
                          clock: Clock, l: RateLimit)
    requires WindowsValid(quotas, item, clock.UnixNow())
    requires l in Decide(maxLimit, store, quotas, item, quantity, clock).limits
    ensures exists q :: Rejects(store, quotas, item, quantity, clock.UnixNow(), q) &&
                        LimitOf(maxLimit, q, item, clock.instant, l)
  {
    var tracked := Tracked(quotas, item, clock.UnixNow());
    LimitIsZeroOrExceeded(maxLimit, store, quotas, item, quantity, clock, l);
    if IsZeroLimit(maxLimit, quotas, item, clock.instant, l) {
      var q :| q in quotas && RejectsAll(q, item) && l == Canonical(ZeroLimit(maxLimit, q, item, clock.instant));
      ZeroLimitOf(maxLimit, q, item, clock.instant);
      assert Rejects(store, quotas, item, quantity, clock.UnixNow(), q);
    } else {
      var i :| 0 <= i < |tracked| && Exceeds(store, tracked[i], quantity) &&
               l == Canonical(ExceededLimit(maxLimit, tracked[i], item, clock));
      TrackedProperties(quotas, item, clock.UnixNow(), i);
      ExceededLimitOf(maxLimit, quotas, item, clock, i);
      assert tracked[i] in tracked;
      assert Rejects(store, quotas, item, quantity, clock.UnixNow(), tracked[i].quota);
    }
  }

  /** Unless the maximum limit is zero or an end cannot be represented, every returned limit lasts for a positive
      time, which is no longer than the window of the rejecting quota, or 60 seconds for a static rejection, and no
      longer than the maximum limit. */
  lemma DelayBounds(maxLimit: Option<nat>, store: Store, quotas: seq<Quota>, item: ItemScoping, quantity: nat,
                    clock: Clock, l: RateLimit)
    requires WindowsValid(quotas, item, clock.UnixNow())
    requires maxLimit != Some(0) && Durable(maxLimit, Tracked(quotas, item, clock.UnixNow()), clock)
    requires l in Decide(maxLimit, store, quotas, item, quantity, clock).limits
    ensures l.retryAfter > clock.instant
    ensures maxLimit.Some? ==> l.retryAfter - clock.instant <= Seconds(maxLimit.value)
    ensures exists q :: Rejects(store, quotas, item, quantity, clock.UnixNow(), q) &&
                        (q.limit == Some(0) || q.window.Some?) &&
                        l.retryAfter - clock.instant <= Seconds(if q.limit == Some(0) then 60 else q.window.value)
  {
    var tracked := Tracked(quotas, item, clock.UnixNow());
    LimitsAreDeserved(maxLimit, store, quotas, item, quantity, clock, l);
    LimitIsZeroOrExceeded(maxLimit, store, quotas, item, quantity, clock, l);
    LimitsLast(maxLimit, clock.instant, REJECT_ALL_SECS);
    if IsExceededLimit(maxLimit, store, tracked, item, quantity, clock, l) {
      var i :| 0 <= i < |tracked| && Exceeds(store, tracked[i], quantity) &&
               l == Canonical(ExceededLimit(maxLimit, tracked[i], item, clock));
      ExceededLasts(maxLimit, tracked[i], item, clock);
    }
  }

  lemma RejectionIsCovered(maxLimit: Option<nat>, store: Store, quotas: seq<Quota>, item: ItemScoping, quantity: nat,
                           clock: Clock, i: nat)
    requires WindowsValid(quotas, item, clock.UnixNow())
    requires !IsLimited(AddedAll([], ZeroLimits(maxLimit, quotas, item, clock.instant)), clock.instant)
    requires var tracked := Tracked(quotas, item, clock.UnixNow());
             i < |tracked| && Exceeds(store, tracked[i], quantity)
    ensures var q := Tracked(quotas, item, clock.UnixNow())[i];
            && clock.UnixNow() < q.expiry
            && Covers(Decide(maxLimit, store, quotas, item, quantity, clock).limits,
                      ExceededLimit(maxLimit, q, item, clock))
  {
    var tracked := Tracked(quotas, item, clock.UnixNow());
    TrackedProperties(quotas, item, clock.UnixNow(), i);
    ExpiriesAhead(quotas, item, clock.UnixNow());
    var limit := ExceededLimit(maxLimit, tracked[i], item, clock);
    ExceededMembers(maxLimit, store, tracked, item, quantity, clock, limit);
    AddedAllCovers(AddedAll([], ZeroLimits(maxLimit, quotas, item, clock.instant)),
                   ExceededLimits(maxLimit, store, tracked, item, quantity, clock), limit);
  }

  /** Some limit for the categories of a quota and its scope for the item lasts until the given instant. */
  ghost predicate Blocks(limits: seq<RateLimit>, q: Quota, item: ItemScoping, until: int) {
    exists l :: l in limits && until <= l.retryAfter &&
                l.categories == Sort(q.categories) && l.scope == ScopeFor(item.scoping, q.scope)
  }

  /** Every rejection is attributed to its own quota: unless a static rejection came first, each exceeded quota
      has a limit for its categories and scope that lasts to the end of its window, or for the maximum limit if that
      is less, provided that this end can be represented. */
  lemma RejectionsAreAttributed(maxLimit: Option<nat>, store: Store, quotas: seq<Quota>, item: ItemScoping, quantity: nat,
                                clock: Clock, i: nat)
    requires WindowsValid(quotas, item, clock.UnixNow())
    requires !IsLimited(AddedAll([], ZeroLimits(maxLimit, quotas, item, clock.instant)), clock.instant)
    requires var tracked := Tracked(quotas, item, clock.UnixNow());
             i < |tracked| && Exceeds(store, tracked[i], quantity)
    ensures var q := Tracked(quotas, item, clock.UnixNow())[i];
            && clock.UnixNow() < q.expiry
            && Blocks(Decide(maxLimit, store, quotas, item, quantity, clock).limits, q.quota, item,
                      End(maxLimit, clock.instant, q.expiry - clock.UnixNow()))
  {
    var q := Tracked(quotas, item, clock.UnixNow())[i];
    RejectionIsCovered(maxLimit, store, quotas, item, quantity, clock, i);
    LimitEnds(maxLimit, clock.instant, q.expiry - clock.UnixNow());
    CoveredBlocks(Decide(maxLimit, store, quotas, item, quantity, clock).limits, q.quota, item,
                  End(maxLimit, clock.instant, q.expiry - clock.UnixNow()));
  }

  /** Each quota of zero that applies has a limit for its categories and scope that lasts for a minute, or for the
      maximum limit if that is less, provided that this end can be represented. */
  lemma ZeroQuotasBlock(maxLimit: Option<nat>, store: Store, quotas: seq<Quota>, item: ItemScoping, quantity: nat,
                        clock: Clock, q: Quota)
    requires WindowsValid(quotas, item, clock.UnixNow()) && q in quotas && q.limit == Some(0) && q.Matches(item)
    ensures Blocks(Decide(maxLimit, store, quotas, item, quantity, clock).limits, q, item,
                   End(maxLimit, clock.instant, 60))
  {
    var zeros, limit := ZeroLimits(maxLimit, quotas, item, clock.instant), ZeroLimit(maxLimit, q, item, clock.instant);
    ZeroMembers(maxLimit, quotas, item, clock.instant, limit);
    AddedAllCovers([], zeros, limit);
    ExpiriesAhead(quotas, item, clock.UnixNow());
    AddedAllCovers(AddedAll([], zeros),
                   ExceededLimits(maxLimit, store, Tracked(quotas, item, clock.UnixNow()), item, quantity, clock), limit);
    LimitEnds(maxLimit, clock.instant, REJECT_ALL_SECS);
    CoveredBlocks(Decide(maxLimit, store, quotas, item, quantity, clock).limits, q, item, End(maxLimit, clock.instant, 60));
  }

  lemma CoveredBlocks(limits: seq<RateLimit>, q: Quota, item: ItemScoping, until: int)
    requires Covers(limits, FromQuota(q, item.scoping, until))
    ensures Blocks(limits, q, item, until)
  {
  }

  lemma {:induction false} CountedGrows(store: Store, tracked: seq<RedisQuota>, quantity: nat, key: string)
    ensures Counter(Counted(store, tracked, quantity), key) >= Counter(store, key)
  {
    if tracked != [] {
      CountedGrows(store, tracked[..|tracked| - 1], quantity, key);
    }
  }

  /** A quota of zero that applies to the item keeps all counters unchanged, except that with a maximum limit
      of zero it is forgotten at once, and the item counts against all other quotas that let it pass. */
  lemma ZeroQuotaCountsNothing(maxLimit: Option<nat>, store: Store, quotas: seq<Quota>, item: ItemScoping, quantity: nat,
                               clock: Clock)
    requires WindowsValid(quotas, item, clock.UnixNow()) && Representable(maxLimit, clock.instant, REJECT_ALL_SECS)
    requires SomeRejectsAll(quotas, item) && quantity > 0
    ensures var tracked := Tracked(quotas, item, clock.UnixNow());
            Decide(maxLimit, store, quotas, item, quantity, clock).store == store <==>
              maxLimit != Some(0) || tracked == [] || AnyExceeds(store, tracked, quantity)
  {
    var tracked := Tracked(quotas, item, clock.UnixNow());
    ZeroLimited(maxLimit, quotas, item, clock.instant);
    AddedAllLimited([], ZeroLimits(maxLimit, quotas, item, clock.instant), clock.instant);
    if tracked != [] {
      var n := |tracked| - 1;
      CountedGrows(store, tracked[..n], quantity, tracked[n].key);
      assert Counter(Counted(store, tracked, quantity), tracked[n].key) > Counter(store, tracked[n].key);
    }
  }

  // ----- Runs --------------------------------------------------------------------------------------------

  /** A call of the rate limiter. Callers pass their own quotas, and may be configured differently. */
  datatype Call = Call(maxLimit: Option<nat>, quotas: seq<Quota>, item: ItemScoping, quantity: nat, clock: Clock) {
    function Timestamp(): nat { clock.UnixNow() }

    predicate Valid() {
      maxLimit != Some(0) && WindowsValid(quotas, item, Timestamp()) && Durable(maxLimit, Tracks(), clock)
    }

    function Tracks(): seq<RedisQuota>
      requires WindowsValid(quotas, item, Timestamp())
    {
      Tracked(quotas, item, Timestamp())
    }

    function Decided(store: Store): Decision
      requires Valid()
    {
      Decide(maxLimit, store, quotas, item, quantity, clock)
    }
  }

  /** Items arrive, and Redis discards counters that have expired by its own clock. */
  datatype Event = Arrive(call: Call) | Discard(key: string, time: nat)

  /** The store, the time by which Redis last discarded a counter, and a ledger of everything that was accepted,
      per counter. */
  datatype World = World(store: Store, discarded: nat, ledger: Store)

  /** The clocks of the callers need not agree, but none of them is more than a minute behind the clock of Redis. */
  ghost predicate Enabled(w: World, e: Event) {
    match e
    case Arrive(call) => call.Valid() && w.discarded <= call.Timestamp() + 60
    case Discard(key, time) => w.discarded <= time && key in w.store && w.store[key].expireAt <= time
  }

  /** Whether the caller is told to accept the item. */
  ghost predicate Accepts(w: World, call: Call)
    requires call.Valid()
  {
    !IsLimited(call.Decided(w.store).limits, call.clock.instant)
  }

  ghost function Next(w: World, e: Event): World
    requires Enabled(w, e)
  {
    match e
    case Arrive(call) =>
      World(call.Decided(w.store).store, w.discarded,
            if Accepts(w, call) then Counted(w.ledger, call.Tracks(), call.quantity) else w.ledger)
    case Discard(key, time) => w.(store := w.store - {key}, discarded := time)
  }

  ghost predicate ValidRun(events: seq<Event>)
    decreases |events|, 0
  {
    events == [] ||
    (var n := |events| - 1; ValidRun(events[..n]) && Enabled(RunWorld(events[..n]), events[n]))
  }

  ghost function RunWorld(events: seq<Event>): World
    requires ValidRun(events)
    decreases |events|, 1
  {
    if events == [] then World(map[], 0, map[]) else
      var n := |events| - 1;
      Next(RunWorld(events[..n]), events[n])
  }

  // ----- One counter ---------------------------------------------------------------------------------------

  lemma {:induction false} CountedOther(store: Store, tracked: seq<RedisQuota>, quantity: nat, key: string)
    requires forall i :: 0 <= i < |tracked| ==> tracked[i].key != key
    ensures key in Counted(store, tracked, quantity) <==> key in store
    ensures key in store ==> Counted(store, tracked, quantity)[key] == store[key]
  {
    if tracked != [] {
      CountedOther(store, tracked[..|tracked| - 1], quantity, key);
    }
  }

  lemma {:induction false} CountedAt(store: Store, tracked: seq<RedisQuota>, quantity: nat, i: nat)
    requires i < |tracked| && forall j :: 0 <= j < |tracked| && j != i ==> tracked[j].key != tracked[i].key
    ensures var key := tracked[i].key;
            && key in Counted(store, tracked, quantity)
            && Counted(store, tracked, quantity)[key] == Entry(Counter(store, key) + quantity, tracked[i].expiry + GRACE)
  {
    var n := |tracked| - 1;
    if i == n {
      CountedOther(store, tracked[..n], quantity, tracked[n].key);
    } else {
      CountedAt(store, tracked[..n], quantity, i);
    }
  }

  /** Only counters are ever written. */
  ghost predicate OnlyCounters(store: Store) {
    forall key :: key in store ==> key != "" && key[0] == 'q'
  }

  lemma CallCountsCounters(call: Call, store: Store)
    requires OnlyCounters(store) && WindowsValid(call.quotas, call.item, call.Timestamp())
    ensures OnlyCounters(Counted(store, call.Tracks(), call.quantity))
  {
    var tracked := call.Tracks();
    forall key | key in Counted(store, tracked, call.quantity)
      ensures key != "" && key[0] == 'q'
    {
      if i :| 0 <= i < |tracked| && tracked[i].key == key {
        TrackedProperties(call.quotas, call.item, call.Timestamp(), i);
        var q := tracked[i].quota;
        RefundKeysDiffer(q.id.value, call.item.scoping.organizationId, QuotaSubscope(q, call.item),
                         QuotaSlot(q, call.item, call.Timestamp()), key);
      } else {
        CountedOther(store, tracked, call.quantity, key);
      }
    }
  }

  /** The call counts at most once against the key, and then within the given limit and for a window with the given
      end. */
  ghost predicate CountsWithin(call: Call, key: string, limit: nat, ends: nat)
    requires WindowsValid(call.quotas, call.item, call.Timestamp())
  {
    var tracked := call.Tracks();
    && (forall i :: 0 <= i < |tracked| && tracked[i].key == key ==>
          tracked[i].expiry == ends && tracked[i].quota.limit.Some? && tracked[i].quota.limit.value <= limit)
    && (forall i, j :: 0 <= i < j < |tracked| && tracked[i].key == key ==> tracked[j].key != key)
  }

  /** What was accepted against the key is within the limit, and the store agrees until Redis may discard it. */
  ghost predicate Inv(w: World, key: string, limit: nat, ends: nat) {
    && OnlyCounters(w.store)
    && (key in w.store ==> key in w.ledger)
    && (key in w.ledger ==>
          && w.ledger[key].expireAt == ends + GRACE && w.ledger[key].value <= limit
          && ((key in w.store && w.store[key] == w.ledger[key]) || ends + GRACE <= w.discarded))
  }

  /** A call that tracks the key finds in the store all that was accepted against it, and no refund. */
  lemma CounterIsLedger(w: World, call: Call, key: string, limit: nat, ends: nat, i: nat)
    requires Inv(w, key, limit, ends) && Enabled(w, Arrive(call)) && CountsWithin(call, key, limit, ends)
    requires i < |call.Tracks()| && call.Tracks()[i].key == key
    ensures key in w.store <==> key in w.ledger
    ensures key in w.store ==> w.store[key] == w.ledger[key]
    ensures Counter(w.store, RefundKey(key)) == 0
  {
    TrackedProperties(call.quotas, call.item, call.Timestamp(), i);
    assert call.Timestamp() < ends;
    assert RefundKey(key)[0] == 'r';
  }

  lemma CountedKeepsInv(w: World, call: Call, key: string, limit: nat, ends: nat)
    requires Inv(w, key, limit, ends) && Enabled(w, Arrive(call)) && CountsWithin(call, key, limit, ends)
    requires !AnyExceeds(w.store, call.Tracks(), call.quantity)
    ensures Inv(World(Counted(w.store, call.Tracks(), call.quantity), w.discarded,
                      Counted(w.ledger, call.Tracks(), call.quantity)), key, limit, ends)
  {
    var tracked := call.Tracks();
    CallCountsCounters(call, w.store);
    if i :| 0 <= i < |tracked| && tracked[i].key == key {
      CounterIsLedger(w, call, key, limit, ends, i);
      CountedAt(w.store, tracked, call.quantity, i);
      CountedAt(w.ledger, tracked, call.quantity, i);
      assert !Exceeds(w.store, tracked[i], call.quantity);
    } else {
      CountedOther(w.store, tracked, call.quantity, key);
      CountedOther(w.ledger, tracked, call.quantity, key);
    }
  }

  lemma NextKeepsInv(w: World, e: Event, key: string, limit: nat, ends: nat)
    requires Inv(w, key, limit, ends) && Enabled(w, e)
    requires e.Arrive? ==> CountsWithin(e.call, key, limit, ends)
    ensures Inv(Next(w, e), key, limit, ends)
  {
    match e
    case Arrive(call) =>
      AllOrNothing(call.maxLimit, w.store, call.quotas, call.item, call.quantity, call.clock);
      if Accepts(w, call) {
        CountedKeepsInv(w, call, key, limit, ends);
      }
    case Discard(_, _) =>
  }

  /** Every call of the run that counts against the key does so once, within the limit, for the same window. */
  ghost predicate AllCountWithin(events: seq<Event>, key: string, limit: nat, ends: nat) {
    forall i :: 0 <= i < |events| && events[i].Arrive? ==>
      events[i].call.Valid() && CountsWithin(events[i].call, key, limit, ends)
  }

  lemma {:induction false} RunKeepsInv(events: seq<Event>, key: string, limit: nat, ends: nat)
    requires ValidRun(events) && AllCountWithin(events, key, limit, ends)
    ensures Inv(RunWorld(events), key, limit, ends)
  {
    if events != [] {
      var n := |events| - 1;
      RunKeepsInv(events[..n], key, limit, ends);
      NextKeepsInv(RunWorld(events[..n]), events[n], key, limit, ends);
    }
  }

  ghost predicate CountsAgainst(call: Call, key: string)
    requires WindowsValid(call.quotas, call.item, call.Timestamp())
  {
    exists i :: 0 <= i < |call.Tracks()| && call.Tracks()[i].key == key
  }

  /** The total quantity of the items of a run that were accepted and counted against a key. */
  ghost function Accepted(events: seq<Event>, key: string): nat
    requires ValidRun(events)
  {
    if events == [] then 0 else
      var n := |events| - 1;
      var e, w := events[n], RunWorld(events[..n]);
      Accepted(events[..n], key) +
        if e.Arrive? && Accepts(w, e.call) && CountsAgainst(e.call, key) then e.call.quantity else 0
  }

  lemma {:induction false} LedgerIsAccepted(events: seq<Event>, key: string, limit: nat, ends: nat)
    requires ValidRun(events) && AllCountWithin(events, key, limit, ends)
    ensures Counter(RunWorld(events).ledger, key) == Accepted(events, key)
  {
    if events != [] {
      var n := |events| - 1;
      var e, w := events[n], RunWorld(events[..n]);
      LedgerIsAccepted(events[..n], key, limit, ends);
      if e.Arrive? && Accepts(w, e.call) {
        var tracked := e.call.Tracks();
        if i :| 0 <= i < |tracked| && tracked[i].key == key {
          CountedAt(w.ledger, tracked, e.call.quantity, i);
        } else {
          CountedOther(w.ledger, tracked, e.call.quantity, key);
        }
      }
    }
  }

  /** Over every run of calls, by any number of callers with their own quotas and clocks, and with expired counters
      discarded at any time, the total quantity accepted against a counter stays within the limit that its calls
      agree on. */
  lemma CounterLimitHolds(events: seq<Event>, key: string, limit: nat, ends: nat)
    requires ValidRun(events) && AllCountWithin(events, key, limit, ends)
    ensures Accepted(events, key) <= limit
  {
    RunKeepsInv(events, key, limit, ends);
    LedgerIsAccepted(events, key, limit, ends);
  }

  /** Whatever a call tracks with a limit, the calls so far agree with it on the window of the counter. */
  ghost predicate Settled(events: seq<Event>, call: Call)
    requires call.Valid()
  {
    forall i :: 0 <= i < |call.Tracks()| && call.Tracks()[i].quota.limit.Some? ==>
      exists limit: nat :: AllCountWithin(events, call.Tracks()[i].key, limit, call.Tracks()[i].expiry) &&
                           CountsWithin(call, call.Tracks()[i].key, limit, call.Tracks()[i].expiry)
  }

  lemma StoredIsAccepted(events: seq<Event>, call: Call, i: nat)
    requires ValidRun(events) && Enabled(RunWorld(events), Arrive(call)) && Settled(events, call)
    requires i < |call.Tracks()| && call.Tracks()[i].quota.limit.Some?
    ensures var key := call.Tracks()[i].key;
            && Counter(RunWorld(events).store, key) == Accepted(events, key)
            && Counter(RunWorld(events).store, RefundKey(key)) == 0
  {
    var q, w := call.Tracks()[i], RunWorld(events);
    var limit: nat :| AllCountWithin(events, q.key, limit, q.expiry) && CountsWithin(call, q.key, limit, q.expiry);
    RunKeepsInv(events, q.key, limit, q.expiry);
    LedgerIsAccepted(events, q.key, limit, q.expiry);
    CounterIsLedger(w, call, q.key, limit, q.expiry, i);
  }

  /** Limits are used up, no less: after any run, an item is accepted exactly if no applicable quota has a limit of zero,
      and for every tracked quota with a limit the quantity that was accepted in its window so far and that of the item
      stay within it. */
  lemma AcceptsIff(events: seq<Event>, call: Call)
    requires ValidRun(events) && Enabled(RunWorld(events), Arrive(call)) && Settled(events, call)
    ensures Accepts(RunWorld(events), call) <==>
              && (forall i :: 0 <= i < |call.quotas| && call.quotas[i].Matches(call.item) ==> call.quotas[i].limit != Some(0))
              && (forall i :: 0 <= i < |call.Tracks()| && call.Tracks()[i].quota.limit.Some? ==>
                    Accepted(events, call.Tracks()[i].key) + call.quantity <= call.Tracks()[i].quota.limit.value)
  {
    var w, tracked := RunWorld(events), call.Tracks();
    AllOrNothing(call.maxLimit, w.store, call.quotas, call.item, call.quantity, call.clock);
    forall i | 0 <= i < |tracked| && tracked[i].quota.limit.Some?
      ensures Exceeds(w.store, tracked[i], call.quantity) <==>
                Accepted(events, tracked[i].key) + call.quantity > tracked[i].quota.limit.value
    {
      StoredIsAccepted(events, call, i);
    }
  }

  // ----- The windows of a quota ----------------------------------------------------------------------------

  /** One window of one quota, for one item's scope. */
  datatype Window = Window(quota: Quota, item: ItemScoping, timestamp: nat) {
    predicate Valid() { quota.id.Some? && quota.window.Some? && WindowValid(quota, item, timestamp) }

    function Key(): string
      requires Valid()
    {
      QuotaKey(quota, item, timestamp)
    }

    function Ends(): nat
      requires Valid()
    {
      QuotaExpiry(quota, item, timestamp)
    }

    /** The quota counts an item in the same scope and under the same id. */
    predicate SharedBy(q: Quota, other: ItemScoping) {
      && q.id == quota.id && other.scoping.organizationId == item.scoping.organizationId
      && QuotaSubscope(q, other) == QuotaSubscope(quota, item)
    }
  }

  /** A counter key stands for one window of the quotas that share an id and a scope. */
  lemma KeyDeterminesWindow(a: Window, b: Window)
    requires a.Valid() && b.Valid()
    ensures a.Key() == b.Key() <==>
              a.SharedBy(b.quota, b.item) &&
              QuotaSlot(a.quota, a.item, a.timestamp) == QuotaSlot(b.quota, b.item, b.timestamp)
    ensures a.Key() == b.Key() && a.quota.window == b.quota.window ==> a.Ends() == b.Ends()
  {
    var orgA, orgB := a.item.scoping.organizationId, b.item.scoping.organizationId;
    CounterKeyInjective(a.quota.id.value, orgA, QuotaSubscope(a.quota, a.item), QuotaSlot(a.quota, a.item, a.timestamp),
                        b.quota.id.value, orgB, QuotaSubscope(b.quota, b.item), QuotaSlot(b.quota, b.item, b.timestamp));
  }

  /** The quotas of the list that count the item under the id and scope of the window have its length and no higher
      limit, and there is at most one of them. */
  ghost predicate Agrees(quotas: seq<Quota>, item: ItemScoping, window: Window) {
    && (forall q :: q in quotas && IsTracked(q, item) && window.SharedBy(q, item) ==>
          && q.window == window.quota.window
          && q.limit.Some? && window.quota.limit.Some? && q.limit.value <= window.quota.limit.value)
    && (forall i, j :: 0 <= i < j < |quotas| && quotas[i].id.Some? && quotas[i].id == window.quota.id ==>
          quotas[i].id != quotas[j].id)
  }

  lemma TrackedShares(quotas: seq<Quota>, item: ItemScoping, timestamp: nat, window: Window, i: nat)
    requires WindowsValid(quotas, item, timestamp) && window.Valid() && i < |Tracked(quotas, item, timestamp)|
    requires Tracked(quotas, item, timestamp)[i].key == window.Key()
    ensures var q := Tracked(quotas, item, timestamp)[i];
            && q.quota in quotas && IsTracked(q.quota, item) && window.SharedBy(q.quota, item)
            && (q.quota.window == window.quota.window ==> q.expiry == window.Ends())
  {
    TrackedProperties(quotas, item, timestamp, i);
    KeyDeterminesWindow(window, Window(Tracked(quotas, item, timestamp)[i].quota, item, timestamp));
  }

  /** Quotas with distinct ids are tracked with distinct keys. */
  lemma {:induction false} TrackedOnce(quotas: seq<Quota>, item: ItemScoping, timestamp: nat, window: Window, i: nat, j: nat)
    requires WindowsValid(quotas, item, timestamp) && window.Valid() && Agrees(quotas, item, window)
    requires i < j < |Tracked(quotas, item, timestamp)| && Tracked(quotas, item, timestamp)[i].key == window.Key()
    ensures Tracked(quotas, item, timestamp)[j].key != window.Key()
  {
    var n := |quotas| - 1;
    var init := Tracked(quotas[..n], item, timestamp);
    if j < |init| {
      TrackedOnce(quotas[..n], item, timestamp, window, i, j);
    } else {
      TrackedShares(quotas[..n], item, timestamp, window, i);
      var k :| 0 <= k < n && quotas[k] == init[i].quota;
      assert quotas[k].id != quotas[n].id;
      KeyDeterminesWindow(window, Window(quotas[n], item, timestamp));
    }
  }

  lemma AgreesCountsWithin(call: Call, window: Window)
    requires call.Valid() && window.Valid() && window.quota.limit.Some? && Agrees(call.quotas, call.item, window)
    ensures CountsWithin(call, window.Key(), window.quota.limit.value, window.Ends())
  {
    var tracked := call.Tracks();
    forall i | 0 <= i < |tracked| && tracked[i].key == window.Key()
      ensures tracked[i].expiry == window.Ends()
      ensures tracked[i].quota.limit.Some? && tracked[i].quota.limit.value <= window.quota.limit.value
    {
      TrackedShares(call.quotas, call.item, call.Timestamp(), window, i);
    }
    forall i, j | 0 <= i < j < |tracked| && tracked[i].key == window.Key()
      ensures tracked[j].key != window.Key()
    {
      TrackedOnce(call.quotas, call.item, call.Timestamp(), window, i, j);
    }
  }

  /** Over every run of calls, by any number of callers that each pass their own quotas, the total quantity accepted
      in a window of a quota stays within its limit, if all calls that count under its id in its scope agree on its
      length and have no higher limit. */
  lemma LimitsHold(events: seq<Event>, window: Window)
    requires ValidRun(events) && window.Valid() && window.quota.limit.Some?
    requires forall i :: 0 <= i < |events| && events[i].Arrive? ==>
               events[i].call.Valid() && Agrees(events[i].call.quotas, events[i].call.item, window)
    ensures Accepted(events, window.Key()) <= window.quota.limit.value
  {
    forall i | 0 <= i < |events| && events[i].Arrive?
      ensures CountsWithin(events[i].call, window.Key(), window.quota.limit.value, window.Ends())
    {
      AgreesCountsWithin(events[i].call, window);
    }
    CounterLimitHolds(events, window.Key(), window.quota.limit.value, window.Ends());
  }
}
