/** Counting items against quotas in Redis (relay-quotas/src/redis.rs, `RedisRateLimiter`, and
    relay-quotas/src/is_rate_limited.lua). */
module RedisLimiter {
  import opened Wrappers
  import opened Instants
  import opened Quotas
  import opened RateLimits
  import opened RedisKeys

  /** A counter and the timestamp at which Redis may discard it. */
  datatype Entry = Entry(value: int, expireAt: nat)

  type Store = map<string, Entry>

  function Counter(store: Store, key: string): int {
    if key in store then store[key].value else 0
  }

  // ----- The script ------------------------------------------------------------------------------------

  /** Two keys for every quota, a counter and a refund, and three arguments: limit, expiry and quantity. */
  datatype Invocation = Invocation(keys: seq<string>, args: seq<int>) {
    predicate Complete() { |keys| % 2 == 0 && |args| % 3 == 0 && |keys| / 2 == |args| / 3 }
  }

  predicate ScriptRejects(store: Store, call: Invocation, i: nat)
    requires 2 * i + 1 < |call.keys| && 3 * i + 2 < |call.args|
  {
    call.args[3 * i] >= 0 &&
    Counter(store, call.keys[2 * i]) - Counter(store, call.keys[2 * i + 1]) + call.args[3 * i + 2] > call.args[3 * i]
  }

  /** Checks all quotas against the counters and, if none rejects, increments all counters. */
  method Script(store: Store, call: Invocation) returns (rejections: seq<bool>, store': Store)
    requires call.Complete()
    requires forall i :: 0 <= i < |call.args| / 3 ==> call.args[3 * i + 1] >= 0
    ensures |rejections| == |call.keys| / 2
    ensures forall i :: 0 <= i < |rejections| ==> rejections[i] == ScriptRejects(store, call, i)
    ensures store' == if true in rejections then store else Incremented(store, call, |rejections|)
  {
    rejections, store' := [], store;
    var failed := false;
    var n := |call.keys| / 2;
    for i := 0 to n
      invariant |rejections| == i
      invariant forall j :: 0 <= j < i ==> rejections[j] == ScriptRejects(store, call, j)
      invariant failed == (true in rejections)
    {
      var rejected := false;
      if call.args[3 * i] >= 0 {
        rejected := Counter(store, call.keys[2 * i]) - Counter(store, call.keys[2 * i + 1]) + call.args[3 * i + 2]
                    > call.args[3 * i];
      }
      failed := failed || rejected;
      rejections := rejections + [rejected];
    }
    if !failed {
      for i := 0 to n
        invariant store' == Incremented(store, call, i)
      {
        var key := call.keys[2 * i];
        store' := store'[key := Entry(Counter(store', key) + call.args[3 * i + 2], call.args[3 * i + 1])];
      }
    }
  }

  /** The counters after incrementing those of the first `n` quotas. */
  function Incremented(store: Store, call: Invocation, n: nat): Store
    requires 2 * n <= |call.keys| && 3 * n <= |call.args|
    requires forall i :: 0 <= i < n ==> call.args[3 * i + 1] >= 0
  {
    if n == 0 then store else
      var before := Incremented(store, call, n - 1);
      var key := call.keys[2 * (n - 1)];
      before[key := Entry(Counter(before, key) + call.args[3 * (n - 1) + 2], call.args[3 * (n - 1) + 1])]
  }

  // ----- Tracked quotas --------------------------------------------------------------------------------

  /** All timestamps of the item's windows can be computed: no window is empty and none starts below zero. */
  predicate WindowValid(quota: Quota, item: ItemScoping, timestamp: nat) {
    quota.window.Some? ==>
      quota.window.value > 0 && timestamp >= Shift(item.scoping.organizationId, quota.window.value)
  }

  /** The quota can be counted: it applies to the item, is no static rejection, and has an id and a window. */
  predicate IsTracked(quota: Quota, item: ItemScoping) {
    quota.Matches(item) && quota.limit != Some(0) && quota.id.Some? && quota.window.Some?
  }

  function QuotaSubscope(quota: Quota, item: ItemScoping): Option<nat> {
    if quota.scope == OrganizationScope then None else item.ScopeId(quota.scope)
  }

  function QuotaSlot(quota: Quota, item: ItemScoping, timestamp: nat): nat
    requires quota.window.Some? && WindowValid(quota, item, timestamp)
  {
    Slot(item.scoping.organizationId, quota.window.value, timestamp)
  }

  function QuotaKey(quota: Quota, item: ItemScoping, timestamp: nat): string
    requires quota.id.Some? && quota.window.Some? && WindowValid(quota, item, timestamp)
  {
    CounterKey(quota.id.value, item.scoping.organizationId, QuotaSubscope(quota, item), QuotaSlot(quota, item, timestamp))
  }

  function QuotaExpiry(quota: Quota, item: ItemScoping, timestamp: nat): nat
    requires quota.window.Some? && WindowValid(quota, item, timestamp)
  {
    Expiry(item.scoping.organizationId, quota.window.value, timestamp)
  }

  /** A quota that is being tracked, with the counter for the item's window and the end of this window. */
  datatype RedisQuota = RedisQuota(quota: Quota, key: string, expiry: nat)

  /** The windows of all tracked quotas can be computed; those of other quotas are not looked at. */
  predicate WindowsValid(quotas: seq<Quota>, item: ItemScoping, timestamp: nat) {
    forall i :: 0 <= i < |quotas| && IsTracked(quotas[i], item) ==> WindowValid(quotas[i], item, timestamp)
  }

  function ToRedis(quota: Quota, item: ItemScoping, timestamp: nat): RedisQuota
    requires IsTracked(quota, item) && WindowValid(quota, item, timestamp)
  {
    RedisQuota(quota, QuotaKey(quota, item, timestamp), QuotaExpiry(quota, item, timestamp))
  }

  function Tracked(quotas: seq<Quota>, item: ItemScoping, timestamp: nat): seq<RedisQuota>
    requires WindowsValid(quotas, item, timestamp)
  {
    if quotas == [] then [] else
      var n := |quotas| - 1;
      Tracked(quotas[..n], item, timestamp) +
        if IsTracked(quotas[n], item) then [ToRedis(quotas[n], item, timestamp)] else []
  }

  /** The limit as the script takes it, where -1 stands for no limit. */
  function LimitArg(quota: Quota): int {
    match quota.limit
    case Some(n) => n
    case None => -1
  }

  /** The keys and arguments stand in line with the tracked quotas. */
  ghost predicate Aligned(call: Invocation, tracked: seq<RedisQuota>, quantity: nat) {
    && |call.keys| == 2 * |tracked| && |call.args| == 3 * |tracked|
    && (forall i :: 0 <= i < |tracked| ==>
          call.keys[2 * i] == tracked[i].key && call.keys[2 * i + 1] == RefundKey(tracked[i].key))
    && (forall i :: 0 <= i < |tracked| ==>
          && call.args[3 * i] == LimitArg(tracked[i].quota)
          && call.args[3 * i + 1] == tracked[i].expiry + GRACE
          && call.args[3 * i + 2] == quantity)
  }

  lemma AlignedAppend(call: Invocation, tracked: seq<RedisQuota>, quantity: nat, q: RedisQuota)
    requires Aligned(call, tracked, quantity)
    ensures Aligned(Invocation(call.keys + [q.key] + [RefundKey(q.key)],
                               call.args + [LimitArg(q.quota)] + [q.expiry + GRACE] + [quantity]),
                    tracked + [q], quantity)
  {
  }

  // ----- The decision ------------------------------------------------------------------------------------

  /** Whether the item would exceed the quota. */
  predicate Exceeds(store: Store, q: RedisQuota, quantity: nat) {
    q.quota.limit.Some? && Counter(store, q.key) - Counter(store, RefundKey(q.key)) + quantity > q.quota.limit.value
  }

  predicate AnyExceeds(store: Store, tracked: seq<RedisQuota>, quantity: nat) {
    exists i :: 0 <= i < |tracked| && Exceeds(store, tracked[i], quantity)
  }

  /** The counters after counting the item against all tracked quotas. */
  function Counted(store: Store, tracked: seq<RedisQuota>, quantity: nat): Store {
    if tracked == [] then store else
      var n := |tracked| - 1;
      var before := Counted(store, tracked[..n], quantity);
      before[tracked[n].key := Entry(Counter(before, tracked[n].key) + quantity, tracked[n].expiry + GRACE)]
  }

  function Bounded(maxLimit: Option<nat>, seconds: nat): nat {
    match maxLimit
    case Some(max) => if seconds <= max then seconds else max
    case None => seconds
  }

  /** The limits for all quotas that reject the item statically. */
  function ZeroLimits(maxLimit: Option<nat>, quotas: seq<Quota>, item: ItemScoping, now: int): seq<RateLimit> {
    if quotas == [] then [] else
      var n := |quotas| - 1;
      ZeroLimits(maxLimit, quotas[..n], item, now) +
        if RejectsAll(quotas[n], item)
        then [FromQuota(quotas[n], item.scoping, RetryAfter(now, Bounded(maxLimit, REJECT_ALL_SECS)))] else []
  }

  /** The windows of all quotas end after the timestamp. */
  predicate Ahead(tracked: seq<RedisQuota>, timestamp: nat) {
    forall i :: 0 <= i < |tracked| ==> timestamp <= tracked[i].expiry
  }

  /** The limits for all tracked quotas that the item exceeds, which last to the end of their windows. */
  function ExceededLimits(maxLimit: Option<nat>, store: Store, tracked: seq<RedisQuota>, item: ItemScoping,
                          quantity: nat, clock: Clock): seq<RateLimit>
    requires Ahead(tracked, clock.UnixNow())
  {
    if tracked == [] then [] else
      var n := |tracked| - 1;
      ExceededLimits(maxLimit, store, tracked[..n], item, quantity, clock) +
        if Exceeds(store, tracked[n], quantity)
        then [FromQuota(tracked[n].quota, item.scoping,
                        RetryAfter(clock.instant, Bounded(maxLimit, tracked[n].expiry - clock.UnixNow())))] else []
  }

  lemma {:induction false} TrackedProperties(quotas: seq<Quota>, item: ItemScoping, timestamp: nat, i: nat)
    requires WindowsValid(quotas, item, timestamp) && i < |Tracked(quotas, item, timestamp)|
    ensures var q := Tracked(quotas, item, timestamp)[i];
            && q.quota in quotas && IsTracked(q.quota, item) && WindowValid(q.quota, item, timestamp)
            && q == ToRedis(q.quota, item, timestamp)
            && timestamp < q.expiry <= timestamp + q.quota.window.value
  {
    var n := |quotas| - 1;
    var init := Tracked(quotas[..n], item, timestamp);
    if i < |init| {
      TrackedProperties(quotas[..n], item, timestamp, i);
      assert quotas[..n] <= quotas;
    } else {
      ExpiryFollows(item.scoping.organizationId, quotas[n].window.value, timestamp);
    }
  }

  /** Exactly the quotas are tracked that apply to the item, have a limit other than zero, or none, an id and a window;
      each with the counter for the item's own organization and, unless it counts the whole organization, the id of its
      scope. */
  lemma {:induction false} TrackedIff(quotas: seq<Quota>, item: ItemScoping, timestamp: nat, q: Quota)
    requires WindowsValid(quotas, item, timestamp)
    ensures (exists r :: r in Tracked(quotas, item, timestamp) && r.quota == q) <==>
              q in quotas && q.Matches(item) && q.limit != Some(0) && q.id.Some? && q.window.Some?
    ensures forall r :: r in Tracked(quotas, item, timestamp) && r.quota == q ==>
              && q.window.Some? && q.id.Some? && WindowValid(q, item, timestamp)
              && r.expiry == QuotaExpiry(q, item, timestamp)
              && r.key == CounterKey(q.id.value, item.scoping.organizationId,
                                     match q.scope
                                     case OrganizationScope => None
                                     case ProjectScope => Some(item.scoping.projectId)
                                     case KeyScope => item.scoping.keyId
                                     case UnknownScope => None,
                                     QuotaSlot(q, item, timestamp))
  {
    if quotas != [] {
      var n := |quotas| - 1;
      TrackedIff(quotas[..n], item, timestamp, q);
      var init, all := Tracked(quotas[..n], item, timestamp), Tracked(quotas, item, timestamp);
      assert forall p :: p in quotas <==> p in quotas[..n] || p == quotas[n];
      if IsTracked(quotas[n], item) {
        assert all == init + [ToRedis(quotas[n], item, timestamp)];
        assert ToRedis(quotas[n], item, timestamp) in all;
      }
      assert forall r :: r in all <==> r in init || (IsTracked(quotas[n], item) && r == ToRedis(quotas[n], item, timestamp));
    }
  }

  lemma ExpiriesAhead(quotas: seq<Quota>, item: ItemScoping, timestamp: nat)
    requires WindowsValid(quotas, item, timestamp)
    ensures Ahead(Tracked(quotas, item, timestamp), timestamp)
  {
    var tracked := Tracked(quotas, item, timestamp);
    forall i | 0 <= i < |tracked|
      ensures timestamp <= tracked[i].expiry
    {
      TrackedProperties(quotas, item, timestamp, i);
    }
  }

  /** What a call returns and what it leaves in the store. */
  datatype Decision = Decision(limits: seq<RateLimit>, store: Store)

  function Decide(maxLimit: Option<nat>, store: Store, quotas: seq<Quota>, item: ItemScoping, quantity: nat,
                  clock: Clock): Decision
    requires WindowsValid(quotas, item, clock.UnixNow())
  {
    var tracked := Tracked(quotas, item, clock.UnixNow());
    var zero := AddedAll([], ZeroLimits(maxLimit, quotas, item, clock.instant));
    if tracked == [] || IsLimited(zero, clock.instant) then Decision(zero, store) else
      ExpiriesAhead(quotas, item, clock.UnixNow());
      Decision(AddedAll(zero, ExceededLimits(maxLimit, store, tracked, item, quantity, clock)),
               if AnyExceeds(store, tracked, quantity) then store else Counted(store, tracked, quantity))
  }

  lemma AlignedAt(call: Invocation, tracked: seq<RedisQuota>, quantity: nat, i: nat)
    requires Aligned(call, tracked, quantity) && i < |tracked|
    ensures call.keys[2 * i] == tracked[i].key && call.args[3 * i] == LimitArg(tracked[i].quota)
    ensures call.args[3 * i + 1] == tracked[i].expiry + GRACE && call.args[3 * i + 2] == quantity
  {
  }

  lemma ExpiryArgs(call: Invocation, tracked: seq<RedisQuota>, quantity: nat)
    requires Aligned(call, tracked, quantity)
    ensures forall i :: 0 <= i < |tracked| ==> call.args[3 * i + 1] >= 0
  {
  }

  lemma {:induction false} IncrementedIsCounted(store: Store, call: Invocation, tracked: seq<RedisQuota>, quantity: nat, n: nat)
    requires Aligned(call, tracked, quantity) && n <= |tracked|
    ensures forall i :: 0 <= i < n ==> call.args[3 * i + 1] >= 0
    ensures Incremented(store, call, n) == Counted(store, tracked[..n], quantity)
  {
    ExpiryArgs(call, tracked, quantity);
    if n > 0 {
      IncrementedIsCounted(store, call, tracked, quantity, n - 1);
      AlignedAt(call, tracked, quantity, n - 1);
      assert tracked[..n][..n - 1] == tracked[..n - 1];
    }
  }

  /** On keys and arguments in line with the tracked quotas, the script does what the quotas demand. */
  lemma ScriptMeetsQuotas(store: Store, call: Invocation, tracked: seq<RedisQuota>, quantity: nat,
                          rejections: seq<bool>)
    requires Aligned(call, tracked, quantity) && |rejections| == |tracked|
    requires forall i :: 0 <= i < |rejections| ==> rejections[i] == ScriptRejects(store, call, i)
    ensures forall i :: 0 <= i < |tracked| ==> rejections[i] == Exceeds(store, tracked[i], quantity)
    ensures true in rejections <==> AnyExceeds(store, tracked, quantity)
  {
    forall i | 0 <= i < |tracked|
      ensures rejections[i] == Exceeds(store, tracked[i], quantity)
    {
      assert call.args[3 * i] == LimitArg(tracked[i].quota);
    }
    if AnyExceeds(store, tracked, quantity) {
      var i :| 0 <= i < |tracked| && Exceeds(store, tracked[i], quantity);
      assert rejections[i];
    }
  }

  lemma AlignedComplete(call: Invocation, tracked: seq<RedisQuota>, quantity: nat)
    requires Aligned(call, tracked, quantity)
    ensures call.Complete() && |call.keys| / 2 == |tracked| == |call.args| / 3
    ensures forall i :: 0 <= i < |tracked| ==> call.args[3 * i + 1] >= 0
  {
    ExpiryArgs(call, tracked, quantity);
  }

  lemma ScriptOutcome(store: Store, call: Invocation, tracked: seq<RedisQuota>, quantity: nat, rejections: seq<bool>,
                      after: Store)
    requires Aligned(call, tracked, quantity) && |rejections| == |tracked|
    requires forall i :: 0 <= i < |tracked| ==> call.args[3 * i + 1] >= 0
    requires forall i :: 0 <= i < |rejections| ==> rejections[i] == ScriptRejects(store, call, i)
    requires after == if true in rejections then store else Incremented(store, call, |rejections|)
    ensures forall i :: 0 <= i < |tracked| ==> rejections[i] == Exceeds(store, tracked[i], quantity)
    ensures after == if AnyExceeds(store, tracked, quantity) then store else Counted(store, tracked, quantity)
  {
    ScriptMeetsQuotas(store, call, tracked, quantity, rejections);
    IncrementedIsCounted(store, call, tracked, quantity, |tracked|);
    assert tracked[..|tracked|] == tracked;
  }

  lemma ExceededStep(maxLimit: Option<nat>, store: Store, tracked: seq<RedisQuota>, item: ItemScoping, quantity: nat,
                     clock: Clock, i: nat)
    requires Ahead(tracked, clock.UnixNow()) && i < |tracked|
    ensures var limit := FromQuota(tracked[i].quota, item.scoping,
                                   RetryAfter(clock.instant, Bounded(maxLimit, tracked[i].expiry - clock.UnixNow())));
            ExceededLimits(maxLimit, store, tracked[..i + 1], item, quantity, clock) ==
              ExceededLimits(maxLimit, store, tracked[..i], item, quantity, clock) +
                if Exceeds(store, tracked[i], quantity) then [limit] else []
  {
    assert tracked[..i + 1][..i] == tracked[..i];
  }

  lemma QuotaStep(maxLimit: Option<nat>, quotas: seq<Quota>, item: ItemScoping, clock: Clock, i: nat)
    requires WindowsValid(quotas, item, clock.UnixNow()) && i < |quotas|
    ensures ZeroLimits(maxLimit, quotas[..i + 1], item, clock.instant) ==
              ZeroLimits(maxLimit, quotas[..i], item, clock.instant) +
                if RejectsAll(quotas[i], item)
                then [FromQuota(quotas[i], item.scoping, RetryAfter(clock.instant, Bounded(maxLimit, REJECT_ALL_SECS)))]
                else []
    ensures Tracked(quotas[..i + 1], item, clock.UnixNow()) ==
              Tracked(quotas[..i], item, clock.UnixNow()) +
                if IsTracked(quotas[i], item) then [ToRedis(quotas[i], item, clock.UnixNow())] else []
  {
    assert quotas[..i + 1][..i] == quotas[..i];
  }

  class RedisRateLimiter {
    const maxLimit: Option<nat>
    var store: Store

    constructor (maxLimit: Option<nat>, store: Store)
      ensures this.maxLimit == maxLimit && this.store == store
    {
      this.maxLimit := maxLimit;
      this.store := store;
    }

    /** Collects the limits of static rejections, and the keys and arguments for the quotas to be tracked. */
    method Prepare(quotas: seq<Quota>, item: ItemScoping, quantity: nat, clock: Clock)
      returns (limits: seq<RateLimit>, tracked: seq<RedisQuota>, call: Invocation)
      requires WindowsValid(quotas, item, clock.UnixNow())
      ensures limits == AddedAll([], ZeroLimits(maxLimit, quotas, item, clock.instant))
      ensures tracked == Tracked(quotas, item, clock.UnixNow()) && Aligned(call, tracked, quantity)
    {
      var timestamp := clock.UnixNow();
      limits, tracked, call := [], [], Invocation([], []);
      ghost var zero := [];
      for i := 0 to |quotas|
        invariant zero == ZeroLimits(maxLimit, quotas[..i], item, clock.instant) && limits == AddedAll([], zero)
        invariant tracked == Tracked(quotas[..i], item, timestamp) && Aligned(call, tracked, quantity)
      {
        var quota := quotas[i];
        QuotaStep(maxLimit, quotas, item, clock, i);
        if !quota.Matches(item) {
        } else if quota.limit == Some(0) {
          var limit := FromQuota(quota, item.scoping, RetryAfter(clock.instant, Bounded(maxLimit, REJECT_ALL_SECS)));
          AddedAllSnoc([], zero, limit);
          limits, zero := Added(limits, limit), zero + [limit];
        } else if quota.id.Some? && quota.window.Some? {
          var q := ToRedis(quota, item, timestamp);
          AlignedAppend(call, tracked, quantity, q);
          call := Invocation(call.keys + [q.key] + [RefundKey(q.key)],
                             call.args + [LimitArg(quota)] + [q.expiry + GRACE] + [quantity]);
          tracked := tracked + [q];
        }
      }
      assert quotas[..|quotas|] == quotas;
    }

    /** Adds a limit for every tracked quota that was rejected. */
    method Attribute(zero: seq<RateLimit>, tracked: seq<RedisQuota>, rejections: seq<bool>, item: ItemScoping,
                     quantity: nat, clock: Clock, ghost store: Store) returns (limits: seq<RateLimit>)
      requires |rejections| == |tracked|
      requires Ahead(tracked, clock.UnixNow())
      requires forall i :: 0 <= i < |tracked| ==> rejections[i] == Exceeds(store, tracked[i], quantity)
      ensures limits == AddedAll(zero, ExceededLimits(maxLimit, store, tracked, item, quantity, clock))
    {
      limits := zero;
      ghost var exceeded := [];
      for i := 0 to |tracked|
        invariant exceeded == ExceededLimits(maxLimit, store, tracked[..i], item, quantity, clock)
        invariant limits == AddedAll(zero, exceeded)
      {
        ExceededStep(maxLimit, store, tracked, item, quantity, clock, i);
        if rejections[i] {
          var limit := FromQuota(tracked[i].quota, item.scoping,
                                 RetryAfter(clock.instant, Bounded(maxLimit, tracked[i].expiry - clock.UnixNow())));
          AddedAllSnoc(zero, exceeded, limit);
          limits, exceeded := Added(limits, limit), exceeded + [limit];
        }
      }
      assert tracked[..|tracked|] == tracked;
    }

    /** Runs the script for the tracked quotas. */
    method Invoke(call: Invocation, ghost tracked: seq<RedisQuota>, ghost quantity: nat) returns (rejections: seq<bool>)
      requires Aligned(call, tracked, quantity)
      modifies this
      ensures |rejections| == |tracked|
      ensures forall i :: 0 <= i < |tracked| ==> rejections[i] == Exceeds(old(store), tracked[i], quantity)
      ensures store == if AnyExceeds(old(store), tracked, quantity) then old(store)
                       else Counted(old(store), tracked, quantity)
    {
      AlignedComplete(call, tracked, quantity);
      rejections, store := Script(store, call);
      ScriptOutcome(old(store), call, tracked, quantity, rejections, store);
    }

    method IsRateLimited(quotas: seq<Quota>, item: ItemScoping, quantity: nat, clock: Clock)
      returns (limits: seq<RateLimit>)
      requires WindowsValid(quotas, item, clock.UnixNow())
      modifies this
      ensures Decision(limits, store) == Decide(maxLimit, old(store), quotas, item, quantity, clock)
    {
      var zero, tracked, call := Prepare(quotas, item, quantity, clock);
      if tracked == [] || IsLimited(zero, clock.instant) {
        return zero;
      }
      ExpiriesAhead(quotas, item, clock.UnixNow());
      var rejections := Invoke(call, tracked, quantity);
      limits := Attribute(zero, tracked, rejections, item, quantity, clock, old(store));
    }
  }
}
