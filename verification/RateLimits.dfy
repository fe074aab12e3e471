/** The collection of active rate limits (relay-quotas/src/rate_limit.rs). */
module RateLimits {
  import opened Wrappers
  import opened Instants
  import opened Quotas

  const REJECT_ALL_SECS: nat := 60

  /** The instant at which a limit expires that is to last for some seconds. A limit that would end after
      the last instant expires at once. */
  function RetryAfter(now: int, seconds: nat): int {
    match CheckedAdd(now, Seconds(seconds))
    case Some(at) => at
    case None => now
  }

  datatype RateLimitScope = Organization(id: nat) | Project(id: nat) | Key(key: string)

  function ScopeFor(scoping: Scoping, scope: QuotaScope): RateLimitScope {
    match scope
    case OrganizationScope => Organization(scoping.organizationId)
    case ProjectScope => Project(scoping.projectId)
    case KeyScope => Key(scoping.projectKey)
    case UnknownScope => Key(scoping.projectKey)
  }

  datatype RateLimit = RateLimit(
    categories: seq<DataCategory>,
    scope: RateLimitScope,
    reasonCode: Option<string>,
    retryAfter: int)
  {
    predicate MatchesScope(item: ItemScoping) {
      match scope
      case Organization(id) => item.scoping.organizationId == id
      case Project(id) => item.scoping.projectId == id
      case Key(key) => item.scoping.projectKey == key
    }

    predicate Matches(item: ItemScoping) {
      MatchesScope(item) && MatchesCategories(categories, item.category)
    }

    predicate Active(now: int) { now < retryAfter }

    predicate SameKey(other: RateLimit) { categories == other.categories && scope == other.scope }
  }

  function FromQuota(quota: Quota, scoping: Scoping, retryAfter: int): RateLimit {
    RateLimit(quota.categories, ScopeFor(scoping, quota.scope), quota.reasonCode, retryAfter)
  }

  /** A limit made from a quota for an item applies to this item. */
  lemma FromQuotaMatches(quota: Quota, item: ItemScoping, retryAfter: int)
    ensures FromQuota(quota, item.scoping, retryAfter).Matches(item) <==> MatchesCategories(quota.categories, item.category)
  {
  }

  /** A limit applies to the items of its categories, or of all categories if it names none, in its organization,
      project or project key. */
  lemma LimitApplies(limit: RateLimit, item: ItemScoping)
    ensures limit.Matches(item) <==>
              && (|limit.categories| == 0 || exists i :: 0 <= i < |limit.categories| && limit.categories[i] == item.category)
              && (|| limit.scope == Organization(item.scoping.organizationId)
                  || limit.scope == Project(item.scoping.projectId)
                  || limit.scope == Key(item.scoping.projectKey))
  {
  }

  /** A limit that is made from a quota covers the organization, the project or the project key of the item, as the
      scope of the quota says; an unknown scope is taken for the project key. */
  lemma FromQuotaCovers(quota: Quota, scoping: Scoping, retryAfter: int)
    ensures var limit := FromQuota(quota, scoping, retryAfter);
            && limit.categories == quota.categories && limit.retryAfter == retryAfter
            && limit.reasonCode == quota.reasonCode
            && (limit.scope == Organization(scoping.organizationId) <==> quota.scope == OrganizationScope)
            && (limit.scope == Project(scoping.projectId) <==> quota.scope == ProjectScope)
            && (limit.scope == Key(scoping.projectKey) <==> quota.scope == KeyScope || quota.scope == UnknownScope)
  {
  }

  /** A limit that is made from a quota for one item does not reach beyond the quota: it applies to other items
      only if the quota does, provided that a project key determines its key id. */
  lemma LimitStaysWithinQuota(quota: Quota, item: ItemScoping, retryAfter: int, other: ItemScoping)
    requires quota.Matches(item) && FromQuota(quota, item.scoping, retryAfter).Matches(other)
    requires item.scoping.projectKey == other.scoping.projectKey ==> item.scoping.keyId == other.scoping.keyId
    ensures quota.Matches(other)
  {
  }

  // ----- Canonical categories ----------------------------------------------------------------------

  /** No category of the list is ordered before `c`. */
  predicate NoneBefore(c: DataCategory, s: seq<DataCategory>) {
    forall x :: x in s ==> c.Rank() <= x.Rank()
  }

  predicate Sorted(s: seq<DataCategory>) {
    s == [] || (NoneBefore(s[0], s[1..]) && Sorted(s[1..]))
  }

  function Insert(c: DataCategory, s: seq<DataCategory>): seq<DataCategory> {
    if s == [] || c.Rank() <= s[0].Rank() then [c] + s else [s[0]] + Insert(c, s[1..])
  }

  function Sort(s: seq<DataCategory>): seq<DataCategory> {
    if s == [] then [] else Insert(s[0], Sort(s[1..]))
  }

  lemma {:induction false} InsertPermutes(c: DataCategory, s: seq<DataCategory>)
    ensures multiset(Insert(c, s)) == multiset(s) + multiset{c}
  {
    if s != [] && c.Rank() > s[0].Rank() {
      InsertPermutes(c, s[1..]);
      assert s == [s[0]] + s[1..];
    }
  }

  lemma {:induction false} InsertSorts(c: DataCategory, s: seq<DataCategory>)
    requires Sorted(s)
    ensures Sorted(Insert(c, s))
  {
    if s == [] || c.Rank() <= s[0].Rank() {
      assert ([c] + s)[1..] == s;
      assert s != [] ==> s == [s[0]] + s[1..];
    } else {
      var rest := Insert(c, s[1..]);
      InsertSorts(c, s[1..]);
      InsertPermutes(c, s[1..]);
      forall x | x in rest
        ensures s[0].Rank() <= x.Rank()
      {
        assert x in multiset(rest);
      }
      assert ([s[0]] + rest)[1..] == rest;
    }
  }

  lemma {:induction false} SortSorts(s: seq<DataCategory>)
    ensures Sorted(Sort(s)) && multiset(Sort(s)) == multiset(s)
  {
    if s != [] {
      SortSorts(s[1..]);
      InsertSorts(s[0], Sort(s[1..]));
      InsertPermutes(s[0], Sort(s[1..]));
      assert s == [s[0]] + s[1..];
    }
  }

  lemma SortedHead(a: seq<DataCategory>, c: DataCategory)
    requires Sorted(a) && c in multiset(a)
    ensures a != [] && a[0].Rank() <= c.Rank()
  {
    assert c in a;
    assert a == [a[0]] + a[1..];
  }

  lemma SameHead(a: seq<DataCategory>, b: seq<DataCategory>)
    requires Sorted(a) && Sorted(b) && multiset(a) == multiset(b) && a != []
    ensures b != [] && a[0] == b[0]
  {
    assert a[0] in multiset(a);
    SortedHead(b, a[0]);
    assert b[0] in multiset(b);
    SortedHead(a, b[0]);
  }

  lemma {:induction false} SortedUnique(a: seq<DataCategory>, b: seq<DataCategory>)
    requires Sorted(a) && Sorted(b) && multiset(a) == multiset(b)
    ensures a == b
  {
    if a == [] {
      assert |multiset(b)| == |b|;
    } else {
      SameHead(a, b);
      TailMultiset(a);
      TailMultiset(b);
      SortedUnique(a[1..], b[1..]);
      assert a == [a[0]] + a[1..] && b == [b[0]] + b[1..];
    }
  }

  lemma TailMultiset(a: seq<DataCategory>)
    requires a != []
    ensures multiset(a[1..]) == multiset(a) - multiset{a[0]}
  {
    assert a == [a[0]] + a[1..];
  }

  /** Categories are sorted in this order. */
  lemma CategoryOrder(i: nat, j: nat)
    requires i < 7 && j < 7
    ensures var order := [Unknown, Default, Error, Transaction, Security, Attachment, Session];
            order[i].Rank() < order[j].Rank() <==> i < j
  {
  }

  lemma SortPair(a: DataCategory, b: DataCategory)
    requires a.Rank() < b.Rank()
    ensures Sort([b, a]) == [a, b] && Sort([a, b]) == [a, b]
  {
    SortSorts([a, b]);
    SortSorts([b, a]);
    assert multiset([a, b]) == multiset([b, a]);
    assert [a, b][1..] == [b];
    SortedUnique(Sort([a, b]), [a, b]);
    SortedUnique(Sort([b, a]), [a, b]);
  }

  /** Categories are compared as collections: lists are sorted alike exactly if they are permutations. */
  lemma SortIsCanonical(a: seq<DataCategory>, b: seq<DataCategory>)
    ensures Sort(a) == Sort(b) <==> multiset(a) == multiset(b)
  {
    SortSorts(a);
    SortSorts(b);
    if multiset(a) == multiset(b) {
      SortedUnique(Sort(a), Sort(b));
    }
  }

  /** A limit with its categories, which are a set in disguise, in canonical order. */
  function Canonical(limit: RateLimit): RateLimit { limit.(categories := Sort(limit.categories)) }

  lemma CanonicalMatches(limit: RateLimit, item: ItemScoping)
    ensures Canonical(limit).Matches(item) <==> limit.Matches(item)
  {
    var s, r := limit.categories, Sort(limit.categories);
    SortSorts(s);
    assert |multiset(s)| == |s| && |multiset(r)| == |r|;
    assert item.category in s <==> item.category in multiset(s);
    assert item.category in r <==> item.category in multiset(r);
  }

  // ----- The collection ------------------------------------------------------------------------------

  /** The position of the limit with the same categories and scope, or the number of limits. */
  function Find(limits: seq<RateLimit>, limit: RateLimit): (i: nat)
    ensures i <= |limits| && (i < |limits| ==> limits[i].SameKey(limit))
    ensures forall j :: 0 <= j < i ==> !limits[j].SameKey(limit)
  {
    if limits == [] || limits[0].SameKey(limit) then 0 else 1 + Find(limits[1..], limit)
  }

  function Added(limits: seq<RateLimit>, limit: RateLimit): seq<RateLimit> {
    var l := Canonical(limit);
    var i := Find(limits, l);
    if i == |limits| then limits + [l]
    else if limits[i].retryAfter < l.retryAfter then limits[i := l]
    else limits
  }

  function AddedAll(limits: seq<RateLimit>, more: seq<RateLimit>): seq<RateLimit> {
    if more == [] then limits
    else Added(AddedAll(limits, more[..|more| - 1]), more[|more| - 1])
  }

  lemma AddedAllSnoc(limits: seq<RateLimit>, more: seq<RateLimit>, limit: RateLimit)
    ensures AddedAll(limits, more + [limit]) == Added(AddedAll(limits, more), limit)
  {
    assert (more + [limit])[..|more|] == more;
  }

  /** The limits that have not expired, in their order. */
  function Unexpired(limits: seq<RateLimit>, now: int): seq<RateLimit> {
    if limits == [] then [] else
      var n := |limits| - 1;
      Unexpired(limits[..n], now) + if limits[n].Active(now) then [limits[n]] else []
  }

  /** Some active limit applies to the item. */
  ghost predicate Restricts(limits: seq<RateLimit>, item: ItemScoping, now: int) {
    exists l :: l in limits && l.Active(now) && l.Matches(item)
  }

  /** No two limits have the same categories and scope. */
  ghost predicate Distinct(limits: seq<RateLimit>) {
    forall i, j :: 0 <= i < j < |limits| ==> !limits[i].SameKey(limits[j])
  }

  /** What adding does: the stored limit of the same categories and scope is replaced if the new one lasts longer; if
      there is none the new one is appended; everything else stays in place. */
  lemma AddedExactly(limits: seq<RateLimit>, limit: RateLimit)
    requires Distinct(limits)
    ensures var r, l := Added(limits, limit), limit.(categories := Sort(limit.categories));
            && |limits| <= |r| <= |limits| + 1
            && (|r| == |limits| + 1 <==> forall j :: 0 <= j < |limits| ==> !limits[j].SameKey(l))
            && (|r| == |limits| + 1 ==> r[|limits|] == l)
            && forall j :: 0 <= j < |limits| ==>
                 r[j] == if limits[j].SameKey(l) && limits[j].retryAfter < limit.retryAfter then l else limits[j]
  {
    var l := Canonical(limit);
    var i := Find(limits, l);
    assert forall j :: 0 <= j < |limits| && j != i && i < |limits| ==> !limits[j].SameKey(l);
  }

  /** Adding keeps the limits distinct. */
  lemma AddedDistinct(limits: seq<RateLimit>, limit: RateLimit)
    requires Distinct(limits)
    ensures Distinct(Added(limits, limit))
  {
  }

  /** A limit that is not stored is outlasted by the one that is stored for its categories and scope. */
  lemma AddedRestricts(limits: seq<RateLimit>, limit: RateLimit, item: ItemScoping, now: int)
    ensures Restricts(Added(limits, limit), item, now) <==>
              Restricts(limits, item, now) || (limit.Active(now) && limit.Matches(item))
  {
    var l := Canonical(limit);
    CanonicalMatches(limit, item);
    var i := Find(limits, l);
    var r := Added(limits, limit);
    if Restricts(limits, item, now) {
      var k :| k in limits && k.Active(now) && k.Matches(item);
      var j :| 0 <= j < |limits| && limits[j] == k;
      assert r[j] in r && r[j].Active(now) && r[j].Matches(item);
    }
    if limit.Active(now) && limit.Matches(item) {
      assert r[i] in r && r[i].Active(now) && r[i].Matches(item);
    }
    if Restricts(r, item, now) {
      var k :| k in r && k.Active(now) && k.Matches(item);
      assert k in limits || k == l;
    }
  }

  lemma {:induction false} AddedAllRestricts(limits: seq<RateLimit>, more: seq<RateLimit>, item: ItemScoping, now: int)
    ensures Restricts(AddedAll(limits, more), item, now) <==> Restricts(limits, item, now) || Restricts(more, item, now)
  {
    if more != [] {
      var n := |more| - 1;
      AddedAllRestricts(limits, more[..n], item, now);
      AddedRestricts(AddedAll(limits, more[..n]), more[n], item, now);
      assert forall l :: l in more <==> l in more[..n] || l == more[n];
    }
  }

  /** Some limit for the same categories and scope lasts as long as the given one. */
  ghost predicate Covers(limits: seq<RateLimit>, limit: RateLimit) {
    exists l :: l in limits && l.SameKey(Canonical(limit)) && limit.retryAfter <= l.retryAfter
  }

  lemma AddedCovers(limits: seq<RateLimit>, limit: RateLimit, other: RateLimit)
    requires other == limit || Covers(limits, other)
    ensures Covers(Added(limits, limit), other)
  {
    var r := Added(limits, limit);
    if other == limit {
      assert r[Find(limits, Canonical(limit))] in r;
    } else {
      var l :| l in limits && l.SameKey(Canonical(other)) && other.retryAfter <= l.retryAfter;
      var j :| 0 <= j < |limits| && limits[j] == l;
      assert r[j] in r;
    }
  }

  /** Nothing that was added is forgotten: a limit for its categories and scope lasts as long. */
  lemma {:induction false} AddedAllCovers(limits: seq<RateLimit>, more: seq<RateLimit>, limit: RateLimit)
    requires limit in more || Covers(limits, limit)
    ensures Covers(AddedAll(limits, more), limit)
  {
    if more != [] {
      var n := |more| - 1;
      if limit != more[n] {
        AddedAllCovers(limits, more[..n], limit);
      }
      AddedCovers(AddedAll(limits, more[..n]), more[n], limit);
    }
  }

  /** Nothing is made up: every limit is one that was added, with its categories sorted. */
  lemma {:induction false} AddedAllFrom(limits: seq<RateLimit>, more: seq<RateLimit>, l: RateLimit)
    requires l in AddedAll(limits, more)
    ensures l in limits || exists m :: m in more && l == Canonical(m)
  {
    if more != [] {
      var n := |more| - 1;
      assert more[n] in more;
      if l != Canonical(more[n]) {
        AddedAllFrom(limits, more[..n], l);
        assert forall m :: m in more[..n] ==> m in more;
      }
    }
  }

  lemma {:induction false} UnexpiredMembers(limits: seq<RateLimit>, now: int)
    ensures forall l :: l in Unexpired(limits, now) <==> l in limits && l.Active(now)
  {
    if limits != [] {
      var n := |limits| - 1;
      UnexpiredMembers(limits[..n], now);
      assert forall l :: l in limits <==> l in limits[..n] || l == limits[n];
    }
  }

  /** Cleaning keeps the order. */
  lemma {:induction false} UnexpiredConcat(a: seq<RateLimit>, b: seq<RateLimit>, now: int)
    ensures Unexpired(a + b, now) == Unexpired(a, now) + Unexpired(b, now)
  {
    if b == [] {
      assert a + b == a;
    } else {
      assert (a + b)[..|a + b| - 1] == a + b[..|b| - 1];
      UnexpiredConcat(a, b[..|b| - 1], now);
    }
  }

  lemma {:induction false} UnexpiredDistinct(limits: seq<RateLimit>, now: int)
    requires Distinct(limits)
    ensures Distinct(Unexpired(limits, now))
  {
    if limits != [] {
      var n := |limits| - 1;
      UnexpiredDistinct(limits[..n], now);
      UnexpiredMembers(limits[..n], now);
      var init := Unexpired(limits[..n], now);
      forall i | 0 <= i < |init|
        ensures !init[i].SameKey(limits[n])
      {
        assert init[i] in limits[..n];
        var k :| 0 <= k < n && limits[k] == init[i];
      }
    }
  }

  // ----- Runs ------------------------------------------------------------------------------------------

  datatype Operation = Add(limit: RateLimit) | Merge(limits: seq<RateLimit>) | CleanExpired(now: int)

  /** The collection after a run of operations. */
  function Collected(run: seq<Operation>): seq<RateLimit> {
    if run == [] then [] else
      var before := Collected(run[..|run| - 1]);
      match run[|run| - 1]
      case Add(limit) => Added(before, limit)
      case Merge(limits) => AddedAll(before, limits)
      case CleanExpired(now) => Unexpired(before, now)
  }

  /** All limits that were ever added. */
  function Log(run: seq<Operation>): seq<RateLimit> {
    if run == [] then [] else
      var before := Log(run[..|run| - 1]);
      match run[|run| - 1]
      case Add(limit) => before + [limit]
      case Merge(limits) => before + limits
      case CleanExpired(_) => before
  }

  /** All removals of expired limits took place no later than `now`. */
  ghost predicate CleanedBy(run: seq<Operation>, now: int) {
    forall i :: 0 <= i < |run| && run[i].CleanExpired? ==> run[i].now <= now
  }

  lemma {:induction false} AddedAllDistinct(limits: seq<RateLimit>, more: seq<RateLimit>)
    requires Distinct(limits)
    ensures Distinct(AddedAll(limits, more))
  {
    if more != [] {
      AddedAllDistinct(limits, more[..|more| - 1]);
      AddedDistinct(AddedAll(limits, more[..|more| - 1]), more[|more| - 1]);
    }
  }

  lemma {:induction false} CollectedDistinct(run: seq<Operation>)
    ensures Distinct(Collected(run))
  {
    if run != [] {
      var before := Collected(run[..|run| - 1]);
      CollectedDistinct(run[..|run| - 1]);
      match run[|run| - 1]
      case Add(limit) => AddedDistinct(before, limit);
      case Merge(limits) => AddedAllDistinct(before, limits);
      case CleanExpired(now) => UnexpiredDistinct(before, now);
    }
  }

  lemma UnexpiredRestricts(limits: seq<RateLimit>, cleaned: int, item: ItemScoping, now: int)
    requires cleaned <= now
    ensures Restricts(Unexpired(limits, cleaned), item, now) <==> Restricts(limits, item, now)
  {
    UnexpiredMembers(limits, cleaned);
  }

  lemma RestrictsConcat(a: seq<RateLimit>, b: seq<RateLimit>, item: ItemScoping, now: int)
    ensures Restricts(a + b, item, now) <==> Restricts(a, item, now) || Restricts(b, item, now)
  {
    assert forall l :: l in a + b <==> l in a || l in b;
  }

  /** Deduplication and cleaning lose nothing: after any run, an item is restricted exactly if some limit
      that was ever added applies to it and has not expired. */
  lemma {:induction false} CollectedRefinesLog(run: seq<Operation>, item: ItemScoping, now: int)
    requires CleanedBy(run, now)
    ensures Restricts(Collected(run), item, now) <==> Restricts(Log(run), item, now)
  {
    if run != [] {
      var n := |run| - 1;
      var before, log := Collected(run[..n]), Log(run[..n]);
      CollectedRefinesLog(run[..n], item, now);
      match run[n]
      case Add(limit) =>
        AddedRestricts(before, limit, item, now);
        RestrictsConcat(log, [limit], item, now);
        assert limit in [limit];
      case Merge(limits) =>
        AddedAllRestricts(before, limits, item, now);
        RestrictsConcat(log, limits, item, now);
      case CleanExpired(cleaned) =>
        UnexpiredRestricts(before, cleaned, item, now);
    }
  }

  // ----- Checking an item --------------------------------------------------------------------------------

  predicate RejectsAll(quota: Quota, item: ItemScoping) { quota.limit == Some(0) && quota.Matches(item) }

  /** The limits for all quotas that reject the item statically. */
  function StaticLimits(quotas: seq<Quota>, item: ItemScoping, now: int): seq<RateLimit> {
    if quotas == [] then [] else
      var n := |quotas| - 1;
      StaticLimits(quotas[..n], item, now) +
        if RejectsAll(quotas[n], item) then [FromQuota(quotas[n], item.scoping, RetryAfter(now, REJECT_ALL_SECS))] else []
  }

  /** The limits that apply to the item. */
  function Applicable(limits: seq<RateLimit>, item: ItemScoping): seq<RateLimit> {
    if limits == [] then [] else
      var n := |limits| - 1;
      Applicable(limits[..n], item) + if limits[n].Matches(item) then [limits[n]] else []
  }

  function Check(limits: seq<RateLimit>, quotas: seq<Quota>, item: ItemScoping, now: int): seq<RateLimit> {
    AddedAll(AddedAll([], StaticLimits(quotas, item, now)), Applicable(limits, item))
  }

  predicate IsLimited(limits: seq<RateLimit>, now: int) {
    exists i :: 0 <= i < |limits| && limits[i].Active(now)
  }

  lemma {:induction false} ApplicableMembers(limits: seq<RateLimit>, item: ItemScoping)
    ensures forall l :: l in Applicable(limits, item) <==> l in limits && l.Matches(item)
  {
    if limits != [] {
      var n := |limits| - 1;
      ApplicableMembers(limits[..n], item);
      assert forall l :: l in limits <==> l in limits[..n] || l == limits[n];
    }
  }

  lemma {:induction false} StaticLimitsMatch(quotas: seq<Quota>, item: ItemScoping, now: int)
    ensures forall l :: l in StaticLimits(quotas, item, now) ==>
              l.Matches(item) && l.retryAfter == RetryAfter(now, REJECT_ALL_SECS)
    ensures StaticLimits(quotas, item, now) != [] <==> exists i :: 0 <= i < |quotas| && RejectsAll(quotas[i], item)
  {
    if quotas != [] {
      var n := |quotas| - 1;
      StaticLimitsMatch(quotas[..n], item, now);
      FromQuotaMatches(quotas[n], item, RetryAfter(now, REJECT_ALL_SECS));
      if i :| 0 <= i < |quotas[..n]| && RejectsAll(quotas[..n][i], item) {
        assert RejectsAll(quotas[i], item);
      }
    }
  }

  lemma {:induction false} AddedAllMatch(limits: seq<RateLimit>, more: seq<RateLimit>, item: ItemScoping)
    requires forall l :: l in limits ==> l.Matches(item)
    requires forall l :: l in more ==> l.Matches(item)
    ensures forall l :: l in AddedAll(limits, more) ==> l.Matches(item)
  {
    if more != [] {
      var n := |more| - 1;
      AddedAllMatch(limits, more[..n], item);
      CanonicalMatches(more[n], item);
      var before := AddedAll(limits, more[..n]);
      assert forall l :: l in Added(before, more[n]) ==> l in before || l == Canonical(more[n]);
    }
  }

  /** All limits that a check returns apply to the item. */
  lemma CheckMatches(limits: seq<RateLimit>, quotas: seq<Quota>, item: ItemScoping, now: int)
    ensures forall l :: l in Check(limits, quotas, item, now) ==> l.Matches(item)
  {
    StaticLimitsMatch(quotas, item, now);
    ApplicableMembers(limits, item);
    AddedAllMatch([], StaticLimits(quotas, item, now), item);
    AddedAllMatch(AddedAll([], StaticLimits(quotas, item, now)), Applicable(limits, item), item);
  }

  /** Limits keep their places when others are added. */
  lemma {:induction false} AddedAllKeepsPlaces(limits: seq<RateLimit>, more: seq<RateLimit>, j: nat)
    requires j < |limits|
    ensures j < |AddedAll(limits, more)| && AddedAll(limits, more)[j].SameKey(limits[j])
  {
    if more != [] {
      AddedAllKeepsPlaces(limits, more[..|more| - 1], j);
    }
  }

  /** A check lists the static rejections first. */
  lemma StaticsComeFirst(limits: seq<RateLimit>, quotas: seq<Quota>, item: ItemScoping, now: int, j: nat)
    requires j < |AddedAll([], StaticLimits(quotas, item, now))|
    ensures j < |Check(limits, quotas, item, now)|
    ensures Check(limits, quotas, item, now)[j].SameKey(AddedAll([], StaticLimits(quotas, item, now))[j])
  {
    AddedAllKeepsPlaces(AddedAll([], StaticLimits(quotas, item, now)), Applicable(limits, item), j);
  }

  /** After any run, an item is limited exactly if some limit that was ever added applies to it and has not
      expired, or a quota rejects it statically and the rejection ends at an instant that can be represented. */
  lemma CheckRefinesLog(run: seq<Operation>, quotas: seq<Quota>, item: ItemScoping, now: int)
    requires CleanedBy(run, now)
    ensures IsLimited(Check(Collected(run), quotas, item, now), now) <==>
              exists l :: l in Check(Collected(run), quotas, item, now) && now < l.retryAfter
    ensures (exists l :: l in Check(Collected(run), quotas, item, now) && now < l.retryAfter) <==>
              || (exists l :: l in Log(run) && now < l.retryAfter && l.Matches(item))
              || ((exists i :: 0 <= i < |quotas| && quotas[i].limit == Some(0) && quotas[i].Matches(item)) &&
                  now + Seconds(60) <= MAX_INSTANT)
  {
    var statics, applicable := StaticLimits(quotas, item, now), Applicable(Collected(run), item);
    var checked := Check(Collected(run), quotas, item, now);
    StaticLimitsMatch(quotas, item, now);
    ApplicableMembers(Collected(run), item);
    CheckMatches(Collected(run), quotas, item, now);
    assert IsLimited(checked, now) <==> Restricts(checked, item, now) by {
      assert forall i :: 0 <= i < |checked| ==> checked[i] in checked;
    }
    AddedAllRestricts([], statics, item, now);
    AddedAllRestricts(AddedAll([], statics), applicable, item, now);
    assert Restricts(applicable, item, now) <==> Restricts(Collected(run), item, now);
    CollectedRefinesLog(run, item, now);
    assert statics != [] ==> statics[0] in statics;
    assert (exists i :: 0 <= i < |quotas| && RejectsAll(quotas[i], item)) <==>
           (exists i :: 0 <= i < |quotas| && quotas[i].limit == Some(0) && quotas[i].Matches(item));
    assert Restricts(Log(run), item, now) <==> exists l :: l in Log(run) && now < l.retryAfter && l.Matches(item);
  }

  // ----- The mutable collection ----------------------------------------------------------------------------

  class Collection {
    var limits: seq<RateLimit>

    constructor ()
      ensures limits == []
    {
      limits := [];
    }

    method Add(limit: RateLimit)
      modifies this
      ensures limits == Added(old(limits), limit)
    {
      var l := Canonical(limit);
      var i := Find(limits, l);
      if i == |limits| {
        limits := limits + [l];
      } else if limits[i].retryAfter < l.retryAfter {
        limits := limits[i := l];
      }
    }

    method Merge(more: seq<RateLimit>)
      modifies this
      ensures limits == AddedAll(old(limits), more)
    {
      for i := 0 to |more|
        invariant limits == AddedAll(old(limits), more[..i])
      {
        assert more[..i + 1][..i] == more[..i];
        Add(more[i]);
      }
      assert more[..|more|] == more;
    }

    method CleanExpired(now: int)
      modifies this
      ensures limits == Unexpired(old(limits), now)
    {
      var kept := [];
      for i := 0 to |limits|
        invariant limits == old(limits) && kept == Unexpired(limits[..i], now)
      {
        assert limits[..i + 1][..i] == limits[..i];
        if limits[i].Active(now) {
          kept := kept + [limits[i]];
        }
      }
      assert limits[..|limits|] == limits;
      limits := kept;
    }

    method CheckWithQuotas(quotas: seq<Quota>, item: ItemScoping, now: int) returns (applied: Collection)
      ensures fresh(applied) && applied.limits == Check(limits, quotas, item, now)
    {
      applied := new Collection();
      ghost var statics := [];
      for i := 0 to |quotas|
        invariant statics == StaticLimits(quotas[..i], item, now)
        invariant fresh(applied) && applied.limits == AddedAll([], statics)
      {
        assert quotas[..i + 1][..i] == quotas[..i];
        if quotas[i].limit == Some(0) && quotas[i].Matches(item) {
          var limit := FromQuota(quotas[i], item.scoping, RetryAfter(now, REJECT_ALL_SECS));
          assert (statics + [limit])[..|statics|] == statics;
          applied.Add(limit);
          statics := statics + [limit];
        }
      }
      assert quotas[..|quotas|] == quotas;
      ghost var chosen := [];
      for i := 0 to |limits|
        invariant chosen == Applicable(limits[..i], item)
        invariant fresh(applied) && applied.limits == AddedAll(AddedAll([], statics), chosen)
      {
        assert limits[..i + 1][..i] == limits[..i];
        if limits[i].Matches(item) {
          assert (chosen + [limits[i]])[..|chosen|] == chosen;
          applied.Add(limits[i]);
          chosen := chosen + [limits[i]];
        }
      }
      assert limits[..|limits|] == limits;
    }
  }
}
