/** A map whose keys are queued by the time at which they are due, and the removal of all entries that
    are past due (relay-metrics/src/aggregation.rs, `QueuedBucket` and `Aggregator::try_flush`). The heap
    is a multiset from which an entry with the earliest flush time can be popped. */
module FlushQueues {

  datatype Queued<K> = Queued(flushAt: int, key: K)

  datatype Table<!K, V> = Table(entries: map<K, V>, queue: multiset<Queued<K>>)

  ghost predicate IsQueued<K>(queue: multiset<Queued<K>>, key: K) {
    exists at :: Queued(at, key) in queue
  }

  ghost predicate OnlyEntry<K>(queue: multiset<Queued<K>>, q: Queued<K>) {
    queue[q] == 1 && forall p :: p in queue && p.key == q.key ==> p == q
  }

  /** The queue refers to every entry of the map exactly once and to nothing else. */
  ghost predicate Agrees<K, V>(t: Table<K, V>) {
    && (forall q :: q in t.queue ==> q.key in t.entries && OnlyEntry(t.queue, q))
    && (forall k :: k in t.entries ==> IsQueued(t.queue, k))
  }

  lemma ReplaceAgrees<K, V>(t: Table<K, V>, key: K, value: V)
    requires Agrees(t) && key in t.entries
    ensures Agrees(t.(entries := t.entries[key := value]))
  {
  }

  lemma AddIsQueued<K>(queue: multiset<Queued<K>>, q: Queued<K>, key: K)
    requires key == q.key || IsQueued(queue, key)
    ensures IsQueued(queue + multiset{q}, key)
  {
    if key == q.key {
      assert Queued(q.flushAt, key) in queue + multiset{q};
    } else {
      var at :| Queued(at, key) in queue;
      assert Queued(at, key) in queue + multiset{q};
    }
  }

  lemma AddOnlyEntry<K>(queue: multiset<Queued<K>>, q: Queued<K>, p: Queued<K>)
    requires forall p :: p in queue ==> p.key != q.key && OnlyEntry(queue, p)
    requires p in queue + multiset{q}
    ensures OnlyEntry(queue + multiset{q}, p)
  {
    assert p in queue ==> OnlyEntry(queue, p);
  }

  lemma AddAgrees<K, V>(t: Table<K, V>, key: K, value: V, flushAt: int)
    requires Agrees(t) && key !in t.entries
    ensures Agrees(Table(t.entries[key := value], t.queue + multiset{Queued(flushAt, key)}))
  {
    var q := Queued(flushAt, key);
    forall k | k == key || k in t.entries
      ensures IsQueued(t.queue + multiset{q}, k)
    {
      AddIsQueued(t.queue, q, k);
    }
    forall p | p in t.queue + multiset{q}
      ensures OnlyEntry(t.queue + multiset{q}, p)
    {
      AddOnlyEntry(t.queue, q, p);
    }
  }

  predicate Earliest<K(==)>(queue: multiset<Queued<K>>, q: Queued<K>) {
    q in queue && forall p :: p in queue ==> q.flushAt <= p.flushAt
  }

  lemma EarliestExists<K>(queue: multiset<Queued<K>>)
    requires queue != multiset{}
    ensures exists q :: Earliest(queue, q)
    decreases |queue|
  {
    var q :| q in queue;
    var rest := queue - multiset{q};
    assert forall p :: p in queue ==> p == q || p in rest;
    if rest == multiset{} {
      assert Earliest(queue, q);
    } else {
      EarliestExists(rest);
      var p :| Earliest(rest, p);
      assert Earliest(queue, if p.flushAt < q.flushAt then p else q);
    }
  }

  function KeysOf<K(==)>(popped: seq<Queued<K>>): set<K> {
    set q | q in popped :: q.key
  }

  /** What the map holds for the popped queue entries, in their order. */
  function Emitted<K, V>(t: Table<K, V>, popped: seq<Queued<K>>): seq<(K, V)>
    requires KeysOf(popped) <= t.entries.Keys
  {
    if popped == [] then [] else
      var q := popped[|popped| - 1];
      assert q in popped;
      Emitted(t, popped[..|popped| - 1]) + [(q.key, t.entries[q.key])]
  }

  /** `after` is `t` without the popped queue entries and what they refer to. */
  ghost predicate Drained<K, V>(t: Table<K, V>, after: Table<K, V>, popped: seq<Queued<K>>) {
    && after.queue + multiset(popped) == t.queue
    && after.entries == t.entries - KeysOf(popped)
  }

  ghost predicate InOrder<K>(popped: seq<Queued<K>>) {
    forall i, j :: 0 <= i < j < |popped| ==> popped[i].flushAt <= popped[j].flushAt
  }

  /** One flush, where `clock(i)` is the instant read when the i-th entry is considered: entries leave in
      the order of their flush times, each one strictly past due, and none that is past due at the last
      reading stays behind. */
  ghost predicate Flush<K, V>(t: Table<K, V>, after: Table<K, V>, popped: seq<Queued<K>>, clock: nat -> int) {
    && Drained(t, after, popped)
    && InOrder(popped)
    && (forall i :: 0 <= i < |popped| ==> popped[i].flushAt < clock(i))
    && (forall q :: q in after.queue ==> clock(|popped|) <= q.flushAt)
  }

  // ----- Draining --------------------------------------------------------------------------------

  /** A popped entry was in the queue, so it refers to an entry of the map, and it is no longer queued. */
  lemma PoppedAreHeld<K, V>(t: Table<K, V>, after: Table<K, V>, popped: seq<Queued<K>>)
    requires Agrees(t) && Drained(t, after, popped)
    ensures forall q :: q in popped ==> q in t.queue && q !in after.queue && multiset(popped)[q] == 1
    ensures KeysOf(popped) <= t.entries.Keys
  {
    forall q | q in popped
      ensures q in t.queue && q !in after.queue && multiset(popped)[q] == 1
    {
      assert q in multiset(popped);
      assert t.queue[q] == after.queue[q] + multiset(popped)[q];
      assert OnlyEntry(t.queue, q);
    }
  }

  lemma OccursOnce<T>(s: seq<T>, i: nat, j: nat)
    requires i < j < |s| && multiset(s)[s[j]] <= 1
    ensures s[i] != s[j]
  {
    assert s == s[..j] + [s[j]] + s[j + 1..];
    assert multiset(s) == multiset(s[..j]) + multiset{s[j]} + multiset(s[j + 1..]);
    assert s[j] !in multiset(s[..j]);
    assert s[i] in s[..j];
  }

  ghost predicate DistinctKeys<K>(popped: seq<Queued<K>>) {
    forall i, j :: 0 <= i < j < |popped| ==> popped[i].key != popped[j].key
  }

  /** No key is popped twice. */
  lemma PoppedDistinct<K, V>(t: Table<K, V>, after: Table<K, V>, popped: seq<Queued<K>>)
    requires Agrees(t) && Drained(t, after, popped)
    ensures DistinctKeys(popped)
  {
    PoppedAreHeld(t, after, popped);
    forall i, j | 0 <= i < j < |popped|
      ensures popped[i].key != popped[j].key
    {
      OccursOnce(popped, i, j);
      assert OnlyEntry(t.queue, popped[i]);
    }
  }

  lemma {:induction false} EmittedParts<K, V>(t: Table<K, V>, popped: seq<Queued<K>>)
    requires KeysOf(popped) <= t.entries.Keys
    ensures |Emitted(t, popped)| == |popped|
    ensures forall p :: p in Emitted(t, popped) ==> p.0 in t.entries && p.1 == t.entries[p.0]
  {
    if popped != [] {
      assert popped[|popped| - 1] in popped;
      EmittedParts(t, popped[..|popped| - 1]);
    }
  }

  lemma DrainedAgrees<K, V>(t: Table<K, V>, after: Table<K, V>, popped: seq<Queued<K>>)
    requires Agrees(t) && Drained(t, after, popped)
    ensures Agrees(after)
  {
    PoppedAreHeld(t, after, popped);
    forall q | q in after.queue
      ensures q.key in after.entries && OnlyEntry(after.queue, q)
    {
      assert t.queue[q] == after.queue[q] + multiset(popped)[q];
      assert OnlyEntry(t.queue, q);
      assert forall p :: p in popped ==> p.key != q.key;
      assert q.key !in KeysOf(popped);
    }
    forall k | k in after.entries
      ensures IsQueued(after.queue, k)
    {
      var at :| Queued(at, k) in t.queue;
      var q := Queued(at, k);
      assert q !in popped;
      assert t.queue[q] == after.queue[q] + multiset(popped)[q];
    }
  }

  // ----- Popping what is due ---------------------------------------------------------------------

  /** What has been popped was due, and was due no later than what was popped next. */
  ghost predicate Due<K>(popped: seq<Queued<K>>, clock: nat -> int) {
    popped != [] ==>
      var n := |popped| - 1;
      && Due(popped[..n], clock)
      && popped[n].flushAt < clock(n)
      && (n > 0 ==> popped[n - 1].flushAt <= popped[n].flushAt)
  }

  lemma {:induction false} DueInOrder<K>(popped: seq<Queued<K>>, clock: nat -> int)
    requires Due(popped, clock)
    ensures InOrder(popped)
    ensures forall i :: 0 <= i < |popped| ==> popped[i].flushAt < clock(i)
  {
    if popped != [] {
      DueInOrder(popped[..|popped| - 1], clock);
    }
  }

  /** A flush in progress. */
  ghost predicate Flushing<K, V>(t: Table<K, V>, now: Table<K, V>, popped: seq<Queued<K>>, clock: nat -> int) {
    && Drained(t, now, popped)
    && Due(popped, clock)
    && (popped != [] ==> forall q :: q in now.queue ==> popped[|popped| - 1].flushAt <= q.flushAt)
  }

  function Popped<K(==), V>(t: Table<K, V>, q: Queued<K>): Table<K, V> {
    Table(t.entries - {q.key}, t.queue - multiset{q})
  }

  lemma PopDrains<K, V>(t: Table<K, V>, now: Table<K, V>, popped: seq<Queued<K>>, q: Queued<K>)
    requires Drained(t, now, popped) && q in now.queue
    ensures Drained(t, Popped(now, q), popped + [q])
  {
    assert KeysOf(popped + [q]) == KeysOf(popped) + {q.key};
    assert multiset(popped + [q]) == multiset(popped) + multiset{q};
  }

  lemma PopEarliest<K, V>(t: Table<K, V>, now: Table<K, V>, popped: seq<Queued<K>>, q: Queued<K>,
                          clock: nat -> int)
    requires Flushing(t, now, popped, clock) && Earliest(now.queue, q) && q.flushAt < clock(|popped|)
    ensures Flushing(t, Popped(now, q), popped + [q], clock)
  {
    PopDrains(t, now, popped, q);
    assert (popped + [q])[..|popped|] == popped;
  }

  /** What the next entry refers to is still there and unchanged: its lookup cannot fail. */
  lemma PopFindsEntry<K, V>(t: Table<K, V>, now: Table<K, V>, popped: seq<Queued<K>>, q: Queued<K>)
    requires Agrees(t) && Drained(t, now, popped) && q in now.queue
    ensures q.key in now.entries && now.entries[q.key] == t.entries[q.key]
    ensures KeysOf(popped) <= KeysOf(popped + [q]) <= t.entries.Keys
    ensures Emitted(t, popped + [q]) == Emitted(t, popped) + [(q.key, now.entries[q.key])]
  {
    PoppedAreHeld(t, now, popped);
    DrainedAgrees(t, now, popped);
    assert (popped + [q])[..|popped|] == popped;
  }

  /** Once nothing that is left is due, the flush is complete. */
  lemma FlushingDone<K, V>(t: Table<K, V>, now: Table<K, V>, popped: seq<Queued<K>>, clock: nat -> int)
    requires Flushing(t, now, popped, clock)
    requires forall q :: q in now.queue ==> clock(|popped|) <= q.flushAt
    ensures Flush(t, now, popped, clock)
  {
    DueInOrder(popped, clock);
  }

  method Peek<K(==)>(queue: multiset<Queued<K>>) returns (q: Queued<K>)
    requires queue != multiset{}
    ensures Earliest(queue, q)
  {
    EarliestExists(queue);
    q :| q in queue && Earliest(queue, q);
  }

  /** Pops every entry that is past due and takes what it refers to out of the map. */
  method PopDue<K(==), V>(entries: map<K, V>, queue: multiset<Queued<K>>, clock: nat -> int)
    returns (entries': map<K, V>, queue': multiset<Queued<K>>, emitted: seq<(K, V)>,
             ghost popped: seq<Queued<K>>)
    requires Agrees(Table(entries, queue))
    ensures Flush(Table(entries, queue), Table(entries', queue'), popped, clock)
    ensures KeysOf(popped) <= entries.Keys
    ensures emitted == Emitted(Table(entries, queue), popped)
  {
    ghost var before := Table(entries, queue);
    entries', queue', emitted, popped := entries, queue, [], [];
    while queue' != multiset{}
      invariant Flushing(before, Table(entries', queue'), popped, clock)
      invariant KeysOf(popped) <= entries.Keys
      invariant emitted == Emitted(before, popped) && |emitted| == |popped|
      decreases |queue'|
    {
      var q := Peek(queue');
      if clock(|emitted|) <= q.flushAt {
        break;
      }
      PopEarliest(before, Table(entries', queue'), popped, q, clock);
      PopFindsEntry(before, Table(entries', queue'), popped, q);
      emitted := emitted + [(q.key, entries'[q.key])];
      entries', queue', popped := entries' - {q.key}, queue' - multiset{q}, popped + [q];
    }
    FlushingDone(before, Table(entries', queue'), popped, clock);
  }
}
