/** The histogram of values kept in distribution buckets, its iterators and its serialized form
    (relay-metrics/src/aggregation.rs, `DistributionValue`). */
module Distributions {
  import opened Wrappers

  /** The number of values of the source's `Count` type, a `u32`. */
  const COUNT_VALUES: nat := 0x1_0000_0000

  type Count = n: nat | n < COUNT_VALUES

  /** Addition of counts, which wraps around. */
  function WrapAdd(a: Count, b: Count): Count {
    if a + b < COUNT_VALUES then a + b else a + b - COUNT_VALUES
  }

  /** What is left of a number when it is counted up to in the `Count` type. */
  function Wrap(n: nat): Count { n % COUNT_VALUES }

  lemma WrapSmall(n: nat)
    ensures Wrap(n) == n <==> n < COUNT_VALUES
  {
  }

  lemma WrapStep(n: nat)
    ensures Wrap(n + 1) == WrapAdd(Wrap(n), 1)
  {
  }

  lemma WrapSum(m: nat, n: nat)
    ensures Wrap(m + n) == WrapAdd(Wrap(m), Wrap(n))
  {
    var p, q := m / COUNT_VALUES, n / COUNT_VALUES;
    assert m == p * COUNT_VALUES + Wrap(m) && n == q * COUNT_VALUES + Wrap(n);
  }

  /** A totally ordered floating point number, the source's `FloatOrd<f64>`. */
  datatype Value = Value(number: real) {
    predicate Below(other: Value) { number < other.number }
  }

  datatype Entry = Entry(value: Value, count: Count)

  datatype Histogram = Histogram(values: map<Value, Count>, length: Count)

  const EMPTY: Histogram := Histogram(map[], 0)

  function Get(values: map<Value, Count>, v: Value): Count {
    if v in values then values[v] else 0
  }

  /** The histogram after adding `v` another `count` times. */
  function Inserted(h: Histogram, v: Value, count: Count): Histogram {
    if count == 0 then h
    else Histogram(h.values[v := WrapAdd(Get(h.values, v), count)], WrapAdd(h.length, count))
  }

  // ----- Iteration in ascending order --------------------------------------------------------

  predicate IsLeast(values: map<Value, Count>, v: Value) {
    v in values && forall w :: w in values ==> !w.Below(v)
  }

  lemma LeastExists(values: map<Value, Count>)
    requires values != map[]
    ensures exists v :: IsLeast(values, v)
  {
    var v :| v in values;
    var rest := values - {v};
    assert forall w :: w in values ==> w == v || w in rest;
    if rest == map[] {
      assert IsLeast(values, v);
    } else {
      LeastExists(rest);
      var u :| IsLeast(rest, u);
      assert IsLeast(values, if u.Below(v) then u else v);
    }
  }

  /** The entries in the order in which the source's `BTreeMap` yields them. */
  function Entries(values: map<Value, Count>): seq<Entry> {
    if values == map[] then [] else
      LeastExists(values);
      var v :| IsLeast(values, v);
      [Entry(v, values[v])] + Entries(values - {v})
  }

  ghost predicate Ascends(es: seq<Entry>) {
    forall i, j :: 0 <= i < j < |es| ==> es[i].value.number < es[j].value.number
  }

  ghost predicate ListedIn(es: seq<Entry>, values: map<Value, Count>) {
    forall e :: e in es ==> e.value in values && e.count == values[e.value]
  }

  lemma {:induction false} EntriesListed(values: map<Value, Count>)
    ensures ListedIn(Entries(values), values)
  {
    if values != map[] {
      EntriesListed(values - {Entries(values)[0].value});
    }
  }

  lemma {:induction false} EntriesAscend(values: map<Value, Count>)
    ensures Ascends(Entries(values))
  {
    if values != map[] {
      var es := Entries(values);
      var rest := values - {es[0].value};
      EntriesAscend(rest);
      EntriesListed(rest);
      assert IsLeast(values, es[0].value) && es[1..] == Entries(rest);
      forall i, j | 0 <= i < j < |es|
        ensures es[i].value.number < es[j].value.number
      {
        assert es[j] == Entries(rest)[j - 1];
        if i > 0 {
          assert es[i] == Entries(rest)[i - 1];
        } else {
          assert es[j] in Entries(rest);
        }
      }
    }
  }

  lemma {:induction false} EntryOf(values: map<Value, Count>, v: Value) returns (i: nat)
    requires v in values
    ensures i < |Entries(values)| && Entries(values)[i] == Entry(v, values[v])
  {
    var least := Entries(values)[0].value;
    if v == least {
      i := 0;
    } else {
      var j := EntryOf(values - {least}, v);
      i := j + 1;
    }
  }

  function Repeat(v: Value, n: nat): (s: seq<Value>)
    ensures |s| == n && forall i :: 0 <= i < n ==> s[i] == v
  {
    seq(n, _ => v)
  }

  /** Every value of an entry list, repeated as often as its entry says. */
  function Expand(es: seq<Entry>): seq<Value> {
    if es == [] then [] else Repeat(es[0].value, es[0].count) + Expand(es[1..])
  }

  ghost predicate Ascending(s: seq<Value>) {
    forall i, j :: 0 <= i < j < |s| ==> s[i].number <= s[j].number
  }

  lemma {:induction false} RepeatSamples(v: Value, n: nat)
    ensures multiset(Repeat(v, n)) == multiset{}[v := n]
  {
    if n > 0 {
      RepeatSamples(v, n - 1);
      assert Repeat(v, n) == Repeat(v, n - 1) + [v];
    }
  }

  lemma {:induction false} ExpandMember(es: seq<Entry>, k: nat)
    requires k < |Expand(es)|
    ensures exists i :: 0 <= i < |es| && es[i].value == Expand(es)[k]
  {
    if k < es[0].count {
      assert es[0].value == Expand(es)[k];
    } else {
      ExpandMember(es[1..], k - es[0].count);
      var i :| 0 <= i < |es[1..]| && es[1..][i].value == Expand(es[1..])[k - es[0].count];
      assert es[i + 1].value == Expand(es)[k];
    }
  }

  /** Values come out in ascending order. */
  lemma {:induction false} ExpandAscending(es: seq<Entry>)
    requires Ascends(es)
    ensures Ascending(Expand(es))
  {
    if es != [] {
      ExpandAscending(es[1..]);
      var s, n := Expand(es), es[0].count;
      forall i, j | 0 <= i < j < |s|
        ensures s[i].number <= s[j].number
      {
        if n <= i {
          assert s[i] == Expand(es[1..])[i - n] && s[j] == Expand(es[1..])[j - n];
        } else if n <= j {
          ExpandMember(es[1..], j - n);
        }
      }
    }
  }

  /** A value comes out exactly as often as the histogram counts it. */
  lemma {:induction false} ExpandCounts(values: map<Value, Count>, v: Value)
    ensures multiset(Expand(Entries(values)))[v] == Get(values, v)
  {
    var es := Entries(values);
    if es == [] {
      if v in values { var i := EntryOf(values, v); }
    } else {
      var least := es[0].value;
      ExpandCounts(values - {least}, v);
      RepeatSamples(least, es[0].count);
      assert es[1..] == Entries(values - {least});
    }
  }

  /** `iter_values` yields the multiset that the histogram counts, in ascending order. */
  lemma IterationSorts(values: map<Value, Count>)
    ensures Ascending(Expand(Entries(values)))
    ensures forall v :: multiset(Expand(Entries(values)))[v] == Get(values, v)
  {
    EntriesAscend(values);
    ExpandAscending(Entries(values));
    forall v
      ensures multiset(Expand(Entries(values)))[v] == Get(values, v)
    {
      ExpandCounts(values, v);
    }
  }

  // ----- Building and merging ----------------------------------------------------------------

  /** The histogram built by inserting the given samples one by one into an empty one. */
  function FromSamples(samples: seq<Value>): Histogram {
    if samples == [] then EMPTY
    else Inserted(FromSamples(samples[..|samples| - 1]), samples[|samples| - 1], 1)
  }

  /** A histogram counts its samples modulo 2^32, whatever was inserted in whatever order. */
  lemma {:induction false} FromSamplesCounts(samples: seq<Value>, v: Value)
    ensures FromSamples(samples).length == Wrap(|samples|)
    ensures v in FromSamples(samples).values <==> v in multiset(samples)
    ensures Get(FromSamples(samples).values, v) == Wrap(multiset(samples)[v])
  {
    if samples != [] {
      var init, last := samples[..|samples| - 1], samples[|samples| - 1];
      FromSamplesCounts(init, v);
      assert samples == init + [last];
      WrapStep(|init|);
      WrapStep(multiset(init)[v]);
    }
  }

  /** No count has wrapped around: every listed value occurs, and the length is the number of samples. */
  ghost predicate Exact(h: Histogram) {
    && (forall v :: v in h.values ==> h.values[v] > 0)
    && |Expand(Entries(h.values))| == h.length
  }

  lemma SamplesBound(samples: multiset<Value>, v: Value)
    ensures samples[v] <= |samples|
  {
    assert samples == samples[v := 0] + multiset{}[v := samples[v]];
  }

  lemma CountsExact(h: Histogram, samples: seq<Value>)
    requires |samples| < COUNT_VALUES && h.length == |samples|
    requires forall v :: v in h.values <==> v in multiset(samples)
    requires forall v :: Get(h.values, v) == Wrap(multiset(samples)[v])
    ensures Exact(h)
    ensures multiset(Expand(Entries(h.values))) == multiset(samples)
  {
    var out := Expand(Entries(h.values));
    forall v
      ensures multiset(out)[v] == multiset(samples)[v]
      ensures v in h.values ==> h.values[v] > 0
    {
      ExpandCounts(h.values, v);
      SamplesBound(multiset(samples), v);
      WrapSmall(multiset(samples)[v]);
    }
    assert multiset(out) == multiset(samples);
    assert |out| == |multiset(out)| == |samples|;
  }

  /** A histogram is exactly the multiset of its samples if and only if their number fits into 32 bits. */
  lemma FromSamplesExact(samples: seq<Value>)
    ensures (Exact(FromSamples(samples)) &&
             multiset(Expand(Entries(FromSamples(samples).values))) == multiset(samples))
        <==> |samples| < COUNT_VALUES
  {
    var out := Expand(Entries(FromSamples(samples).values));
    assert |multiset(out)| == |out| && |multiset(samples)| == |samples|;
    if |samples| < COUNT_VALUES {
      forall v {
        FromSamplesCounts(samples, v);
      }
      FromSamplesCounts(samples, Value(0.0));
      WrapSmall(|samples|);
      CountsExact(FromSamples(samples), samples);
    }
  }

  /** Deserializing a serialized distribution gives the distribution back. */
  lemma SerializeRoundTrip(h: Histogram)
    requires Exact(h)
    ensures FromSamples(Expand(Entries(h.values))) == h
  {
    var s := Expand(Entries(h.values));
    var g := FromSamples(s);
    forall v
      ensures v in g.values <==> v in h.values
      ensures v in h.values ==> g.values[v] == h.values[v]
    {
      ExpandCounts(h.values, v);
      FromSamplesCounts(s, v);
      WrapSmall(multiset(s)[v]);
    }
    assert g.values == h.values;
    WrapSmall(|s|);
    FromSamplesCounts(s, Value(0.0));
  }

  /** The histogram after adding every (value, count) pair of `es` to `h`. */
  function ExtendEntries(h: Histogram, es: seq<Entry>): Histogram {
    if es == [] then h
    else Inserted(ExtendEntries(h, es[..|es| - 1]), es[|es| - 1].value, es[|es| - 1].count)
  }

  function Merge(h: Histogram, other: Histogram): Histogram {
    ExtendEntries(h, Entries(other.values))
  }

  lemma {:induction false} ExtendMisses(h: Histogram, es: seq<Entry>, v: Value)
    requires forall e :: e in es ==> e.value != v
    ensures Get(ExtendEntries(h, es).values, v) == Get(h.values, v)
    ensures v in ExtendEntries(h, es).values <==> v in h.values
  {
    if es != [] {
      ExtendMisses(h, es[..|es| - 1], v);
    }
  }

  lemma {:induction false} ExtendHits(h: Histogram, es: seq<Entry>, i: nat)
    requires i < |es|
    requires Ascends(es)
    ensures Get(ExtendEntries(h, es).values, es[i].value) == WrapAdd(Get(h.values, es[i].value), es[i].count)
    ensures es[i].value in ExtendEntries(h, es).values <==> es[i].value in h.values || es[i].count > 0
  {
    var init := es[..|es| - 1];
    if i == |es| - 1 {
      ExtendMisses(h, init, es[i].value);
    } else {
      ExtendHits(h, init, i);
    }
  }

  /** Merging adds the counts of every value, modulo 2^32. */
  lemma MergeCounts(h: Histogram, other: Histogram, v: Value)
    ensures Get(Merge(h, other).values, v) == WrapAdd(Get(h.values, v), Get(other.values, v))
    ensures v in Merge(h, other).values <==> v in h.values || Get(other.values, v) > 0
  {
    if v in other.values {
      var i := EntryOf(other.values, v);
      EntriesAscend(other.values);
      ExtendHits(h, Entries(other.values), i);
    } else {
      EntriesListed(other.values);
      ExtendMisses(h, Entries(other.values), v);
    }
  }

  lemma {:induction false} ExpandConcat(a: seq<Entry>, b: seq<Entry>)
    ensures Expand(a + b) == Expand(a) + Expand(b)
  {
    if a == [] {
      assert a + b == b;
    } else {
      assert (a + b)[1..] == a[1..] + b;
      ExpandConcat(a[1..], b);
    }
  }

  lemma ExpandLast(es: seq<Entry>)
    requires es != []
    ensures |Expand(es)| == |Expand(es[..|es| - 1])| + es[|es| - 1].count
  {
    var n := |es| - 1;
    assert es == es[..n] + [es[n]];
    ExpandConcat(es[..n], [es[n]]);
    assert Expand([es[n]]) == Repeat(es[n].value, es[n].count) + Expand([]);
  }

  lemma WrapAddAssociative(a: Count, b: Count, c: Count)
    ensures WrapAdd(WrapAdd(a, b), c) == WrapAdd(a, WrapAdd(b, c))
  {
  }

  /** The length grows by the number of all added samples, modulo 2^32. */
  lemma {:induction false} ExtendLength(h: Histogram, es: seq<Entry>)
    ensures ExtendEntries(h, es).length == WrapAdd(h.length, Wrap(|Expand(es)|))
  {
    if es != [] {
      var n := |es| - 1;
      ExpandLast(es);
      ExtendLength(h, es[..n]);
      WrapSum(|Expand(es[..n])|, es[n].count);
      WrapSmall(es[n].count);
      WrapAddAssociative(h.length, Wrap(|Expand(es[..n])|), es[n].count);
    }
  }

  // ----- The length follows from the counts ----------------------------------------------------

  /** The length is what the counts add up to, modulo 2^32. Every distribution is like this, since its fields
      are private and change together. */
  ghost predicate Balanced(h: Histogram) {
    h.length == Wrap(|Expand(Entries(h.values))|)
  }

  lemma ReplaceCount(samples: multiset<Value>, v: Value, n: nat)
    ensures |samples[v := n]| + samples[v] == |samples| + n
  {
    var rest := samples[v := 0];
    assert samples == rest + multiset{}[v := samples[v]];
    assert samples[v := n] == rest + multiset{}[v := n];
  }

  /** Changing the count of one value changes the number of samples accordingly. */
  lemma ExpandUpdate(values: map<Value, Count>, v: Value, n: Count)
    ensures |Expand(Entries(values[v := n]))| + Get(values, v) == |Expand(Entries(values))| + n
  {
    var before, after := multiset(Expand(Entries(values))), multiset(Expand(Entries(values[v := n])));
    forall w
      ensures after[w] == before[v := n][w]
    {
      ExpandCounts(values, w);
      ExpandCounts(values[v := n], w);
    }
    assert after == before[v := n];
    ExpandCounts(values, v);
    ReplaceCount(before, v, n);
    assert |after| == |Expand(Entries(values[v := n]))| && |before| == |Expand(Entries(values))|;
  }

  lemma InsertedBalanced(h: Histogram, v: Value, count: Count)
    requires Balanced(h)
    ensures Balanced(Inserted(h, v, count))
  {
    if count > 0 {
      var c := Get(h.values, v);
      var before, after := |Expand(Entries(h.values))|, |Expand(Entries(Inserted(h, v, count).values))|;
      ExpandUpdate(h.values, v, WrapAdd(c, count));
      WrapSum(before, count);
      WrapSmall(count);
      if c + count >= COUNT_VALUES {
        assert after + COUNT_VALUES == before + count;
        WrapSum(after, COUNT_VALUES);
      }
    }
  }

  lemma {:induction false} ExtendBalanced(h: Histogram, es: seq<Entry>)
    requires Balanced(h)
    ensures Balanced(ExtendEntries(h, es))
  {
    if es != [] {
      var n := |es| - 1;
      ExtendBalanced(h, es[..n]);
      InsertedBalanced(ExtendEntries(h, es[..n]), es[n].value, es[n].count);
    }
  }

  lemma {:induction false} FromSamplesBalanced(samples: seq<Value>)
    ensures Balanced(FromSamples(samples))
  {
    if samples == [] {
      assert Entries(EMPTY.values) == [];
    } else {
      FromSamplesBalanced(samples[..|samples| - 1]);
      InsertedBalanced(FromSamples(samples[..|samples| - 1]), samples[|samples| - 1], 1);
    }
  }

  /** Merging adds up the lengths modulo 2^32 and keeps them in line with the counts. */
  lemma MergeBalanced(h: Histogram, other: Histogram)
    requires Balanced(other)
    ensures Merge(h, other).length == WrapAdd(h.length, other.length)
    ensures Balanced(h) ==> Balanced(Merge(h, other))
  {
    ExtendLength(h, Entries(other.values));
    if Balanced(h) {
      ExtendBalanced(h, Entries(other.values));
    }
  }

  lemma MergeExactAt(h: Histogram, other: Histogram, v: Value)
    requires Exact(h) && Exact(other) && h.length + other.length < COUNT_VALUES
    ensures Get(Merge(h, other).values, v) == Get(h.values, v) + Get(other.values, v)
    ensures v in Merge(h, other).values ==> Merge(h, other).values[v] > 0
  {
    var a, b := multiset(Expand(Entries(h.values))), multiset(Expand(Entries(other.values)));
    assert |a| == h.length && |b| == other.length;
    ExpandCounts(h.values, v);
    ExpandCounts(other.values, v);
    SamplesBound(a, v);
    SamplesBound(b, v);
    MergeCounts(h, other, v);
  }

  lemma MergeUnion(h: Histogram, other: Histogram)
    requires Exact(h) && Exact(other) && h.length + other.length < COUNT_VALUES
    ensures multiset(Expand(Entries(Merge(h, other).values))) ==
              multiset(Expand(Entries(h.values))) + multiset(Expand(Entries(other.values)))
  {
    forall v
      ensures multiset(Expand(Entries(Merge(h, other).values)))[v] ==
                (multiset(Expand(Entries(h.values))) + multiset(Expand(Entries(other.values))))[v]
    {
      ExpandCounts(Merge(h, other).values, v);
      ExpandCounts(h.values, v);
      ExpandCounts(other.values, v);
      MergeExactAt(h, other, v);
    }
  }

  /** Merging distributions is the union of their multisets, as long as the samples fit into 32 bits. */
  lemma MergeExact(h: Histogram, other: Histogram)
    requires Exact(h) && Exact(other) && h.length + other.length < COUNT_VALUES
    ensures Exact(Merge(h, other))
    ensures multiset(Expand(Entries(Merge(h, other).values))) ==
              multiset(Expand(Entries(h.values))) + multiset(Expand(Entries(other.values)))
  {
    MergeUnion(h, other);
    var a, b, m := Expand(Entries(h.values)), Expand(Entries(other.values)), Expand(Entries(Merge(h, other).values));
    assert |multiset(a)| == |a| && |multiset(b)| == |b| && |multiset(m)| == |m|;
    ExtendLength(h, Entries(other.values));
    WrapSmall(other.length);
    forall v | v in Merge(h, other).values
      ensures Merge(h, other).values[v] > 0
    {
      MergeExactAt(h, other, v);
    }
  }

  lemma ExactSingle(v: Value, count: Count)
    ensures Exact(Inserted(EMPTY, v, count))
  {
    assert Entries(EMPTY.values) == [];
    if count > 0 {
      ExpandUpdate(EMPTY.values, v, count);
    }
  }

  /** Inserting keeps a distribution exact as long as the samples fit into 32 bits. */
  lemma InsertedExact(h: Histogram, v: Value, count: Count)
    requires Exact(h) && h.length + count < COUNT_VALUES
    ensures Exact(Inserted(h, v, count)) && Inserted(h, v, count).length == h.length + count
  {
    if count > 0 {
      var m := multiset(Expand(Entries(h.values)));
      assert |m| == h.length;
      ExpandCounts(h.values, v);
      SamplesBound(m, v);
      ExpandUpdate(h.values, v, WrapAdd(Get(h.values, v), count));
    }
  }

  /** Distributions without wrapped counts are determined by how often each value occurs. */
  lemma ExactIsCounts(g: Histogram, h: Histogram)
    requires Exact(g) && Exact(h) && forall v :: Get(g.values, v) == Get(h.values, v)
    ensures g == h
  {
    forall v
      ensures v in g.values <==> v in h.values
      ensures v in g.values ==> g.values[v] == h.values[v]
    {
      assert Get(g.values, v) == Get(h.values, v);
    }
    assert g.values == h.values;
  }

  // ----- The mutable distribution and its iterator ---------------------------------------------

  class DistributionValue {
    var values: map<Value, Count>
    var length: Count

    ghost function View(): Histogram
      reads this
    {
      Histogram(values, length)
    }

    constructor ()
      ensures View() == EMPTY
    {
      values, length := map[], 0;
    }

    /** Returns the number of occurrences after inserting, but 0 if nothing is inserted. */
    method InsertMulti(value: Value, count: Count) returns (occurrences: Count)
      modifies this
      ensures View() == Inserted(old(View()), value, count)
      ensures occurrences == if count == 0 then 0 else Get(values, value)
      ensures occurrences == Get(values, value) <==> count > 0 || Get(old(values), value) == 0
    {
      length := WrapAdd(length, count);
      if count == 0 {
        return 0;
      }
      values := values[value := WrapAdd(Get(values, value), count)];
      occurrences := values[value];
    }

    /** Deserialization: one insertion for each element of the list. */
    method Deserialize(samples: seq<Value>)
      modifies this
      requires View() == EMPTY
      ensures View() == FromSamples(samples)
    {
      for i := 0 to |samples|
        invariant View() == FromSamples(samples[..i])
      {
        assert samples[..i + 1][..i] == samples[..i];
        var _ := InsertMulti(samples[i], 1);
      }
      assert samples[..|samples|] == samples;
    }

    method Extend(other: Histogram)
      modifies this
      ensures View() == Merge(old(View()), other)
    {
      var es := Entries(other.values);
      for i := 0 to |es|
        invariant View() == ExtendEntries(old(View()), es[..i])
      {
        assert es[..i + 1][..i] == es[..i];
        var _ := InsertMulti(es[i].value, es[i].count);
      }
      assert es[..|es|] == es;
    }

    /** Serialization: the elements that `iter_values` yields, in its order. */
    method Serialize() returns (out: seq<Value>)
      requires Exact(View())
      ensures out == Expand(Entries(values))
    {
      var iter := new ValuesIter(Histogram(values, length));
      out := iter.Collect();
    }
  }

  lemma MoveFirst<T>(a: seq<T>, b: seq<T>)
    requires b != []
    ensures (a + [b[0]]) + b[1..] == a + b
  {
  }

  lemma RepeatTail(v: Value, n: nat, rest: seq<Value>)
    requires n > 0
    ensures (Repeat(v, n) + rest)[0] == v && (Repeat(v, n) + rest)[1..] == Repeat(v, n - 1) + rest
  {
    assert Repeat(v, n)[1..] == Repeat(v, n - 1);
  }

  class ValuesIter {
    var inner: seq<Entry>
    var current: Value
    var remaining: Count
    var total: Count

    /** What is still to be yielded. */
    ghost function Pending(): seq<Value>
      reads this
    {
      Repeat(current, remaining) + Expand(inner)
    }

    ghost predicate Valid()
      reads this
    {
      && total == |Pending()|
      && forall e :: e in inner ==> e.count > 0
    }

    constructor (h: Histogram)
      requires Exact(h)
      ensures Valid() && Pending() == Expand(Entries(h.values))
    {
      EntriesListed(h.values);
      inner := Entries(h.values);
      current := Value(0.0);
      remaining := 0;
      total := h.length;
    }

    /** Yields the pending values one after the other; no counter drops below zero on the way. */
    method Next() returns (next: Option<Value>)
      requires Valid()
      modifies this
      ensures Valid()
      ensures next == if old(Pending()) == [] then None else Some(old(Pending())[0])
      ensures Pending() == if old(Pending()) == [] then [] else old(Pending())[1..]
    {
      if remaining > 0 {
        RepeatTail(current, remaining, Expand(inner));
        remaining := remaining - 1;
        total := total - 1;
        return Some(current);
      }
      if inner == [] {
        return None;
      }
      var Entry(value, count) := inner[0];
      assert Pending() == Expand(inner);
      RepeatTail(value, count, Expand(inner[1..]));
      inner := inner[1..];
      current := value;
      remaining := count - 1;
      total := total - 1;
      return Some(current);
    }

    /** Yields everything that is left. */
    method Collect() returns (out: seq<Value>)
      requires Valid()
      modifies this
      ensures Valid() && Pending() == [] && out == old(Pending())
    {
      out := [];
      while true
        invariant Valid()
        invariant out + Pending() == old(Pending())
        decreases |Pending()|
      {
        ghost var pending := Pending();
        var next := Next();
        if next.None? {
          break;
        }
        MoveFirst(out, pending);
        out := out + [next.value];
      }
    }

    method SizeHint() returns (n: nat)
      requires Valid()
      ensures n == |Pending()|
    {
      n := total;
    }
  }
}
