/** Adding up what a list of submissions or buckets reports. */
module Tallies {
  import opened BucketValues
  import opened FlushQueues

  /** The combination, in order, of what all items report. */
  ghost function Tally<T>(items: seq<T>, report: T -> Meaning): Meaning {
    if items == [] then Nothing
    else Combine(Tally(items[..|items| - 1], report), report(items[|items| - 1]))
  }

  lemma {:induction false} TallyConcat<T>(a: seq<T>, b: seq<T>, report: T -> Meaning)
    ensures Tally(a + b, report) == Combine(Tally(a, report), Tally(b, report))
  {
    if b == [] {
      assert a + b == a;
    } else {
      var init, last := b[..|b| - 1], b[|b| - 1];
      assert (a + b)[..|a + b| - 1] == a + init;
      TallyConcat(a, init, report);
      CombineAssociative(Tally(a, report), Tally(init, report), report(last));
    }
  }

  /** Equality of meanings up to the last gauge value. */
  predicate Same(a: Meaning, b: Meaning) { Unordered(a) == Unordered(b) }

  lemma SameCombine(a: Meaning, a': Meaning, b: Meaning, b': Meaning)
    requires Same(a, a') && Same(b, b')
    ensures Same(Combine(a, b), Combine(a', b'))
    ensures Same(Combine(a, b), Combine(b', a'))
  {
    UnorderedCombine(a, b);
    UnorderedCombine(a', b');
    CombineCommutative(a', b');
  }

  lemma TallyMoveLast<T>(a: seq<T>, x: T, b: seq<T>, report: T -> Meaning)
    ensures Same(Tally(a + [x] + b, report), Combine(Tally(a + b, report), report(x)))
  {
    var ta, tx, tb := Tally(a, report), report(x), Tally(b, report);
    TallyConcat(a + [x], b, report);
    TallyConcat(a, b, report);
    assert (a + [x])[..|a|] == a;
    CombineAssociative(ta, tx, tb);
    CombineAssociative(ta, tb, tx);
    CombineCommutative(tx, tb);
    SameCombine(ta, ta, Combine(tx, tb), Combine(tb, tx));
  }

  function Without<T>(s: seq<T>, i: nat): seq<T>
    requires i < |s|
  {
    s[..i] + s[i + 1..]
  }

  lemma WithoutOne<T>(s: seq<T>, i: nat)
    requires i < |s|
    ensures multiset(Without(s, i)) == multiset(s) - multiset{s[i]}
  {
    assert s == s[..i] + [s[i]] + s[i + 1..];
    assert multiset(s) == multiset(s[..i]) + multiset{s[i]} + multiset(s[i + 1..]);
  }

  lemma WithoutParts<T>(s: seq<T>, i: nat)
    requires i < |s|
    ensures s[..i] + [s[i]] + s[i + 1..] == s
  {
  }

  lemma TallyWithout<T>(s: seq<T>, i: nat, report: T -> Meaning)
    requires i < |s|
    ensures Same(Tally(s, report), Combine(Tally(Without(s, i), report), report(s[i])))
  {
    WithoutParts(s, i);
    TallyMoveLast(s[..i], s[i], s[i + 1..], report);
  }

  /** Taking an element out of one sequence and finding it in a permutation. */
  lemma FindLast<T>(a: seq<T>, b: seq<T>) returns (i: nat)
    requires a != [] && multiset(a) == multiset(b)
    ensures i < |b| && b[i] == a[|a| - 1] && multiset(a[..|a| - 1]) == multiset(Without(b, i))
  {
    var n := |a| - 1;
    assert a[n] in multiset(b);
    i :| 0 <= i < |b| && b[i] == a[n];
    WithoutOne(a, n);
    WithoutOne(b, i);
    assert Without(a, n) == a[..n];
  }

  /** What is reported does not depend on the order, except for the last gauge value. */
  lemma {:induction false} TallyPermutation<T>(a: seq<T>, b: seq<T>, report: T -> Meaning)
    requires multiset(a) == multiset(b)
    ensures Same(Tally(a, report), Tally(b, report))
  {
    if a == [] {
      assert |multiset(b)| == 0;
    } else {
      var n := |a| - 1;
      var i := FindLast(a, b);
      TallyPermutation(a[..n], Without(b, i), report);
      TallyWithout(b, i, report);
      SameCombine(Tally(a[..n], report), Tally(Without(b, i), report), report(b[i]), report(b[i]));
    }
  }

  lemma {:induction false} TallyMap<S, T>(items: seq<S>, images: seq<T>, report: S -> Meaning, reportImage: T -> Meaning)
    requires |items| == |images|
    requires forall i :: 0 <= i < |items| ==> report(items[i]) == reportImage(images[i])
    ensures Tally(items, report) == Tally(images, reportImage)
  {
    if items != [] {
      TallyMap(items[..|items| - 1], images[..|items| - 1], report, reportImage);
    }
  }

  /** Of the entries that leave a table, exactly the one with the given key reports something. */
  lemma {:induction false} EmittedTally<K(!new), V(!new)>(t: Table<K, V>, popped: seq<Queued<K>>, key: K,
                                                         report: ((K, V)) -> Meaning)
    requires KeysOf(popped) <= t.entries.Keys && DistinctKeys(popped)
    requires forall p: (K, V) :: p.0 != key ==> report(p) == Nothing
    ensures Tally(Emitted(t, popped), report) ==
              if key in KeysOf(popped) then report((key, t.entries[key])) else Nothing
  {
    if popped != [] {
      var n := |popped| - 1;
      var init, q := popped[..n], popped[n];
      assert q in popped;
      assert KeysOf(popped) == KeysOf(init) + {q.key};
      EmittedTally(t, init, key, report);
      assert q.key !in KeysOf(init);
    }
  }

  // ----- Adding up numbers -----------------------------------------------------------------------

  /** The sum of the weights of all items. */
  ghost function Weigh<T>(items: seq<T>, weight: T -> nat): nat {
    if items == [] then 0 else Weigh(items[..|items| - 1], weight) + weight(items[|items| - 1])
  }

  lemma {:induction false} WeighConcat<T>(a: seq<T>, b: seq<T>, weight: T -> nat)
    ensures Weigh(a + b, weight) == Weigh(a, weight) + Weigh(b, weight)
  {
    if b == [] {
      assert a + b == a;
    } else {
      assert (a + b)[..|a + b| - 1] == a + b[..|b| - 1];
      WeighConcat(a, b[..|b| - 1], weight);
    }
  }

  lemma WeighOne<T>(x: T, weight: T -> nat)
    ensures Weigh([x], weight) == weight(x)
  {
    assert [x][..0] == [];
  }

  lemma WeighWithout<T>(s: seq<T>, i: nat, weight: T -> nat)
    requires i < |s|
    ensures Weigh(s, weight) == Weigh(Without(s, i), weight) + weight(s[i])
  {
    WithoutParts(s, i);
    WeighConcat(s[..i] + [s[i]], s[i + 1..], weight);
    WeighConcat(s[..i], [s[i]], weight);
    WeighConcat(s[..i], s[i + 1..], weight);
    WeighOne(s[i], weight);
  }

  lemma {:induction false} WeighPermutation<T>(a: seq<T>, b: seq<T>, weight: T -> nat)
    requires multiset(a) == multiset(b)
    ensures Weigh(a, weight) == Weigh(b, weight)
  {
    if a == [] {
      assert |multiset(b)| == 0;
    } else {
      var i := FindLast(a, b);
      WeighPermutation(a[..|a| - 1], Without(b, i), weight);
      WeighWithout(b, i, weight);
    }
  }

  lemma {:induction false} WeighMap<S, T>(items: seq<S>, images: seq<T>, weight: S -> nat, weightOfImage: T -> nat)
    requires |items| == |images|
    requires forall i :: 0 <= i < |items| ==> weight(items[i]) == weightOfImage(images[i])
    ensures Weigh(items, weight) == Weigh(images, weightOfImage)
  {
    if items != [] {
      WeighMap(items[..|items| - 1], images[..|items| - 1], weight, weightOfImage);
    }
  }

  lemma {:induction false} EmittedWeigh<K(!new), V(!new)>(t: Table<K, V>, popped: seq<Queued<K>>, key: K,
                                                         weight: ((K, V)) -> nat)
    requires KeysOf(popped) <= t.entries.Keys && DistinctKeys(popped)
    requires forall p: (K, V) :: p.0 != key ==> weight(p) == 0
    ensures Weigh(Emitted(t, popped), weight) ==
              if key in KeysOf(popped) then weight((key, t.entries[key])) else 0
  {
    if popped != [] {
      var n := |popped| - 1;
      var init, q := popped[..n], popped[n];
      assert q in popped;
      assert KeysOf(popped) == KeysOf(init) + {q.key};
      EmittedWeigh(t, init, key, weight);
      assert q.key !in KeysOf(init);
    }
  }
}
