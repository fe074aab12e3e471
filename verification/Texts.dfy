/** Byte strings. */
module ByteStrings {
  newtype Byte = b: int | 0 <= b < 256

  type Bytes = seq<Byte>

  const NUL: Byte := 0
  const NEWLINE: Byte := 10
}

/** Splitting strings, of bytes or characters, at a separator. */
module Texts {
  import opened Wrappers

  /** The position of the first separator, or the length. */
  function IndexOf<T(==)>(s: seq<T>, sep: T): (i: nat)
    ensures i <= |s| && (i < |s| ==> s[i] == sep)
    ensures sep !in s[..i]
  {
    if s == [] || s[0] == sep then 0 else
      var i := 1 + IndexOf(s[1..], sep);
      assert s[..i] == [s[0]] + s[1..][..i - 1];
      i
  }

  /** The part before the first separator, and the part behind it if there is one. */
  function SplitOnce<T(==)>(s: seq<T>, sep: T): (seq<T>, Option<seq<T>>) {
    var i := IndexOf(s, sep);
    (s[..i], if i < |s| then Some(s[i + 1..]) else None)
  }

  /** All parts between separators; there is always at least one. */
  function Split<T(==)>(s: seq<T>, sep: T): (parts: seq<seq<T>>)
    ensures parts != []
    decreases |s|
  {
    match SplitOnce(s, sep)
    case (first, None) => [first]
    case (first, Some(rest)) => [first] + Split(rest, sep)
  }

  function Join<T>(parts: seq<seq<T>>, sep: T): seq<T>
    requires parts != []
  {
    if |parts| == 1 then parts[0] else parts[0] + [sep] + Join(parts[1..], sep)
  }

  lemma {:induction false} IndexOfFirst<T>(a: seq<T>, sep: T, b: seq<T>)
    requires sep !in a
    ensures IndexOf(a + [sep] + b, sep) == |a|
  {
    if a != [] {
      assert (a + [sep] + b)[1..] == a[1..] + [sep] + b;
      IndexOfFirst(a[1..], sep, b);
    }
  }

  lemma {:induction false} IndexOfNone<T>(s: seq<T>, sep: T)
    requires sep !in s
    ensures IndexOf(s, sep) == |s|
  {
    if s != [] {
      IndexOfNone(s[1..], sep);
    }
  }

  lemma SplitOnceAt<T>(a: seq<T>, sep: T, b: seq<T>)
    requires sep !in a
    ensures SplitOnce(a + [sep] + b, sep) == (a, Some(b))
  {
    var s := a + [sep] + b;
    IndexOfFirst(a, sep, b);
    assert s[..|a|] == a && s[|a| + 1..] == b;
  }

  lemma SplitNothing<T>(s: seq<T>, sep: T)
    requires sep !in s
    ensures SplitOnce(s, sep) == (s, None) && Split(s, sep) == [s]
  {
    IndexOfNone(s, sep);
    assert s[..|s|] == s;
  }

  /** Splitting a joined text gives the parts of the one and then those of the other. */
  lemma {:induction false} SplitConcat<T>(a: seq<T>, sep: T, b: seq<T>)
    ensures Split(a + [sep] + b, sep) == Split(a, sep) + Split(b, sep)
    decreases |a|
  {
    match SplitOnce(a, sep)
    case (first, None) =>
      assert a[..|a|] == a;
      SplitOnceAt(a, sep, b);
    case (first, Some(rest)) =>
      assert a == first + [sep] + rest;
      var tail := rest + [sep] + b;
      assert a + [sep] + b == first + [sep] + tail;
      SplitOnceAt(first, sep, tail);
      SplitConcat(rest, sep, b);
      assert [first] + (Split(rest, sep) + Split(b, sep)) == [first] + Split(rest, sep) + Split(b, sep);
  }

  lemma {:induction false} SplitJoin<T>(parts: seq<seq<T>>, sep: T)
    requires parts != [] && forall i :: 0 <= i < |parts| ==> sep !in parts[i]
    ensures Split(Join(parts, sep), sep) == parts
  {
    SplitNothing(parts[0], sep);
    if |parts| == 1 {
      assert parts == [parts[0]];
    } else {
      SplitConcat(parts[0], sep, Join(parts[1..], sep));
      SplitJoin(parts[1..], sep);
      assert parts == [parts[0]] + parts[1..];
    }
  }

  ghost predicate From<T>(part: seq<T>, s: seq<T>) { forall i :: 0 <= i < |part| ==> part[i] in s }

  /** The parts do not contain the separator, and contain nothing else than the text. */
  lemma {:induction false} SplitParts<T>(s: seq<T>, sep: T, k: nat)
    requires k < |Split(s, sep)|
    ensures sep !in Split(s, sep)[k] && From(Split(s, sep)[k], s)
    decreases |s|
  {
    match SplitOnce(s, sep)
    case (_, None) =>
    case (_, Some(rest)) =>
      if k > 0 {
        SplitParts(rest, sep, k - 1);
      }
  }
}
