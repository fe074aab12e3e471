/** The text protocol of metric submissions (relay-metrics/src/protocol.rs).

    UTF-8, the floating point numbers among the reals with their text form, and the hash of set values are
    parameters. */
module MetricParser {
  import opened Wrappers
  import opened ByteStrings
  import opened Texts
  import opened Decimals
  import opened Metrics

  datatype Library = Library(
    decode: Bytes -> Option<string>,
    encode: string -> Bytes,
    parseFloat: string -> Option<real>,
    showFloat: real -> string,
    isFloat: real -> bool,
    hash: string -> nat)

  const U32_VALUES: nat := 0x1_0000_0000

  // ----- Parsing a line --------------------------------------------------------------------------------

  predicate IsLetter(c: char) { 'a' <= c <= 'z' || 'A' <= c <= 'Z' }

  predicate IsNameChar(c: char) { IsLetter(c) || IsDigit(c) || c == '.' || c == '_' }

  predicate IsValidName(name: string) {
    name != [] && IsLetter(name[0]) && forall i :: 0 < i < |name| ==> IsNameChar(name[i])
  }

  function ParseUnit(s: string): Option<MetricUnit> {
    if s == "ns" then Some(Duration(NanoSecond))
    else if s == "ms" then Some(Duration(MilliSecond))
    else if s == "s" then Some(Duration(Second))
    else if s == "" || s == "unit" || s == "none" then Some(NoUnit)
    else None
  }

  function ParseType(s: string): Option<MetricType> {
    if s == "c" || s == "m" then Some(Counter)
    else if s == "h" || s == "d" || s == "ms" then Some(Distribution)
    else if s == "s" then Some(Set)
    else if s == "g" then Some(Gauge)
    else None
  }

  /** Parses `name[@unit]`; anything behind a second `@` is ignored. */
  function ParseNameUnit(s: string): Option<(string, MetricUnit)> {
    var parts := Split(s, '@');
    if !IsValidName(parts[0]) then None
    else if |parts| == 1 then Some((parts[0], NoUnit))
    else
      match ParseUnit(parts[1])
      case None => None
      case Some(unit) => Some((parts[0], unit))
  }

  function ParseValue(lib: Library, s: string, ty: MetricType): Option<MetricValue> {
    match ty
    case Set =>
      (match Parse(s, U32_VALUES)
       case Some(n) => Some(SetValue(n))
       case None => Some(SetValue(lib.hash(s))))
    case _ =>
      match lib.parseFloat(s)
      case None => None
      case Some(x) =>
        Some(match ty
             case Counter => CounterValue(x)
             case Distribution => DistributionValue(x)
             case _ => GaugeValue(x))
  }

  /** Parses `name[@unit]:value`. */
  function ParseNameUnitValue(lib: Library, s: string, ty: MetricType): Option<(string, MetricUnit, MetricValue)> {
    match SplitOnce(s, ':')
    case (_, None) => None
    case (first, Some(rest)) =>
      match (ParseNameUnit(first), ParseValue(lib, rest, ty))
      case (Some((name, unit)), Some(value)) => Some((name, unit, value))
      case _ => None
  }

  /** A tag without a value has an empty value. */
  function ParseTag(s: string): (string, string) {
    match SplitOnce(s, ':')
    case (name, None) => (name, "")
    case (name, Some(value)) => (name, value)
  }

  /** The tags of a list of `name:value` texts, where later ones replace earlier ones. */
  function TagsOf(texts: seq<string>): map<string, string> {
    if texts == [] then map[] else
      var (name, value) := ParseTag(texts[|texts| - 1]);
      TagsOf(texts[..|texts| - 1])[name := value]
  }

  function ParseTags(s: string): map<string, string> { TagsOf(Split(s, ',')) }

  method ParseTagList(s: string) returns (tags: map<string, string>)
    ensures tags == ParseTags(s)
  {
    var texts := Split(s, ',');
    tags := map[];
    for i := 0 to |texts|
      invariant tags == TagsOf(texts[..i])
    {
      assert texts[..i + 1][..i] == texts[..i];
      var (name, value) := ParseTag(texts[i]);
      tags := tags[name := value];
    }
    assert texts[..|texts|] == texts;
  }

  /** The tags of the last component that starts with a hash sign. */
  function TagsIn(components: seq<string>): map<string, string> {
    if components == [] then map[] else
      var last := components[|components| - 1];
      if last != [] && last[0] == '#' then ParseTags(last[1..]) else TagsIn(components[..|components| - 1])
  }

  function ParseStr(lib: Library, s: string, timestamp: nat): Option<Metric> {
    var components := Split(s, '|');
    if |components| == 1 then None else
      match ParseType(components[1])
      case None => None
      case Some(ty) =>
        match ParseNameUnitValue(lib, components[0], ty)
        case None => None
        case Some((name, unit, value)) => Some(Metric(name, unit, value, timestamp, TagsIn(components[2..])))
  }

  /** The parser's loop over the components behind the type: each list of tags replaces the one before. */
  method ParseMetric(lib: Library, s: string, timestamp: nat) returns (metric: Option<Metric>)
    ensures metric == ParseStr(lib, s, timestamp)
  {
    var components := Split(s, '|');
    if |components| == 1 {
      return None;
    }
    var ty := ParseType(components[1]);
    if ty.None? {
      return None;
    }
    var parsed := ParseNameUnitValue(lib, components[0], ty.value);
    if parsed.None? {
      return None;
    }
    var tags: map<string, string> := map[];
    var rest := components[2..];
    for i := 0 to |rest|
      invariant tags == TagsIn(rest[..i])
    {
      assert rest[..i + 1][..i] == rest[..i];
      if rest[i] != [] && rest[i][0] == '#' {
        tags := ParseTagList(rest[i][1..]);
      }
    }
    assert rest[..|rest|] == rest;
    var (name, unit, value) := parsed.value;
    return Some(Metric(name, unit, value, timestamp, tags));
  }

  // ----- Parsing a submission ----------------------------------------------------------------------------

  type Parsed = Result<Metric, ()>

  function StripReturn(s: string): string {
    if s != [] && s[|s| - 1] == '\r' then s[..|s| - 1] else s
  }

  /** The results of one line: none if it is blank, and otherwise one. */
  function ParseLine(lib: Library, line: Bytes, timestamp: nat): seq<Parsed> {
    match lib.decode(line)
    case None => [Failure(())]
    case Some(s) =>
      var text := StripReturn(s);
      if text == [] then [] else
        match ParseStr(lib, text, timestamp)
        case None => [Failure(())]
        case Some(metric) => [Success(metric)]
  }

  function ParseLines(lib: Library, lines: seq<Bytes>, timestamp: nat): seq<Parsed> {
    if lines == [] then [] else ParseLine(lib, lines[0], timestamp) + ParseLines(lib, lines[1..], timestamp)
  }

  /** The results of all lines. */
  function ParseAll(lib: Library, bytes: Bytes, timestamp: nat): seq<Parsed> {
    ParseLines(lib, Split(bytes, NEWLINE), timestamp)
  }

  lemma {:induction false} ParseLinesConcat(lib: Library, a: seq<Bytes>, b: seq<Bytes>, timestamp: nat)
    ensures ParseLines(lib, a + b, timestamp) == ParseLines(lib, a, timestamp) + ParseLines(lib, b, timestamp)
  {
    if a == [] {
      assert a + b == b;
    } else {
      assert (a + b)[1..] == a[1..] + b;
      ParseLinesConcat(lib, a[1..], b, timestamp);
    }
  }

  /** Lines are parsed independently of each other, whatever bytes they consist of. */
  lemma ParseAllConcat(lib: Library, a: Bytes, b: Bytes, timestamp: nat)
    ensures ParseAll(lib, a + [NEWLINE] + b, timestamp) == ParseAll(lib, a, timestamp) + ParseAll(lib, b, timestamp)
  {
    SplitConcat(a, NEWLINE, b);
    ParseLinesConcat(lib, Split(a, NEWLINE), Split(b, NEWLINE), timestamp);
  }

  /** The iterator over a submission. */
  class ParseMetrics {
    const lib: Library
    const timestamp: nat
    var slice: Bytes

    constructor (lib: Library, slice: Bytes, timestamp: nat)
      ensures this.lib == lib && this.timestamp == timestamp && this.slice == slice
    {
      this.lib := lib;
      this.slice := slice;
      this.timestamp := timestamp;
    }

    /** The results that are still to be yielded. */
    ghost function Remaining(): seq<Parsed>
      reads this
    {
      ParseAll(lib, slice, timestamp)
    }

    /** Yields the results of the lines one after the other. */
    method Next() returns (next: Option<Parsed>)
      requires lib.decode([]) == Some("")
      modifies this
      ensures match next
              case None => old(Remaining()) == [] && slice == []
              case Some(result) => old(Remaining()) == [result] + Remaining()
    {
      while slice != []
        invariant Remaining() == old(Remaining())
        decreases |slice|
      {
        var (current, rest) := SplitOnce(slice, NEWLINE);
        ghost var before := slice;
        slice := if rest.Some? then rest.value else [];
        LineByLine(lib, before, timestamp);
        var decoded := lib.decode(current);
        if decoded.None? {
          return Some(Failure(()));
        }
        var text := StripReturn(decoded.value);
        if text != [] {
          var metric := ParseMetric(lib, text, timestamp);
          return Some(if metric.Some? then Success(metric.value) else Failure(()));
        }
      }
      ParseBlank(lib, timestamp);
      return None;
    }
  }

  lemma ParseOneLine(lib: Library, line: Bytes, timestamp: nat)
    ensures ParseLines(lib, [line], timestamp) == ParseLine(lib, line, timestamp)
  {
    assert ParseLines(lib, [line][1..], timestamp) == [];
  }

  lemma ParseBlank(lib: Library, timestamp: nat)
    requires lib.decode([]) == Some("")
    ensures ParseAll(lib, [], timestamp) == []
  {
    SplitNothing<Byte>([], NEWLINE);
    ParseOneLine(lib, [], timestamp);
  }

  lemma LineByLine(lib: Library, bytes: Bytes, timestamp: nat)
    requires lib.decode([]) == Some("")
    ensures var (current, rest) := SplitOnce(bytes, NEWLINE);
            ParseAll(lib, bytes, timestamp) ==
              ParseLine(lib, current, timestamp) + ParseAll(lib, if rest.Some? then rest.value else [], timestamp)
  {
    var (current, rest) := SplitOnce(bytes, NEWLINE);
    ParseOneLine(lib, current, timestamp);
    if rest.Some? {
      ParseLinesConcat(lib, [current], Split(rest.value, NEWLINE), timestamp);
    } else {
      ParseBlank(lib, timestamp);
      assert ParseLine(lib, current, timestamp) + [] == ParseLine(lib, current, timestamp);
    }
  }
}
