/** The documented line format of metrics, `<name>[@unit]:<value>|<type>|#<tag_key>:<tag_value>,<tag>`
    (relay-metrics/src/protocol.rs, `Metric`), and that parsing undoes it. */
module MetricPrinter {
  import opened Wrappers
  import opened ByteStrings
  import opened Texts
  import opened Decimals
  import opened Metrics
  import opened MetricParser

  function ShowUnit(unit: MetricUnit): string {
    match unit
    case Duration(NanoSecond) => "ns"
    case Duration(MilliSecond) => "ms"
    case Duration(Second) => "s"
    case NoUnit => ""
  }

  function ShowType(ty: MetricType): string {
    match ty
    case Counter => "c"
    case Distribution => "d"
    case Set => "s"
    case Gauge => "g"
  }

  function ShowValue(lib: Library, value: MetricValue): string {
    match value
    case CounterValue(x) => lib.showFloat(x)
    case DistributionValue(x) => lib.showFloat(x)
    case SetValue(n) => Show(n)
    case GaugeValue(x) => lib.showFloat(x)
  }

  function ShowName(name: string, unit: MetricUnit): string {
    if unit == NoUnit then name else name + "@" + ShowUnit(unit)
  }

  /** The texts of the tags with the given names. */
  function ShowTags(tags: map<string, string>, names: seq<string>): (texts: seq<string>)
    requires forall i :: 0 <= i < |names| ==> names[i] in tags
    ensures |texts| == |names|
    ensures forall i :: 0 <= i < |names| ==> texts[i] == names[i] + ":" + tags[names[i]]
  {
    seq(|names|, i requires 0 <= i < |names| => names[i] + ":" + tags[names[i]])
  }

  /** The line for a metric whose tags are listed in the given order. */
  function ShowMetric(lib: Library, m: Metric, names: seq<string>): string
    requires forall i :: 0 <= i < |names| ==> names[i] in m.tags
  {
    var head := ShowName(m.name, m.unit) + ":" + ShowValue(lib, m.value) + "|" + ShowType(m.value.Ty());
    if names == [] then head else head + "|#" + Join(ShowTags(m.tags, names), ',')
  }

  // ----- Round trips -----------------------------------------------------------------------------------

  /** The text form of a floating point number can be read back and does not contain separators, and nothing but
      floating point numbers is read. */
  ghost predicate FloatsReadBack(lib: Library) {
    && (forall x :: lib.isFloat(x) ==> lib.parseFloat(lib.showFloat(x)) == Some(x) && '|' !in lib.showFloat(x))
    && (forall s :: lib.parseFloat(s).Some? ==> lib.isFloat(lib.parseFloat(s).value))
  }

  /** Such numbers exist: the natural numbers in decimal notation, for example. */
  lemma NaturalsReadBack(lib: Library)
    ensures FloatsReadBack(lib.(
              isFloat := (x: real) => x >= 0.0 && x.Floor as real == x,
              showFloat := (x: real) => if x >= 0.0 then Show(x.Floor) else "",
              parseFloat := (s: string) => if s != [] && Digits(s) then Some(ValueOf(s) as real) else None))
  {
    forall n: nat
      ensures Show(n) != [] && Digits(Show(n)) && ValueOf(Show(n)) == n && '|' !in Show(n)
    {
      ShowDigits(n);
      assert !IsDigit('|');
    }
  }

  /** Texts without a newline are encoded without one, and can be decoded. */
  ghost predicate TextReadsBack(lib: Library) {
    && lib.decode([]) == Some("")
    && (forall s :: lib.decode(lib.encode(s)) == Some(s))
    && (forall s :: '\n' !in s ==> NEWLINE !in lib.encode(s))
  }

  predicate Free(s: string, seps: string) { forall i :: 0 <= i < |s| ==> s[i] !in seps }

  /** The value is a 32-bit hash or a floating point number. */
  predicate Representable(lib: Library, value: MetricValue) {
    match value
    case SetValue(n) => n < U32_VALUES
    case CounterValue(x) => lib.isFloat(x)
    case DistributionValue(x) => lib.isFloat(x)
    case GaugeValue(x) => lib.isFloat(x)
  }

  /** The metric can be written down: its name is valid, its value is one of the source's, and its tags are free
      of separators. `names` lists its tags. */
  ghost predicate Writable(lib: Library, m: Metric, names: seq<string>) {
    IsValidName(m.name) && Representable(lib, m.value) && TagsWritable(m, names)
  }

  ghost predicate TagsWritable(m: Metric, names: seq<string>) {
    && (forall i :: 0 <= i < |names| ==> names[i] in m.tags)
    && (forall name :: name in m.tags ==> name in names && Free(name, ",:|") && Free(m.tags[name], ",|"))
    && (forall i, j :: 0 <= i < j < |names| ==> names[i] != names[j])
  }

  lemma NotIn(s: string, seps: string, sep: char)
    requires Free(s, seps) && sep in seps
    ensures sep !in s
  {
  }

  lemma NameFree(name: string)
    requires IsValidName(name)
    ensures '@' !in name && ':' !in name && '|' !in name
  {
    forall i | 0 <= i < |name|
      ensures IsNameChar(name[i])
    {
    }
  }

  lemma NameRoundTrip(name: string, unit: MetricUnit)
    requires IsValidName(name)
    ensures ParseNameUnit(ShowName(name, unit)) == Some((name, unit))
    ensures ':' !in ShowName(name, unit) && '|' !in ShowName(name, unit)
  {
    NameFree(name);
    if unit == NoUnit {
      SplitNothing(name, '@');
    } else {
      var text := ShowUnit(unit);
      assert '@' !in text;
      SplitConcat(name, '@', text);
      SplitNothing(name, '@');
      SplitNothing(text, '@');
    }
  }

  lemma ValueRoundTrip(lib: Library, value: MetricValue)
    requires FloatsReadBack(lib) && Representable(lib, value)
    ensures ParseValue(lib, ShowValue(lib, value), value.Ty()) == Some(value)
    ensures '|' !in ShowValue(lib, value)
  {
    match value
    case SetValue(n) =>
      ParseShow(n, U32_VALUES);
      ShowDigits(n);
      assert !IsDigit('|');
    case CounterValue(x) => assert lib.parseFloat(lib.showFloat(x)) == Some(x);
    case DistributionValue(x) => assert lib.parseFloat(lib.showFloat(x)) == Some(x);
    case GaugeValue(x) => assert lib.parseFloat(lib.showFloat(x)) == Some(x);
  }

  /** The first part of the line, with its type. */
  lemma HeadRoundTrip(lib: Library, m: Metric)
    requires FloatsReadBack(lib) && IsValidName(m.name) && Representable(lib, m.value)
    ensures var first := ShowName(m.name, m.unit) + ":" + ShowValue(lib, m.value);
            && '|' !in first
            && ParseType(ShowType(m.value.Ty())) == Some(m.value.Ty())
            && ParseNameUnitValue(lib, first, m.value.Ty()) == Some((m.name, m.unit, m.value))
  {
    NameRoundTrip(m.name, m.unit);
    ValueRoundTrip(lib, m.value);
    SplitOnceAt(ShowName(m.name, m.unit), ':', ShowValue(lib, m.value));
  }

  lemma TagRoundTrip(m: Metric, names: seq<string>, i: nat)
    requires TagsWritable(m, names) && i < |names|
    ensures ParseTag(ShowTags(m.tags, names)[i]) == (names[i], m.tags[names[i]])
    ensures ',' !in ShowTags(m.tags, names)[i] && '|' !in ShowTags(m.tags, names)[i]
  {
    var name := names[i];
    NotIn(name, ",:|", ':');
    NotIn(name, ",:|", ',');
    NotIn(name, ",:|", '|');
    NotIn(m.tags[name], ",|", ',');
    NotIn(m.tags[name], ",|", '|');
    SplitOnceAt(name, ':', m.tags[name]);
  }

  /** The tags with the given names. */
  function Picked(tags: map<string, string>, names: seq<string>): map<string, string> {
    map name | name in names && name in tags :: tags[name]
  }

  lemma PickedStep(tags: map<string, string>, names: seq<string>, name: string)
    requires name in tags
    ensures Picked(tags, names + [name]) == Picked(tags, names)[name := tags[name]]
  {
  }

  lemma PickedAll(tags: map<string, string>, names: seq<string>)
    requires forall name :: name in tags ==> name in names
    ensures Picked(tags, names) == tags
  {
  }

  lemma TagsOfStep(texts: seq<string>, n: nat)
    requires 0 < n <= |texts|
    ensures var (name, value) := ParseTag(texts[n - 1]); TagsOf(texts[..n]) == TagsOf(texts[..n - 1])[name := value]
  {
    assert texts[..n][..n - 1] == texts[..n - 1];
  }

  lemma {:induction false} TagsPicked(tags: map<string, string>, names: seq<string>, texts: seq<string>, n: nat)
    requires n <= |names| == |texts|
    requires forall i :: 0 <= i < |names| ==> names[i] in tags && ParseTag(texts[i]) == (names[i], tags[names[i]])
    ensures TagsOf(texts[..n]) == Picked(tags, names[..n])
  {
    if n > 0 {
      TagsPicked(tags, names, texts, n - 1);
      TagsOfStep(texts, n);
      PickedStep(tags, names[..n - 1], names[n - 1]);
      assert names[..n] == names[..n - 1] + [names[n - 1]];
    }
  }

  lemma {:induction false} JoinFree(parts: seq<string>, sep: char, c: char)
    requires parts != [] && c != sep && forall i :: 0 <= i < |parts| ==> c !in parts[i]
    ensures c !in Join(parts, sep)
  {
    if |parts| > 1 {
      JoinFree(parts[1..], sep, c);
    }
  }

  lemma TagTextsFree(m: Metric, names: seq<string>)
    requires TagsWritable(m, names)
    ensures forall i :: 0 <= i < |names| ==>
              ',' !in ShowTags(m.tags, names)[i] && '|' !in ShowTags(m.tags, names)[i]
  {
    forall i | 0 <= i < |names|
      ensures ',' !in ShowTags(m.tags, names)[i] && '|' !in ShowTags(m.tags, names)[i]
    {
      TagRoundTrip(m, names, i);
    }
  }

  lemma AllPicked(m: Metric, names: seq<string>)
    requires TagsWritable(m, names)
    ensures TagsOf(ShowTags(m.tags, names)) == m.tags
  {
    var texts := ShowTags(m.tags, names);
    forall i | 0 <= i < |names|
      ensures ParseTag(texts[i]) == (names[i], m.tags[names[i]])
    {
      TagRoundTrip(m, names, i);
    }
    TagsPicked(m.tags, names, texts, |names|);
    assert names[..|names|] == names && texts[..|names|] == texts;
    PickedAll(m.tags, names);
  }

  lemma TagListRoundTrip(m: Metric, names: seq<string>)
    requires TagsWritable(m, names) && names != []
    ensures '|' !in Join(ShowTags(m.tags, names), ',')
    ensures TagsIn(["#" + Join(ShowTags(m.tags, names), ',')]) == m.tags
  {
    var texts := ShowTags(m.tags, names);
    TagTextsFree(m, names);
    JoinFree(texts, ',', '|');
    SplitJoin(texts, ',');
    AllPicked(m, names);
    HashComponent(Join(texts, ','));
  }

  lemma HashComponent(tags: string)
    ensures TagsIn(["#" + tags]) == ParseTags(tags)
  {
    assert ("#" + tags)[1..] == tags;
  }

  /** The components of a line. */
  lemma SplitLine(first: string, ty: string, tags: string)
    requires '|' !in first && '|' !in ty && '|' !in tags
    ensures Split(first + "|" + ty, '|') == [first, ty]
    ensures Split(first + "|" + ty + "|#" + tags, '|') == [first, ty, "#" + tags]
  {
    var last := "#" + tags;
    SplitNothing(first, '|');
    SplitNothing(ty, '|');
    SplitNothing(last, '|');
    SplitConcat(first, '|', ty);
    assert first + "|" + ty + "|#" + tags == (first + "|" + ty) + "|" + last;
    SplitConcat(first + "|" + ty, '|', last);
  }

  lemma ParseComponents(lib: Library, line: string, first: string, ty: string, rest: seq<string>, m: Metric)
    requires Split(line, '|') == [first, ty] + rest && ParseType(ty) == Some(m.value.Ty()) && TagsIn(rest) == m.tags
    requires ParseNameUnitValue(lib, first, m.value.Ty()) == Some((m.name, m.unit, m.value))
    ensures ParseStr(lib, line, m.timestamp) == Some(m)
  {
    assert ([first, ty] + rest)[2..] == rest;
  }

  /** Parsing a metric that was written down in the documented format gives back the metric. */
  lemma MetricRoundTrip(lib: Library, m: Metric, names: seq<string>)
    requires FloatsReadBack(lib) && Writable(lib, m, names)
    ensures ParseStr(lib, ShowMetric(lib, m, names), m.timestamp) == Some(m)
  {
    var first, ty := ShowName(m.name, m.unit) + ":" + ShowValue(lib, m.value), ShowType(m.value.Ty());
    HeadRoundTrip(lib, m);
    assert '|' !in ty;
    if names == [] {
      SplitLine(first, ty, "");
      assert m.tags == map[] == TagsIn([]);
      ParseComponents(lib, ShowMetric(lib, m, names), first, ty, [], m);
    } else {
      var tags := Join(ShowTags(m.tags, names), ',');
      TagListRoundTrip(m, names);
      SplitLine(first, ty, tags);
      ParseComponents(lib, ShowMetric(lib, m, names), first, ty, ["#" + tags], m);
    }
  }

  // ----- What is accepted can be written down ---------------------------------------------------------

  ghost predicate TagFree(name: string, value: string) { Free(name, ",:|") && Free(value, ",|") }

  lemma TagIsFree(text: string)
    requires Free(text, ",|")
    ensures TagFree(ParseTag(text).0, ParseTag(text).1)
  {
    var i := IndexOf(text, ':');
    forall j | 0 <= j < i
      ensures text[..i][j] != ':'
    {
    }
  }

  lemma {:induction false} TagsAreFree(texts: seq<string>, name: string)
    requires (forall i :: 0 <= i < |texts| ==> Free(texts[i], ",|")) && name in TagsOf(texts)
    ensures TagFree(name, TagsOf(texts)[name])
  {
    var n := |texts| - 1;
    TagIsFree(texts[n]);
    if name != ParseTag(texts[n]).0 {
      TagsAreFree(texts[..n], name);
    }
  }

  lemma ParsedTagsAreFree(s: string, name: string)
    requires '|' !in s && name in ParseTags(s)
    ensures TagFree(name, ParseTags(s)[name])
  {
    var texts := Split(s, ',');
    forall i | 0 <= i < |texts|
      ensures Free(texts[i], ",|")
    {
      SplitParts(s, ',', i);
    }
    TagsAreFree(texts, name);
  }

  lemma {:induction false} TagsInAreFree(components: seq<string>, name: string)
    requires (forall i :: 0 <= i < |components| ==> '|' !in components[i]) && name in TagsIn(components)
    ensures TagFree(name, TagsIn(components)[name])
  {
    var n := |components| - 1;
    var last := components[n];
    if last != [] && last[0] == '#' {
      ParsedTagsAreFree(last[1..], name);
    } else {
      TagsInAreFree(components[..n], name);
    }
  }

  /** The names list the tags, each one once. */
  ghost predicate Lists(names: seq<string>, tags: map<string, string>) {
    && (forall name :: name in tags <==> name in names)
    && (forall i, j :: 0 <= i < j < |names| ==> names[i] != names[j])
  }

  lemma ParsedTags(lib: Library, s: string, timestamp: nat, name: string)
    requires ParseStr(lib, s, timestamp).Some? && name in ParseStr(lib, s, timestamp).value.tags
    ensures TagFree(name, ParseStr(lib, s, timestamp).value.tags[name])
  {
    var components := Split(s, '|');
    forall i | 0 <= i < |components|
      ensures '|' !in components[i]
    {
      SplitParts(s, '|', i);
    }
    TagsInAreFree(components[2..], name);
  }

  /** Whatever line the parser accepts, the metric can be written down in the documented format, and reading
      this line gives the same metric. */
  lemma ParseShowParse(lib: Library, s: string, timestamp: nat, names: seq<string>)
    requires FloatsReadBack(lib) && (forall t :: lib.hash(t) < U32_VALUES)
    requires ParseStr(lib, s, timestamp).Some? && Lists(names, ParseStr(lib, s, timestamp).value.tags)
    ensures var m := ParseStr(lib, s, timestamp).value;
            Writable(lib, m, names) && ParseStr(lib, ShowMetric(lib, m, names), timestamp) == Some(m)
  {
    var m := ParseStr(lib, s, timestamp).value;
    forall name | name in m.tags
      ensures TagFree(name, m.tags[name])
    {
      ParsedTags(lib, s, timestamp, name);
    }
    forall i | 0 <= i < |names|
      ensures names[i] in m.tags
    {
      assert names[i] in names;
    }
    MetricRoundTrip(lib, m, names);
  }

  /** The text can be sent as a line: it has no newline in it and no carriage return at its end. */
  predicate LineSafe(text: string) {
    '\n' !in text && text != [] && text[|text| - 1] != '\r'
  }

  /** The line that a metric is sent as. */
  function Line(lib: Library, m: Metric, names: seq<string>): Bytes
    requires forall i :: 0 <= i < |names| ==> names[i] in m.tags
  {
    lib.encode(ShowMetric(lib, m, names))
  }

  lemma LineRoundTrip(lib: Library, m: Metric, names: seq<string>)
    requires FloatsReadBack(lib) && TextReadsBack(lib) && Writable(lib, m, names) && LineSafe(ShowMetric(lib, m, names))
    ensures ParseLine(lib, Line(lib, m, names), m.timestamp) == [Success(m)]
    ensures NEWLINE !in Line(lib, m, names)
  {
    MetricRoundTrip(lib, m, names);
    assert lib.decode(Line(lib, m, names)) == Some(ShowMetric(lib, m, names));
  }

  lemma {:induction false} ParseEach(lib: Library, lines: seq<Bytes>, results: seq<Parsed>, timestamp: nat)
    requires |lines| == |results|
    requires forall i :: 0 <= i < |lines| ==> ParseLine(lib, lines[i], timestamp) == [results[i]]
    ensures ParseLines(lib, lines, timestamp) == results
  {
    if lines != [] {
      ParseEach(lib, lines[1..], results[1..], timestamp);
      assert results == [results[0]] + results[1..];
      assert ParseLines(lib, lines, timestamp) == ParseLine(lib, lines[0], timestamp) + ParseLines(lib, lines[1..], timestamp);
    }
  }

  /** Metrics that were written to lines, one after the other, are all read back, in this order. */
  lemma SubmissionRoundTrip(lib: Library, metrics: seq<Metric>, names: seq<seq<string>>, lines: seq<Bytes>,
                            timestamp: nat)
    requires FloatsReadBack(lib) && TextReadsBack(lib) && metrics != [] && |names| == |metrics| == |lines|
    requires forall i :: 0 <= i < |metrics| ==>
               && Writable(lib, metrics[i], names[i]) && LineSafe(ShowMetric(lib, metrics[i], names[i]))
               && lines[i] == Line(lib, metrics[i], names[i]) && metrics[i].timestamp == timestamp
    ensures ParseAll(lib, Join(lines, NEWLINE), timestamp) ==
              seq(|metrics|, i requires 0 <= i < |metrics| => Success(metrics[i]))
  {
    var results: seq<Parsed> := seq(|metrics|, i requires 0 <= i < |metrics| => Success(metrics[i]));
    forall i | 0 <= i < |metrics|
      ensures ParseLine(lib, lines[i], timestamp) == [results[i]] && NEWLINE !in lines[i]
    {
      LineRoundTrip(lib, metrics[i], names[i]);
    }
    SplitJoin(lines, NEWLINE);
    ParseEach(lib, lines, results, timestamp);
  }
}
