/** What the text protocol of metrics accepts and means (relay-metrics/src/protocol.rs), spelled out. */
module MetricGrammar {
  import opened Wrappers
  import opened ByteStrings
  import opened Texts
  import opened Decimals
  import opened Metrics
  import opened MetricParser
  import opened MetricPrinter

  // ----- Types, units and names ------------------------------------------------------------------------

  lemma TypeTable(s: string)
    ensures ParseType(s) == Some(Counter) <==> s == "c" || s == "m"
    ensures ParseType(s) == Some(Distribution) <==> s == "h" || s == "d" || s == "ms"
    ensures ParseType(s) == Some(Set) <==> s == "s"
    ensures ParseType(s) == Some(Gauge) <==> s == "g"
  {
    assert "m"[0] != "c"[0];
  }

  lemma UnitTable(s: string)
    ensures ParseUnit(s) == Some(Duration(NanoSecond)) <==> s == "ns"
    ensures ParseUnit(s) == Some(Duration(MilliSecond)) <==> s == "ms"
    ensures ParseUnit(s) == Some(Duration(Second)) <==> s == "s"
    ensures ParseUnit(s) == Some(NoUnit) <==> s == "" || s == "unit" || s == "none"
  {
    assert "ns"[0] != "ms"[0];
  }

  /** Letters, digits, periods and underscores, by their codes. */
  predicate NameCode(code: int, first: bool) {
    || 65 <= code <= 90 || 97 <= code <= 122
    || (!first && (48 <= code <= 57 || code == 46 || code == 95))
  }

  lemma NameChars(name: string)
    ensures IsValidName(name) <==>
              |name| > 0 && forall i :: 0 <= i < |name| ==> NameCode(name[i] as int, i == 0)
  {
    assert 'a' as int == 97 && 'z' as int == 122 && 'A' as int == 65 && 'Z' as int == 90;
    assert '0' as int == 48 && '9' as int == 57 && '.' as int == 46 && '_' as int == 95;
    if IsValidName(name) {
      forall i | 0 <= i < |name|
        ensures NameCode(name[i] as int, i == 0)
      {
        assert i > 0 ==> IsNameChar(name[i]);
      }
    }
    if |name| > 0 && forall i :: 0 <= i < |name| ==> NameCode(name[i] as int, i == 0) {
      assert NameCode(name[0] as int, true);
      forall i | 0 < i < |name|
        ensures IsNameChar(name[i])
      {
        assert NameCode(name[i] as int, false);
      }
    }
  }

  /** A name alone, or a name, a unit and perhaps something that is ignored, separated by `@`. */
  ghost predicate IsNameUnit(text: string, name: string, unit: MetricUnit) {
    && IsValidName(name)
    && ((text == name && unit == NoUnit) ||
        (exists u :: '@' !in u && ParseUnit(u) == Some(unit) && text == name + "@" + u) ||
        (exists u, ignored :: '@' !in u && ParseUnit(u) == Some(unit) && text == name + "@" + u + "@" + ignored))
  }

  lemma NameUnitIff(text: string, name: string, unit: MetricUnit)
    ensures ParseNameUnit(text) == Some((name, unit)) <==> IsNameUnit(text, name, unit)
  {
    if ParseNameUnit(text) == Some((name, unit)) {
      ParsedNameUnit(text);
    }
    if IsNameUnit(text, name, unit) {
      NameFree(name);
      if text == name && unit == NoUnit {
        SplitNothing(name, '@');
      } else if exists u :: '@' !in u && ParseUnit(u) == Some(unit) && text == name + "@" + u {
        var u :| '@' !in u && ParseUnit(u) == Some(unit) && text == name + "@" + u;
        NameUnitParses(name, u, "", unit);
      } else {
        var u, ignored :| '@' !in u && ParseUnit(u) == Some(unit) && text == name + "@" + u + "@" + ignored;
        NameUnitParses(name, u, ignored, unit);
      }
    }
  }

  lemma NameUnitParses(name: string, u: string, ignored: string, unit: MetricUnit)
    requires IsValidName(name) && '@' !in name && '@' !in u && ParseUnit(u) == Some(unit)
    ensures ParseNameUnit(name + "@" + u) == Some((name, unit))
    ensures ParseNameUnit(name + "@" + u + "@" + ignored) == Some((name, unit))
  {
    SplitNothing(name, '@');
    SplitNothing(u, '@');
    SplitConcat(name, '@', u);
    SplitConcat(name + "@" + u, '@', ignored);
  }

  lemma ParsedNameUnit(text: string)
    requires ParseNameUnit(text).Some?
    ensures IsNameUnit(text, ParseNameUnit(text).value.0, ParseNameUnit(text).value.1)
  {
    var (first, rest) := SplitOnce(text, '@');
    if rest.Some? {
      assert text == first + "@" + rest.value;
      var (u, more) := SplitOnce(rest.value, '@');
      assert Split(rest.value, '@')[0] == u && Split(text, '@')[1] == u;
      if more.Some? {
        assert rest.value == u + "@" + more.value;
        assert text == first + "@" + u + "@" + more.value;
      } else {
        assert u == rest.value;
        assert text == first + "@" + u;
      }
    } else {
      assert text == first;
    }
  }

  /** Numbers are read as they are, and set values that are no 32-bit number are hashed. */
  lemma ValueTable(lib: Library, s: string)
    ensures forall n: nat :: n < U32_VALUES && StandsFor(s, n) ==> ParseValue(lib, s, Set) == Some(SetValue(n))
    ensures (forall n: nat :: n < U32_VALUES ==> !StandsFor(s, n)) ==>
              ParseValue(lib, s, Set) == Some(SetValue(lib.hash(s)))
    ensures match lib.parseFloat(s)
            case Some(x) =>
              && ParseValue(lib, s, Counter) == Some(CounterValue(x))
              && ParseValue(lib, s, Distribution) == Some(DistributionValue(x))
              && ParseValue(lib, s, Gauge) == Some(GaugeValue(x))
            case None =>
              && ParseValue(lib, s, Counter) == None
              && ParseValue(lib, s, Distribution) == None
              && ParseValue(lib, s, Gauge) == None
  {
    forall n: nat
      ensures Parse(s, U32_VALUES) == Some(n) <==> n < U32_VALUES && StandsFor(s, n)
    {
      ParseIff(s, U32_VALUES, n);
    }
  }

  // ----- Tags and further components -------------------------------------------------------------------

  /** Later tags replace earlier ones. */
  lemma {:induction false} TagsOfConcat(a: seq<string>, b: seq<string>)
    ensures TagsOf(a + b) == TagsOf(a) + TagsOf(b)
  {
    if b == [] {
      assert a + b == a;
    } else {
      assert (a + b)[..|a + b| - 1] == a + b[..|b| - 1];
      TagsOfConcat(a, b[..|b| - 1]);
    }
  }

  lemma TagsConcat(a: string, b: string)
    ensures ParseTags(a + "," + b) == ParseTags(a) + ParseTags(b)
  {
    SplitConcat(a, ',', b);
    TagsOfConcat(Split(a, ','), Split(b, ','));
  }

  lemma TagsOfOne(text: string)
    ensures TagsOf([text]) == map[ParseTag(text).0 := ParseTag(text).1]
  {
    assert TagsOf([text][..0]) == map[];
  }

  /** A tag has the value behind its first colon, or an empty one. */
  lemma SingleTag(name: string, value: string)
    requires ':' !in name && ',' !in name && ',' !in value
    ensures ParseTags(name + ":" + value) == map[name := value]
    ensures ParseTags(name) == map[name := ""]
  {
    SplitOnceAt(name, ':', value);
    SplitNothing(name, ':');
    SplitNothing(name, ',');
    SplitNothing(name + ":" + value, ',');
    TagsOfOne(name);
    TagsOfOne(name + ":" + value);
  }

  lemma {:induction false} TagsInLast(components: seq<string>, last: string)
    ensures TagsIn(components + [last]) ==
              if last != [] && last[0] == '#' then ParseTags(last[1..]) else TagsIn(components)
  {
    assert (components + [last])[..|components|] == components;
  }

  /** A further component that starts with a hash sign replaces all tags; any other one is ignored. */
  lemma FurtherComponent(lib: Library, line: string, more: string, timestamp: nat)
    requires ParseStr(lib, line, timestamp).Some? && '|' !in more
    ensures ParseStr(lib, line + "|" + more, timestamp) ==
              Some(if more != [] && more[0] == '#'
                   then ParseStr(lib, line, timestamp).value.(tags := ParseTags(more[1..]))
                   else ParseStr(lib, line, timestamp).value)
  {
    SplitConcat(line, '|', more);
    SplitNothing(more, '|');
    var components := Split(line, '|');
    assert (components + [more])[2..] == components[2..] + [more];
    TagsInLast(components[2..], more);
  }

  /** The parts of a line: the name with its unit, the value, and the type. */
  lemma BasicLine(lib: Library, nameUnit: string, value: string, ty: string, timestamp: nat)
    requires ':' !in nameUnit && '|' !in nameUnit && '|' !in value && '|' !in ty
    ensures ParseStr(lib, nameUnit + ":" + value + "|" + ty, timestamp) ==
              match ParseType(ty)
              case None => None
              case Some(t) =>
                match (ParseNameUnit(nameUnit), ParseValue(lib, value, t))
                case (Some((name, unit)), Some(v)) => Some(Metric(name, unit, v, timestamp, map[]))
                case _ => None
  {
    var first := nameUnit + ":" + value;
    SplitNothing(first, '|');
    SplitNothing(ty, '|');
    SplitConcat(first, '|', ty);
    SplitOnceAt(nameUnit, ':', value);
    assert [first, ty][2..] == [];
  }

  /** A line without a type, or without a colon in front of it, is no metric. */
  lemma NoMetric(lib: Library, first: string, rest: string, timestamp: nat)
    requires '|' !in first
    ensures ParseStr(lib, first, timestamp) == None
    ensures ':' !in first ==> ParseStr(lib, first + "|" + rest, timestamp) == None
  {
    SplitNothing(first, '|');
    SplitConcat(first, '|', rest);
    if ':' !in first {
      SplitNothing(first, ':');
    }
  }

  // ----- Lines ---------------------------------------------------------------------------------------------

  /** A line gives one result unless it is blank; it fails if it cannot be decoded or is no metric. */
  lemma LineResults(lib: Library, line: Bytes, timestamp: nat)
    ensures lib.decode(line) == None ==> ParseLine(lib, line, timestamp) == [Failure(())]
    ensures ParseLine(lib, line, timestamp) == [] <==> lib.decode(line) == Some("") || lib.decode(line) == Some("\r")
    ensures |ParseLine(lib, line, timestamp)| <= 1
  {
    if lib.decode(line).Some? {
      var s := lib.decode(line).value;
      assert StripReturn(s) == "" <==> s == "" || s == "\r";
    }
  }

  /** One carriage return at the end of a line is ignored. */
  lemma ReturnIgnored(lib: Library, text: string, timestamp: nat)
    requires TextReadsBack(lib) && (text == [] || text[|text| - 1] != '\r')
    ensures ParseLine(lib, lib.encode(text + "\r"), timestamp) == ParseLine(lib, lib.encode(text), timestamp)
  {
    assert (text + "\r")[..|text|] == text;
    assert lib.decode(lib.encode(text + "\r")) == Some(text + "\r");
    assert lib.decode(lib.encode(text)) == Some(text);
  }
}
