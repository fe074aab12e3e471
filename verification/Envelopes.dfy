/** Building and splitting envelopes (relay-server/src/envelope.rs, `Item` and `Envelope`). */
module Envelopes {
  import opened Wrappers
  import opened ByteStrings
  import opened EnvelopeFormat

  datatype ItemType =
    | Event | Transaction | Security | Attachment | FormData | RawSecurity | UnrealReport | UserReport
    | Session | Sessions | Metrics | MetricBuckets

  datatype ContentType = Text | Json | MsgPack | OctetStream | Minidump | Xml | EnvelopeContent | Other(name: string) {
    function Name(): string {
      match this
      case Text => "text/plain"
      case Json => "application/json"
      case MsgPack => "application/x-msgpack"
      case OctetStream => "application/octet-stream"
      case Minidump => "application/x-dmp"
      case Xml => "text/xml"
      case EnvelopeContent => "application/x-sentry-envelope"
      case Other(name) => name
    }
  }

  function LowerChar(c: char): char { if 'A' <= c <= 'Z' then c - 'A' + 'a' else c }

  function Lower(s: string): (r: string)
    ensures |r| == |s| && forall i :: 0 <= i < |s| ==> r[i] == LowerChar(s[i])
  {
    seq(|s|, i requires 0 <= i < |s| => LowerChar(s[i]))
  }

  /** The content type of that name, in any case. */
  function ContentTypeOf(name: string): ContentType {
    var s := Lower(name);
    if s == "text/plain" then Text
    else if s == "application/json" then Json
    else if s == "application/x-msgpack" then MsgPack
    else if s == "application/octet-stream" then OctetStream
    else if s == "application/x-dmp" then Minidump
    else if s == "text/xml" || s == "application/xml" then Xml
    else if s == "application/x-sentry-envelope" then EnvelopeContent
    else Other(s)
  }

  /** A content type that is made from a name can be told from its own name. */
  lemma ContentTypeRoundTrip(name: string)
    ensures ContentTypeOf(ContentTypeOf(name).Name()) == ContentTypeOf(name)
  {
    var s := Lower(name);
    assert Lower(s) == s;
    var ty := ContentTypeOf(name);
    if !ty.Other? {
      LowerNames(ty);
    }
  }

  /** The names of the known types, in any case. */
  lemma ContentTypeNames(name: string)
    ensures ContentTypeOf(name) == ContentTypeOf(Lower(name))
    ensures Lower(name) == "text/plain" ==> ContentTypeOf(name) == Text
    ensures Lower(name) == "application/json" ==> ContentTypeOf(name) == Json
    ensures Lower(name) == "application/x-msgpack" ==> ContentTypeOf(name) == MsgPack
    ensures Lower(name) == "application/octet-stream" ==> ContentTypeOf(name) == OctetStream
    ensures Lower(name) == "application/x-dmp" ==> ContentTypeOf(name) == Minidump
    ensures Lower(name) == "text/xml" || Lower(name) == "application/xml" ==> ContentTypeOf(name) == Xml
    ensures Lower(name) == "application/x-sentry-envelope" ==> ContentTypeOf(name) == EnvelopeContent
    ensures ContentTypeOf(name).Other? ==> ContentTypeOf(name) == Other(Lower(name))
  {
    assert Lower(Lower(name)) == Lower(name);
  }

  lemma LowerNames(ty: ContentType)
    requires !ty.Other?
    ensures Lower(ty.Name()) == ty.Name()
  {
  }

  datatype AttachmentType =
    | PlainAttachment | MinidumpAttachment | AppleCrashReport | EventPayload | Breadcrumbs | UnrealContext
    | UnrealLogs

  /** A JSON value: null, an array of elements, or anything else. */
  datatype JsonValue = JsonNull | JsonArray(elements: seq<string>) | JsonOther(text: string)

  datatype Attributes = Attributes(
    ty: ItemType,
    attachmentType: Option<AttachmentType>,
    contentType: Option<ContentType>,
    filename: Option<string>,
    sampleRates: Option<JsonValue>,
    timestamp: Option<nat>,
    other: map<string, JsonValue>)

  function NewItem(ty: ItemType): Item<Attributes> {
    Item(ItemHeaders(Some(0), false, Attributes(ty, None, None, None, None, None, map[])), [])
  }

  /** The ways in which an item is changed once it exists. */
  datatype Change =
    | SetPayload(contentType: ContentType, payload: Bytes)
    | SetAttachmentType(attachmentType: AttachmentType)
    | SetFilename(filename: string)
    | SetRateLimited(rateLimited: bool)
    | SetSampleRates(rates: JsonValue)
    | TakeSampleRates
    | SetHeader(name: string, value: JsonValue)

  /** Replaces the payload by at most 2^32 - 1 bytes of the given one, and declares its length. */
  function WithPayload<A>(item: Item<A>, attributes: A, payload: Bytes): Item<A> {
    var length := Min(MAX_LENGTH, |payload|);
    Item(ItemHeaders(Some(length), item.headers.rateLimited, attributes), payload[..length])
  }

  function Apply(item: Item<Attributes>, change: Change): Item<Attributes> {
    var a := item.headers.attributes;
    match change
    case SetPayload(contentType, payload) => WithPayload(item, a.(contentType := Some(contentType)), payload)
    case SetAttachmentType(ty) => item.(headers := item.headers.(attributes := a.(attachmentType := Some(ty))))
    case SetFilename(name) => item.(headers := item.headers.(attributes := a.(filename := Some(name))))
    case SetRateLimited(flag) => item.(headers := item.headers.(rateLimited := flag))
    case SetSampleRates(rates) =>
      if rates.JsonArray? && rates.elements != []
      then item.(headers := item.headers.(attributes := a.(sampleRates := Some(rates)))) else item
    case TakeSampleRates => item.(headers := item.headers.(attributes := a.(sampleRates := None)))
    case SetHeader(name, value) => item.(headers := item.headers.(attributes := a.(other := a.other[name := value])))
  }

  /** The names of the fields that a header has besides other attributes. */
  const FIELDS := {"type", "length", "attachment_type", "content_type", "filename", "sample_rates", "timestamp"}

  /** The header can be told from its text: so can its content type, sample rates are not null, and no other
      attribute has the name of a field. */
  predicate Plain(a: Attributes) {
    && (a.contentType.Some? ==> ContentTypeOf(a.contentType.value.Name()) == a.contentType.value)
    && a.sampleRates != Some(JsonNull)
    && forall name :: name in a.other ==> name !in FIELDS
  }

  /** What the last change that sets something has set it to. */
  function Latest<T>(changes: seq<Change>, setting: Change -> Option<T>, initial: T): T {
    if changes == [] then initial else
      match setting(changes[|changes| - 1])
      case Some(x) => x
      case None => Latest(changes[..|changes| - 1], setting, initial)
  }

  function PayloadSet(): Change -> Option<Bytes> {
    (c: Change) => if c.SetPayload? then Some(Truncated(c.payload)) else None
  }

  /** The longest prefix that has a 32-bit length. */
  function Truncated(payload: Bytes): (r: Bytes)
    ensures r <= payload && |r| == if |payload| <= 4294967295 then |payload| else 4294967295
  {
    if |payload| <= 4294967295 then payload else payload[..4294967295]
  }

  function AttachmentTypeSet(): Change -> Option<Option<AttachmentType>> {
    (c: Change) => if c.SetAttachmentType? then Some(Some(c.attachmentType)) else None
  }

  function FilenameSet(): Change -> Option<Option<string>> {
    (c: Change) => if c.SetFilename? then Some(Some(c.filename)) else None
  }

  function RateLimitedSet(): Change -> Option<bool> {
    (c: Change) => if c.SetRateLimited? then Some(c.rateLimited) else None
  }

  /** Sample rates are only set to lists that are not empty. */
  function SampleRatesSet(): Change -> Option<Option<JsonValue>> {
    (c: Change) =>
      match c
      case SetSampleRates(JsonArray(elements)) => if elements == [] then None else Some(Some(JsonArray(elements)))
      case TakeSampleRates => Some(None)
      case _ => None
  }

  function HeaderSet(name: string): Change -> Option<Option<JsonValue>> {
    (c: Change) => if c.SetHeader? && c.name == name then Some(Some(c.value)) else None
  }

  /** The content type that was set last. */
  function LastContentType(changes: seq<Change>): Option<ContentType> {
    if changes == [] then None else
      var change := changes[|changes| - 1];
      if change.SetPayload? then Some(change.contentType) else LastContentType(changes[..|changes| - 1])
  }

  /** The content type that was set last can be told from its name, and no attribute with the name of a field was
      set. */
  ghost predicate PlainChanges(changes: seq<Change>) {
    && (LastContentType(changes).Some? ==>
          ContentTypeOf(LastContentType(changes).value.Name()) == LastContentType(changes).value)
    && forall i :: 0 <= i < |changes| && changes[i].SetHeader? ==> changes[i].name !in FIELDS
  }

  function Build(ty: ItemType, changes: seq<Change>): Item<Attributes> {
    if changes == [] then NewItem(ty)
    else Apply(Build(ty, changes[..|changes| - 1]), changes[|changes| - 1])
  }

  /** An item that is built step by step always declares the length of its payload. */
  lemma {:induction false} BuiltIsFramed(ty: ItemType, changes: seq<Change>)
    ensures var item := Build(ty, changes);
            item.headers.length == Some(|item.payload|) && |item.payload| <= MAX_LENGTH
  {
    if changes != [] {
      BuiltIsFramed(ty, changes[..|changes| - 1]);
    }
  }

  /** Of a built item, everything is as it was set last. */
  lemma {:induction false} BuiltPayload(ty: ItemType, changes: seq<Change>)
    ensures Build(ty, changes).payload == Latest(changes, PayloadSet(), [])
    ensures Build(ty, changes).headers.rateLimited == Latest(changes, RateLimitedSet(), false)
  {
    if changes != [] {
      BuiltPayload(ty, changes[..|changes| - 1]);
    }
  }

  lemma {:induction false} BuiltFields(ty: ItemType, changes: seq<Change>)
    ensures var a := Build(ty, changes).headers.attributes;
            && a.ty == ty && a.timestamp == None
            && a.attachmentType == Latest(changes, AttachmentTypeSet(), None)
  {
    if changes != [] {
      BuiltFields(ty, changes[..|changes| - 1]);
    }
  }

  lemma {:induction false} BuiltFilename(ty: ItemType, changes: seq<Change>)
    ensures Build(ty, changes).headers.attributes.filename == Latest(changes, FilenameSet(), None)
  {
    if changes != [] {
      BuiltFilename(ty, changes[..|changes| - 1]);
    }
  }

  lemma {:induction false} BuiltRates(ty: ItemType, changes: seq<Change>)
    ensures Build(ty, changes).headers.attributes.sampleRates == Latest(changes, SampleRatesSet(), None)
  {
    if changes != [] {
      BuiltRates(ty, changes[..|changes| - 1]);
    }
  }

  lemma {:induction false} BuiltHeader(ty: ItemType, changes: seq<Change>, name: string)
    ensures var other := Build(ty, changes).headers.attributes.other;
            (if name in other then Some(other[name]) else None) == Latest(changes, HeaderSet(name), None)
  {
    if changes != [] {
      BuiltHeader(ty, changes[..|changes| - 1], name);
    }
  }

  lemma {:induction false} BuiltContentType(ty: ItemType, changes: seq<Change>)
    ensures Build(ty, changes).headers.attributes.contentType == LastContentType(changes)
  {
    if changes != [] {
      BuiltContentType(ty, changes[..|changes| - 1]);
    }
  }

  lemma {:induction false} BuiltSampleRates(ty: ItemType, changes: seq<Change>)
    ensures Build(ty, changes).headers.attributes.sampleRates != Some(JsonNull)
  {
    if changes != [] {
      BuiltSampleRates(ty, changes[..|changes| - 1]);
    }
  }

  predicate SetsHeader(changes: seq<Change>, name: string) {
    exists i :: 0 <= i < |changes| && changes[i].SetHeader? && changes[i].name == name
  }

  lemma {:induction false} BuiltHeaders(ty: ItemType, changes: seq<Change>, name: string)
    ensures name in Build(ty, changes).headers.attributes.other <==> SetsHeader(changes, name)
  {
    if changes != [] {
      var n := |changes| - 1;
      BuiltHeaders(ty, changes[..n], name);
      assert SetsHeader(changes, name) <==>
             SetsHeader(changes[..n], name) || (changes[n].SetHeader? && changes[n].name == name) by {
        assert forall i :: 0 <= i < n ==> changes[..n][i] == changes[i];
      }
    }
  }

  /** Which changes lead to a header that can be told from its text. */
  lemma BuiltIsPlain(ty: ItemType, changes: seq<Change>)
    ensures Plain(Build(ty, changes).headers.attributes) <==> PlainChanges(changes)
  {
    BuiltContentType(ty, changes);
    BuiltSampleRates(ty, changes);
    forall name
      ensures name in Build(ty, changes).headers.attributes.other <==> SetsHeader(changes, name)
    {
      BuiltHeaders(ty, changes, name);
    }
    assert forall i :: 0 <= i < |changes| && changes[i].SetHeader? ==> SetsHeader(changes, changes[i].name);
  }

  datatype Recipe = Recipe(ty: ItemType, changes: seq<Change>)

  function BuildAll(recipes: seq<Recipe>): (items: seq<Item<Attributes>>)
    ensures |items| == |recipes|
    ensures forall i :: 0 <= i < |items| ==> items[i] == Build(recipes[i].ty, recipes[i].changes)
  {
    seq(|recipes|, i requires 0 <= i < |recipes| => Build(recipes[i].ty, recipes[i].changes))
  }

  /** The headers of items that can be written are the plain ones. */
  ghost predicate WritesPlain(items: Codec<ItemHeaders<Attributes>>) {
    forall h: ItemHeaders<Attributes> :: items.writable(h) <==> Plain(h.attributes)
  }

  /** An envelope of items that were built step by step, with payloads of arbitrary bytes, survives serialization,
      except for the internal `rate_limited` flag, if and only if its headers can be written and no item was given an
      attribute with the name of a field, or in the end a content type that its name does not stand for. */
  lemma BuiltRoundTrip<E(!new)>(envelopes: Codec<E>, items: Codec<ItemHeaders<Attributes>>, headers: E, recipes: seq<Recipe>)
    requires Codecs(envelopes, items) && WritesPlain(items)
    ensures Survives(envelopes, items, EnvelopeData(headers, BuildAll(recipes))) <==>
              envelopes.writable(headers) && forall i :: 0 <= i < |recipes| ==> PlainChanges(recipes[i].changes)
  {
    var built := BuildAll(recipes);
    forall i | 0 <= i < |recipes|
      ensures Framed(built[i]) && (items.writable(built[i].headers) <==> PlainChanges(recipes[i].changes))
    {
      BuiltIsFramed(recipes[i].ty, recipes[i].changes);
      BuiltIsPlain(recipes[i].ty, recipes[i].changes);
    }
    RoundTripIff(envelopes, items, EnvelopeData(headers, built));
    assert AllWritable(items, built) <==> forall i :: 0 <= i < |recipes| ==> PlainChanges(recipes[i].changes) by {
      if AllWritable(items, built) {
        assert forall i :: 0 <= i < |recipes| ==> items.writable(built[i].headers);
      }
    }
  }

  /** An item with an additional attribute that is called `length`, and one whose content type is `Other` with the name
      of a known type, do not survive. */
  lemma BuiltFails<E(!new)>(envelopes: Codec<E>, items: Codec<ItemHeaders<Attributes>>, headers: E, ty: ItemType,
                            value: JsonValue, payload: Bytes)
    requires Codecs(envelopes, items) && WritesPlain(items)
    ensures !Survives(envelopes, items, EnvelopeData(headers, BuildAll([Recipe(ty, [SetHeader("length", value)])])))
    ensures !Survives(envelopes, items,
                      EnvelopeData(headers, BuildAll([Recipe(ty, [SetPayload(Other("text/plain"), payload)])])))
  {
    var a, b := Recipe(ty, [SetHeader("length", value)]), Recipe(ty, [SetPayload(Other("text/plain"), payload)]);
    BuiltRoundTrip(envelopes, items, headers, [a]);
    BuiltRoundTrip(envelopes, items, headers, [b]);
    assert a.changes[0].name in FIELDS;
    LowerNames(Text);
    assert LastContentType(b.changes) == Some(Other("text/plain"));
    assert !PlainChanges([a][0].changes) && !PlainChanges([b][0].changes);
  }

  // ----- Taking envelopes apart ------------------------------------------------------------------

  /** The items for which the condition is as wanted, in their order. */
  function Filter<T>(items: seq<T>, cond: T -> bool, wanted: bool): seq<T> {
    if items == [] then [] else
      var init, last := items[..|items| - 1], items[|items| - 1];
      Filter(init, cond, wanted) + if cond(last) == wanted then [last] else []
  }

  /** Filtering by a condition and by its opposite separates the items: none is lost or duplicated. */
  lemma {:induction false} FilterPartitions<T>(items: seq<T>, cond: T -> bool)
    ensures multiset(Filter(items, cond, true)) + multiset(Filter(items, cond, false)) == multiset(items)
  {
    if items != [] {
      var init, last := items[..|items| - 1], items[|items| - 1];
      FilterPartitions(init, cond);
      assert items == init + [last];
      assert multiset(items) == multiset(init) + multiset{last};
      assert multiset(Filter(items, cond, cond(last))) == multiset(Filter(init, cond, cond(last))) + multiset{last};
      assert Filter(items, cond, !cond(last)) == Filter(init, cond, !cond(last));
    }
  }

  lemma {:induction false} FilterMembers<T(!new)>(items: seq<T>, cond: T -> bool, wanted: bool)
    ensures forall x :: x in Filter(items, cond, wanted) <==> x in items && cond(x) == wanted
    ensures |Filter(items, cond, wanted)| <= |items|
    ensures |Filter(items, cond, wanted)| == |items| <==> forall x :: x in items ==> cond(x) == wanted
  {
    if items != [] {
      var init, last := items[..|items| - 1], items[|items| - 1];
      FilterMembers(init, cond, wanted);
      assert items == init + [last];
    }
  }

  /** Filtering keeps the order. */
  lemma {:induction false} FilterConcat<T>(a: seq<T>, b: seq<T>, cond: T -> bool, wanted: bool)
    ensures Filter(a + b, cond, wanted) == Filter(a, cond, wanted) + Filter(b, cond, wanted)
  {
    if b == [] {
      assert a + b == a;
    } else {
      assert (a + b)[..|a + b| - 1] == a + b[..|b| - 1];
      FilterConcat(a, b[..|b| - 1], cond, wanted);
    }
  }

  /** The index of the first item that meets the condition, or the number of items. */
  function Position<T>(items: seq<T>, cond: T -> bool): (i: nat)
    ensures i <= |items| && (i < |items| ==> cond(items[i]))
    ensures forall j :: 0 <= j < i ==> !cond(items[j])
  {
    if items == [] || cond(items[0]) then 0 else 1 + Position(items[1..], cond)
  }

  class Envelope<E, T(!new)> {
    const headers: E
    var items: seq<T>

    constructor (headers: E, items: seq<T>)
      ensures this.headers == headers && this.items == items
    {
      this.headers := headers;
      this.items := items;
    }

    method AddItem(item: T)
      modifies this
      ensures items == old(items) + [item]
    {
      items := items + [item];
    }

    /** Removes the first item that meets the condition and moves the last item into its place. */
    method TakeItemBy(cond: T -> bool) returns (taken: Option<T>)
      modifies this
      ensures taken.None? ==> items == old(items) && forall x :: x in items ==> !cond(x)
      ensures taken.Some? ==>
                var i, n := Position(old(items), cond), |old(items)| - 1;
                && i <= n && taken.value == old(items)[i]
                && items == old(items)[i := old(items)[n]][..n]
                && multiset(items) + multiset{taken.value} == multiset(old(items))
    {
      var i := Position(items, cond);
      if i == |items| {
        return None;
      }
      taken := Some(items[i]);
      var n := |items| - 1;
      SwapRemove(items, i);
      items := items[i := items[n]][..n];
    }

    /** Moves the items that meet the condition into a new envelope with the same headers, unless that
        would leave one of the two envelopes empty. */
    method SplitBy(f: T -> bool) returns (split: Envelope?<E, T>)
      modifies this
      ensures split == null <==> (forall x :: x in old(items) ==> f(x)) || (forall x :: x in old(items) ==> !f(x))
      ensures split == null ==> items == old(items)
      ensures split != null ==>
                && fresh(split) && split.headers == headers
                && split.items == Filter(old(items), f, true)
                && items == Filter(old(items), f, false)
    {
      FilterMembers(items, f, true);
      var chosen := Filter(items, f, true);
      if |chosen| == |items| || |chosen| == 0 {
        assert chosen == [] ==> forall x :: x in items ==> x !in chosen;
        return null;
      }
      assert chosen[0] in chosen && chosen[0] in items && f(chosen[0]);
      split := new Envelope(headers, chosen);
      items := Filter(items, f, false);
    }
  }

  lemma SwapRemove<T>(items: seq<T>, i: nat)
    requires i < |items|
    ensures multiset(items[i := items[|items| - 1]][..|items| - 1]) + multiset{items[i]} == multiset(items)
  {
    var n := |items| - 1;
    var last := items[n];
    assert items == items[..n] + [last];
    if i < n {
      var init := items[..n];
      assert items[i := last][..n] == init[i := last];
      assert multiset(init[i := last]) == multiset(init) - multiset{init[i]} + multiset{last};
    } else {
      assert items[i := last][..n] == items[..n];
    }
  }
}
