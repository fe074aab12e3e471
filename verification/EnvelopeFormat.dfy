/** The wire format of envelopes (relay-server/src/envelope.rs): a header line, followed by items that
    consist of a header line and a payload with an explicit or implicit length.

    The JSON codec of the headers is a parameter. `E` stands for the envelope headers and `A` for those
    attributes of an item header that the format itself does not look at. */
module EnvelopeFormat {
  import opened Wrappers
  import opened ByteStrings

  /** The longest length that can be declared, a `u32`. */
  const MAX_LENGTH: nat := 0xFFFF_FFFF

  type Length = n: nat | n <= MAX_LENGTH

  datatype ItemHeaders<A> = ItemHeaders(length: Option<Length>, rateLimited: bool, attributes: A)

  datatype Item<A> = Item(headers: ItemHeaders<A>, payload: Bytes)

  datatype EnvelopeData<E, A> = EnvelopeData(headers: E, items: seq<Item<A>>)

  datatype EnvelopeError = UnexpectedEof | MissingHeader | MissingNewline | InvalidHeader | InvalidItemHeader

  // ----- The header codec ----------------------------------------------------------------------

  /** The first value of a JSON stream: none in blank input, an invalid one, or one that ends at an offset. */
  datatype Decoded<H> = Blank | Invalid | Decoded(headers: H, end: nat)

  /** `writable` tells for which headers the text form is one that stands for them alone. */
  datatype Codec<!H> = Codec(encode: H -> Bytes, decode: Bytes -> Decoded<H>, writable: H -> bool)

  /** Decoding depends on no more than it consumes, and what was decoded can be written again. `wire` picks
      out what is serialized of the headers. */
  ghost predicate Reads<H>(codec: Codec<H>, wire: H -> H, bytes: Bytes) {
    codec.decode(bytes).Decoded? ==>
      && codec.decode(bytes).end <= |bytes|
      && codec.decode(bytes[..codec.decode(bytes).end]) == codec.decode(bytes)
      && wire(codec.decode(bytes).headers) == codec.decode(bytes).headers
      && codec.writable(codec.decode(bytes).headers)
  }

  /** Encoding writes no newline, and decoding, whatever follows, gives back what was serialized. */
  ghost predicate Writes<H>(codec: Codec<H>, wire: H -> H, headers: H, rest: Bytes) {
    && NEWLINE !in codec.encode(headers)
    && codec.decode(codec.encode(headers) + rest) == Decoded(wire(headers), |codec.encode(headers)|)
  }

  ghost predicate Lawful<H(!new)>(codec: Codec<H>, wire: H -> H) {
    && codec.decode([]) == Blank
    && (forall bytes :: Reads(codec, wire, bytes))
    && (forall headers, rest :: codec.writable(headers) ==> Writes(codec, wire, headers, rest))
    && (forall headers :: codec.writable(headers) <==> codec.writable(wire(headers)))
  }

  /** Envelope headers are serialized completely. */
  function All<E>(headers: E): E { headers }

  /** The `rate_limited` flag of an item is internal and never serialized. */
  function Serialized<A>(headers: ItemHeaders<A>): ItemHeaders<A> { headers.(rateLimited := false) }

  ghost predicate Codecs<E(!new), A(!new)>(envelopes: Codec<E>, items: Codec<ItemHeaders<A>>) {
    Lawful(envelopes, (h: E) => All(h)) && Lawful(items, (h: ItemHeaders<A>) => Serialized(h))
  }

  // ----- Parsing ---------------------------------------------------------------------------------

  predicate Terminated(bytes: Bytes, offset: nat) {
    offset < |bytes| ==> bytes[offset] == NEWLINE
  }

  /** The position of the first newline, or the end. */
  function LineEnd(bytes: Bytes): (n: nat)
    ensures n <= |bytes| && Terminated(bytes, n)
    ensures NEWLINE !in bytes[..n]
  {
    if bytes == [] || bytes[0] == NEWLINE then 0 else
      var n := LineEnd(bytes[1..]) + 1;
      assert bytes[..n] == [bytes[0]] + bytes[1..][..n - 1];
      n
  }

  function Min(a: nat, b: nat): nat { if a <= b then a else b }

  /** The end of the payload that starts at `start`. */
  function PayloadEnd(length: Option<Length>, bytes: Bytes, start: nat): (r: Result<nat, EnvelopeError>)
    requires start <= |bytes|
    ensures r.Success? ==> start <= r.value <= |bytes| && Terminated(bytes, r.value)
    ensures r.Success? ==> match length
                           case Some(n) => r.value == start + n
                           case None => NEWLINE !in bytes[start..r.value]
  {
    match length
    case Some(n) =>
      if |bytes| < start + n then Failure(UnexpectedEof)
      else if !Terminated(bytes, start + n) then Failure(MissingNewline)
      else Success(start + n)
    case None =>
      var n := LineEnd(bytes[start..]);
      assert bytes[start..start + n] == bytes[start..][..n];
      Success(start + n)
  }

  /** Parses one item and says how many bytes it takes, which may be one more than there are. */
  function ParseItem<A>(codec: Codec<ItemHeaders<A>>, bytes: Bytes): (r: Result<(Item<A>, nat), EnvelopeError>)
    ensures r.Success? ==> 0 < r.value.1 <= |bytes| + 1
  {
    match codec.decode(bytes)
    case Blank => Failure(UnexpectedEof)
    case Invalid => Failure(InvalidItemHeader)
    case Decoded(headers, headersEnd) =>
      if !Terminated(bytes, headersEnd) then Failure(MissingNewline) else
        // The last header does not need a newline, so the payload may start at the very end.
        var start := Min(headersEnd + 1, |bytes|);
        match PayloadEnd(headers.length, bytes, start)
        case Failure(error) => Failure(error)
        case Success(end) => Success((Item(headers, bytes[start..end]), end + 1))
  }

  /** An offset at the end of the input or at a newline. */
  predicate AtLineEnd(bytes: Bytes, offset: int) {
    offset == |bytes| || (0 <= offset < |bytes| && bytes[offset] == NEWLINE)
  }

  /** What an item looks like: a header that ends with its line, and a payload that starts behind it. The payload has
      the declared length and ends with a line or the input; without a declared length it is the rest of the line. */
  ghost predicate IsItem<A>(codec: Codec<ItemHeaders<A>>, bytes: Bytes, item: Item<A>, end: nat) {
    && codec.decode(bytes).Decoded? && codec.decode(bytes).headers == item.headers
    && var headersEnd := codec.decode(bytes).end;
    && AtLineEnd(bytes, headersEnd)
    && var start := if headersEnd < |bytes| then headersEnd + 1 else headersEnd;
    && start <= end && AtLineEnd(bytes, end) && item.payload == bytes[start..end]
    && (match item.headers.length
        case Some(n) => end == start + n
        case None => NEWLINE !in bytes[start..end])
  }

  lemma ParsedIsItem<A>(codec: Codec<ItemHeaders<A>>, bytes: Bytes)
    requires ParseItem(codec, bytes).Success? && codec.decode(bytes).end <= |bytes|
    ensures var (item, size) := ParseItem(codec, bytes).value; size > 0 && IsItem(codec, bytes, item, size - 1)
  {
  }

  lemma ItemIsParsed<A>(codec: Codec<ItemHeaders<A>>, bytes: Bytes, item: Item<A>, end: nat)
    requires IsItem(codec, bytes, item, end)
    ensures ParseItem(codec, bytes) == Success((item, end + 1))
  {
    var start := Min(codec.decode(bytes).end + 1, |bytes|);
    if item.headers.length.None? {
      assert bytes[start..][..end - start] == bytes[start..end];
      FirstLineEnd(bytes[start..], end - start);
    }
  }

  /** An item is parsed exactly if it stands in the input, also when it ends with the input. */
  lemma ParseItemIff<A>(codec: Codec<ItemHeaders<A>>, bytes: Bytes, item: Item<A>, size: nat)
    requires codec.decode(bytes).Decoded? ==> codec.decode(bytes).end <= |bytes|
    ensures ParseItem(codec, bytes) == Success((item, size)) <==> size > 0 && IsItem(codec, bytes, item, size - 1)
  {
    if ParseItem(codec, bytes) == Success((item, size)) {
      ParsedIsItem(codec, bytes);
    }
    if size > 0 && IsItem(codec, bytes, item, size - 1) {
      ItemIsParsed(codec, bytes, item, size - 1);
    }
  }

  /** The rest of a line ends in one place only. */
  lemma {:induction false} FirstLineEnd(bytes: Bytes, n: nat)
    requires n <= |bytes| && Terminated(bytes, n) && NEWLINE !in bytes[..n]
    ensures LineEnd(bytes) == n
  {
    if n > 0 {
      assert bytes[..n][0] == bytes[0] != NEWLINE;
      assert bytes[1..][..n - 1] == bytes[..n][1..];
      FirstLineEnd(bytes[1..], n - 1);
    }
  }

  /** Why an item is refused: its header is missing or invalid, the header or the declared payload does not end with a
      line or the input, or the declared payload is longer than the input. */
  lemma ParseItemErrors<A>(codec: Codec<ItemHeaders<A>>, bytes: Bytes)
    requires codec.decode(bytes).Decoded? ==> codec.decode(bytes).end <= |bytes|
    ensures match codec.decode(bytes)
            case Blank => ParseItem(codec, bytes) == Failure(UnexpectedEof)
            case Invalid => ParseItem(codec, bytes) == Failure(InvalidItemHeader)
            case Decoded(headers, headersEnd) =>
              var start := if headersEnd < |bytes| then headersEnd + 1 else headersEnd;
              && (!AtLineEnd(bytes, headersEnd) ==> ParseItem(codec, bytes) == Failure(MissingNewline))
              && (AtLineEnd(bytes, headersEnd) && headers.length.Some? ==>
                    && (start + headers.length.value > |bytes| ==> ParseItem(codec, bytes) == Failure(UnexpectedEof))
                    && (start + headers.length.value < |bytes| && bytes[start + headers.length.value] != NEWLINE ==>
                          ParseItem(codec, bytes) == Failure(MissingNewline)))
  {
  }

  /** The header of an envelope is parsed exactly if it ends with a line or the input. */
  lemma ParseHeadersIff<E>(codec: Codec<E>, bytes: Bytes)
    requires codec.decode(bytes).Decoded? ==> codec.decode(bytes).end <= |bytes|
    ensures match codec.decode(bytes)
            case Blank => ParseHeaders(codec, bytes) == Failure(MissingHeader)
            case Invalid => ParseHeaders(codec, bytes) == Failure(InvalidHeader)
            case Decoded(headers, end) =>
              ParseHeaders(codec, bytes) ==
                if AtLineEnd(bytes, end) then Success((headers, end + 1)) else Failure(MissingNewline)
  {
  }

  /** Parses all items of the given bytes. */  /** Parses all items of the given bytes. */
  function ParseItems<A>(codec: Codec<ItemHeaders<A>>, bytes: Bytes): Result<seq<Item<A>>, EnvelopeError>
    decreases |bytes|
  {
    if bytes == [] then Success([]) else
      match ParseItem(codec, bytes)
      case Failure(error) => Failure(error)
      case Success((item, size)) =>
        Prepend([item], ParseItems(codec, bytes[Min(size, |bytes|)..]))
  }

  function ParseHeaders<E>(codec: Codec<E>, bytes: Bytes): Result<(E, nat), EnvelopeError> {
    match codec.decode(bytes)
    case Blank => Failure(MissingHeader)
    case Invalid => Failure(InvalidHeader)
    case Decoded(headers, end) =>
      if Terminated(bytes, end) then Success((headers, end + 1)) else Failure(MissingNewline)
  }

  function ParseBytes<E, A>(envelopes: Codec<E>, items: Codec<ItemHeaders<A>>, bytes: Bytes)
    : Result<EnvelopeData<E, A>, EnvelopeError>
  {
    match ParseHeaders(envelopes, bytes)
    case Failure(error) => Failure(error)
    case Success((headers, offset)) =>
      match ParseFrom(items, bytes, offset)
      case Failure(error) => Failure(error)
      case Success(items) => Success(EnvelopeData(headers, items))
  }

  function Prepend<A>(items: seq<Item<A>>, r: Result<seq<Item<A>>, EnvelopeError>): Result<seq<Item<A>>, EnvelopeError> {
    match r
    case Failure(_) => r
    case Success(rest) => Success(items + rest)
  }

  lemma PrependTwice<A>(a: seq<Item<A>>, b: seq<Item<A>>, r: Result<seq<Item<A>>, EnvelopeError>)
    ensures Prepend(a, Prepend(b, r)) == Prepend(a + b, r)
  {
    if r.Success? {
      assert a + (b + r.value) == (a + b) + r.value;
    }
  }

  lemma PrependNothing<A>(items: seq<Item<A>>, r: Result<seq<Item<A>>, EnvelopeError>)
    ensures Prepend([], r) == r && Prepend(items, Success([])) == Success(items)
  {
    assert r.Success? ==> [] + r.value == r.value;
    assert items + [] == items;
  }

  /** Parses the items that start at an offset, which may lie just behind the end. */
  function ParseFrom<A>(codec: Codec<ItemHeaders<A>>, bytes: Bytes, offset: nat): Result<seq<Item<A>>, EnvelopeError> {
    ParseItems(codec, bytes[Min(offset, |bytes|)..])
  }

  lemma ParseFromStep<A>(codec: Codec<ItemHeaders<A>>, bytes: Bytes, offset: nat)
    requires offset < |bytes|
    ensures match ParseItem(codec, bytes[offset..])
            case Failure(error) => ParseFrom(codec, bytes, offset) == Failure(error)
            case Success((item, size)) =>
              && offset + size <= |bytes| + 1
              && ParseFrom(codec, bytes, offset) == Prepend([item], ParseFrom(codec, bytes, offset + size))
  {
    var slice := bytes[offset..];
    match ParseItem(codec, slice)
    case Failure(_) =>
    case Success((item, size)) =>
      assert slice[Min(size, |slice|)..] == bytes[Min(offset + size, |bytes|)..];
  }

  /** The result of parsing on from an offset, with the items that were parsed up to there. */
  function Continued<A>(codec: Codec<ItemHeaders<A>>, bytes: Bytes, offset: nat, items: seq<Item<A>>)
    : Result<seq<Item<A>>, EnvelopeError>
  {
    Prepend(items, ParseFrom(codec, bytes, offset))
  }

  lemma ContinuedStep<A>(codec: Codec<ItemHeaders<A>>, bytes: Bytes, offset: nat, items: seq<Item<A>>,
                         parsed: Result<(Item<A>, nat), EnvelopeError>)
    requires offset < |bytes| && parsed == ParseItem(codec, bytes[offset..])
    ensures parsed.Failure? ==> Continued(codec, bytes, offset, items) == Failure(parsed.error)
    ensures parsed.Success? ==>
              && 0 < parsed.value.1 && offset + parsed.value.1 <= |bytes| + 1
              && Continued(codec, bytes, offset, items) ==
                   Continued(codec, bytes, offset + parsed.value.1, items + [parsed.value.0])
  {
    ParseFromStep(codec, bytes, offset);
    if parsed.Success? {
      PrependTwice(items, [parsed.value.0], ParseFrom(codec, bytes, offset + parsed.value.1));
    }
  }

  lemma ContinuedEnd<A>(codec: Codec<ItemHeaders<A>>, bytes: Bytes, offset: nat, items: seq<Item<A>>)
    requires |bytes| <= offset
    ensures Continued(codec, bytes, offset, items) == Success(items)
  {
    PrependNothing(items, ParseFrom(codec, bytes, offset));
  }

  lemma ContinuedStart<A>(codec: Codec<ItemHeaders<A>>, bytes: Bytes, start: nat)
    ensures Continued(codec, bytes, start, []) == ParseFrom(codec, bytes, start)
  {
    PrependNothing([], ParseFrom(codec, bytes, start));
  }

  /** Parses the item at an offset, pushes it, and returns the next offset. */
  method ParseNext<A>(codec: Codec<ItemHeaders<A>>, bytes: Bytes, offset: nat, items: seq<Item<A>>)
    returns (next: Result<nat, EnvelopeError>, items': seq<Item<A>>)
    requires offset < |bytes|
    ensures next.Failure? ==> Continued(codec, bytes, offset, items) == Failure(next.error)
    ensures next.Success? ==>
              && offset < next.value <= |bytes| + 1
              && Continued(codec, bytes, offset, items) == Continued(codec, bytes, next.value, items')
  {
    var parsed := ParseItem(codec, bytes[offset..]);
    ContinuedStep(codec, bytes, offset, items, parsed);
    if parsed.Failure? {
      return Failure(parsed.error), items;
    }
    return Success(offset + parsed.value.1), items + [parsed.value.0];
  }

  /** The first item that is refused decides the error. */
  lemma ErrorsArePassedOn<E, A>(envelopes: Codec<E>, items: Codec<ItemHeaders<A>>, bytes: Bytes, error: EnvelopeError)
    ensures bytes != [] && ParseItem(items, bytes) == Failure(error) ==> ParseItems(items, bytes) == Failure(error)
    ensures bytes != [] && ParseItem(items, bytes).Success? &&
            ParseFrom(items, bytes, ParseItem(items, bytes).value.1) == Failure(error) ==>
              ParseItems(items, bytes) == Failure(error)
    ensures ParseHeaders(envelopes, bytes) == Failure(error) ==> ParseBytes(envelopes, items, bytes) == Failure(error)
    ensures ParseHeaders(envelopes, bytes).Success? &&
            ParseFrom(items, bytes, ParseHeaders(envelopes, bytes).value.1) == Failure(error) ==>
              ParseBytes(envelopes, items, bytes) == Failure(error)
  {
  }

  /** The parser's loop: it advances an offset that ends at the end of the input or just behind it. */
  method ParseItemsFrom<A>(codec: Codec<ItemHeaders<A>>, bytes: Bytes, start: nat)
    returns (r: Result<seq<Item<A>>, EnvelopeError>, ghost end: nat)
    ensures r == ParseFrom(codec, bytes, start)
    ensures r.Success? && start <= |bytes| + 1 ==> |bytes| <= end <= |bytes| + 1
  {
    var items: seq<Item<A>> := [];
    var offset := start;
    ContinuedStart(codec, bytes, start);
    ghost var all := ParseFrom(codec, bytes, start);
    while offset < |bytes|
      invariant start <= |bytes| + 1 ==> offset <= |bytes| + 1
      invariant Continued(codec, bytes, offset, items) == all
      decreases |bytes| + 1 - offset
    {
      var next;
      next, items := ParseNext(codec, bytes, offset, items);
      if next.Failure? {
        return Failure(next.error), offset;
      }
      offset := next.value;
    }
    ContinuedEnd(codec, bytes, offset, items);
    return Success(items), offset;
  }

  // ----- Serializing -----------------------------------------------------------------------------

  function SerializeItem<A>(codec: Codec<ItemHeaders<A>>, item: Item<A>): Bytes {
    codec.encode(item.headers) + [NEWLINE] + item.payload + [NEWLINE]
  }

  function SerializeItems<A>(codec: Codec<ItemHeaders<A>>, items: seq<Item<A>>): Bytes {
    if items == [] then [] else SerializeItem(codec, items[0]) + SerializeItems(codec, items[1..])
  }

  function Serialize<E, A>(envelopes: Codec<E>, items: Codec<ItemHeaders<A>>, envelope: EnvelopeData<E, A>): Bytes {
    envelopes.encode(envelope.headers) + [NEWLINE] + SerializeItems(items, envelope.items)
  }

  /** Writes an envelope piece by piece. */
  method ToVec<E, A>(envelopes: Codec<E>, items: Codec<ItemHeaders<A>>, envelope: EnvelopeData<E, A>)
    returns (out: Bytes)
    ensures out == Serialize(envelopes, items, envelope)
  {
    out := envelopes.encode(envelope.headers);
    out := out + [NEWLINE];
    ghost var head := out;
    for i := 0 to |envelope.items|
      invariant out + SerializeItems(items, envelope.items[i..]) == Serialize(envelopes, items, envelope)
    {
      var item := envelope.items[i];
      assert envelope.items[i..][1..] == envelope.items[i + 1..];
      ghost var before := out;
      out := out + items.encode(item.headers);
      out := out + [NEWLINE];
      out := out + item.payload;
      out := out + [NEWLINE];
      assert out == before + SerializeItem(items, item);
    }
  }

  // ----- Round trips -----------------------------------------------------------------------------

  /** The declared length of an item is that of its payload, or it is left out and the payload is a line. */
  predicate Framed<A>(item: Item<A>) {
    match item.headers.length
    case Some(n) => n == |item.payload|
    case None => NEWLINE !in item.payload
  }

  ghost predicate AllWritable<A>(codec: Codec<ItemHeaders<A>>, items: seq<Item<A>>) {
    forall i :: 0 <= i < |items| ==> codec.writable(items[i].headers)
  }

  /** The item as it is read back. */
  function ReadBack<A>(item: Item<A>): Item<A> { item.(headers := Serialized(item.headers)) }

  function ReadBackAll<A>(items: seq<Item<A>>): (r: seq<Item<A>>)
    ensures |r| == |items| && forall i :: 0 <= i < |items| ==> r[i] == ReadBack(items[i])
  {
    seq(|items|, i requires 0 <= i < |items| => ReadBack(items[i]))
  }

  lemma {:induction false} LineEndOf(line: Bytes, rest: Bytes)
    requires NEWLINE !in line
    ensures LineEnd(line + [NEWLINE] + rest) == |line|
  {
    if line != [] {
      assert (line + [NEWLINE] + rest)[1..] == line[1..] + [NEWLINE] + rest;
      LineEndOf(line[1..], rest);
    }
  }

  lemma PayloadFound<A>(item: Item<A>, bytes: Bytes, start: nat, rest: Bytes)
    requires Framed(item) && start <= |bytes| && bytes[start..] == item.payload + [NEWLINE] + rest
    ensures PayloadEnd(item.headers.length, bytes, start) == Success(start + |item.payload|)
    ensures bytes[start..start + |item.payload|] == item.payload
  {
    assert bytes[start + |item.payload|] == bytes[start..][|item.payload|];
    assert bytes[start..start + |item.payload|] == bytes[start..][..|item.payload|];
    if item.headers.length.None? {
      LineEndOf(item.payload, rest);
    }
  }

  lemma HeadersFound<H(!new)>(codec: Codec<H>, wire: H -> H, headers: H, rest: Bytes)
    requires Lawful(codec, wire) && codec.writable(headers)
    ensures var h := codec.encode(headers);
            var bytes := h + [NEWLINE] + rest;
            codec.decode(bytes) == Decoded(wire(headers), |h|) && Terminated(bytes, |h|) && bytes[|h| + 1..] == rest
  {
    var tail := [NEWLINE] + rest;
    assert Writes(codec, wire, headers, tail);
    assert codec.encode(headers) + [NEWLINE] + rest == codec.encode(headers) + tail;
  }

  lemma ParseItemWith<A>(codec: Codec<ItemHeaders<A>>, bytes: Bytes, headers: ItemHeaders<A>, headersEnd: nat, end: nat)
    requires codec.decode(bytes) == Decoded(headers, headersEnd) && headersEnd < |bytes| && Terminated(bytes, headersEnd)
    requires PayloadEnd(headers.length, bytes, headersEnd + 1) == Success(end)
    ensures ParseItem(codec, bytes) == Success((Item(headers, bytes[headersEnd + 1..end]), end + 1))
  {
  }

  lemma SerializedItem<A>(codec: Codec<ItemHeaders<A>>, item: Item<A>, rest: Bytes)
    ensures SerializeItem(codec, item) + rest ==
              codec.encode(item.headers) + [NEWLINE] + (item.payload + [NEWLINE] + rest)
    ensures |SerializeItem(codec, item)| == |codec.encode(item.headers)| + 1 + |item.payload| + 1
  {
  }

  /** Parsing a serialized item, whatever follows it, consumes it exactly. */
  lemma ItemRoundTrip<A(!new)>(codec: Codec<ItemHeaders<A>>, item: Item<A>, rest: Bytes)
    requires Lawful(codec, (h: ItemHeaders<A>) => Serialized(h)) && codec.writable(item.headers) && Framed(item)
    ensures ParseItem(codec, SerializeItem(codec, item) + rest) ==
              Success((ReadBack(item), |SerializeItem(codec, item)|))
  {
    var h := codec.encode(item.headers);
    var tail := item.payload + [NEWLINE] + rest;
    var bytes := h + [NEWLINE] + tail;
    SerializedItem(codec, item, rest);
    HeadersFound(codec, (h: ItemHeaders<A>) => Serialized(h), item.headers, tail);
    PayloadFound(item, bytes, |h| + 1, rest);
    ParseItemWith(codec, bytes, Serialized(item.headers), |h|, |h| + 1 + |item.payload|);
  }

  lemma ParseItemsStep<A>(codec: Codec<ItemHeaders<A>>, first: Bytes, rest: Bytes, item: Item<A>)
    requires ParseItem(codec, first + rest) == Success((item, |first|))
    ensures ParseItems(codec, first + rest) == Prepend([item], ParseItems(codec, rest))
  {
    assert (first + rest)[|first|..] == rest;
  }

  lemma ReadBackFirst<A>(items: seq<Item<A>>)
    requires items != []
    ensures Prepend([ReadBack(items[0])], Success(ReadBackAll(items[1..]))) == Success(ReadBackAll(items))
  {
    assert ReadBackAll(items) == [ReadBack(items[0])] + ReadBackAll(items[1..]);
  }

  lemma {:induction false} ItemsRoundTrip<A(!new)>(codec: Codec<ItemHeaders<A>>, items: seq<Item<A>>)
    requires Lawful(codec, (h: ItemHeaders<A>) => Serialized(h)) && AllWritable(codec, items)
    requires forall i :: 0 <= i < |items| ==> Framed(items[i])
    ensures ParseItems(codec, SerializeItems(codec, items)) == Success(ReadBackAll(items))
  {
    if items != [] {
      var first, rest := SerializeItem(codec, items[0]), SerializeItems(codec, items[1..]);
      ItemRoundTrip(codec, items[0], rest);
      ItemsRoundTrip(codec, items[1..]);
      ParseItemsStep(codec, first, rest, ReadBack(items[0]));
      ReadBackFirst(items);
    }
  }

  lemma EnvelopeRoundTrip<E(!new), A(!new)>(envelopes: Codec<E>, items: Codec<ItemHeaders<A>>,
                                            envelope: EnvelopeData<E, A>)
    requires Codecs(envelopes, items) && envelopes.writable(envelope.headers) && AllWritable(items, envelope.items)
    requires forall i :: 0 <= i < |envelope.items| ==> Framed(envelope.items[i])
    ensures ParseBytes(envelopes, items, Serialize(envelopes, items, envelope)) ==
              Success(EnvelopeData(envelope.headers, ReadBackAll(envelope.items)))
  {
    var rest := SerializeItems(items, envelope.items);
    var bytes := Serialize(envelopes, items, envelope);
    HeadersFound(envelopes, (h: E) => All(h), envelope.headers, rest);
    ItemsRoundTrip(items, envelope.items);
  }

  // ----- Without the last newlines ---------------------------------------------------------------

  /** How many newlines may be missing at the end of a serialized list of items. */
  predicate Omittable<A>(items: seq<Item<A>>, k: nat) {
    k <= 1 || (k == 2 && (items == [] || items[|items| - 1].payload == []))
  }

  /** The last item stands in the input also if its last newline is missing, or both if the payload is empty. */
  lemma LastIsItem<A(!new)>(codec: Codec<ItemHeaders<A>>, item: Item<A>, k: nat, bytes: Bytes)
    requires Lawful(codec, (h: ItemHeaders<A>) => Serialized(h)) && codec.writable(item.headers) && Framed(item)
    requires 1 <= k <= 2 && Omittable([item], k)
    requires bytes == if k == 1 then codec.encode(item.headers) + [NEWLINE] + item.payload else codec.encode(item.headers)
    ensures bytes != [] && IsItem(codec, bytes, ReadBack(item), |bytes|)
  {
    var h := codec.encode(item.headers);
    var rest := if k == 1 then [NEWLINE] + item.payload else [];
    assert bytes == h + rest;
    assert Writes(codec, (h: ItemHeaders<A>) => Serialized(h), item.headers, rest);
    var start := if k == 1 then |h| + 1 else |h|;
    assert bytes[start..|bytes|] == item.payload;
  }

  lemma LastItem<A(!new)>(codec: Codec<ItemHeaders<A>>, item: Item<A>, k: nat)
    requires Lawful(codec, (h: ItemHeaders<A>) => Serialized(h)) && codec.writable(item.headers) && Framed(item)
    requires 1 <= k <= 2 && Omittable([item], k)
    ensures ParseItems(codec, DropLast(SerializeItem(codec, item), k)) == Success([ReadBack(item)])
  {
    var h := codec.encode(item.headers);
    var bytes := DropLast(SerializeItem(codec, item), k);
    assert bytes == if k == 1 then h + [NEWLINE] + item.payload else h;
    LastIsItem(codec, item, k, bytes);
    ItemIsParsed(codec, bytes, ReadBack(item), |bytes|);
    assert bytes[|bytes|..] == [];
    PrependNothing([ReadBack(item)], Success([]));
  }

  /** The text without its last bytes. */
  function DropLast(bytes: Bytes, k: nat): Bytes {
    if k <= |bytes| then bytes[..|bytes| - k] else []
  }

  lemma DropLastConcat(a: Bytes, b: Bytes, k: nat)
    requires k <= |b|
    ensures DropLast(a + b, k) == a + DropLast(b, k)
  {
  }

  lemma ItemsAreLong<A>(codec: Codec<ItemHeaders<A>>, items: seq<Item<A>>)
    requires items != []
    ensures |SerializeItems(codec, items)| >= 2
  {
  }

  /** Items are all read also if the last newline is missing, or the last two if the last payload is empty. */
  lemma {:induction false} ItemsWithoutLast<A(!new)>(codec: Codec<ItemHeaders<A>>, items: seq<Item<A>>, k: nat)
    requires Lawful(codec, (h: ItemHeaders<A>) => Serialized(h)) && AllWritable(codec, items)
    requires forall i :: 0 <= i < |items| ==> Framed(items[i])
    requires items != [] && 1 <= k <= 2 && Omittable(items, k)
    ensures ParseItems(codec, DropLast(SerializeItems(codec, items), k)) == Success(ReadBackAll(items))
  {
    var first, rest := SerializeItem(codec, items[0]), SerializeItems(codec, items[1..]);
    if |items| == 1 {
      assert rest == [] && first + rest == first;
      LastItem(codec, items[0], k);
      assert ReadBackAll(items) == [ReadBack(items[0])];
    } else {
      ItemsAreLong(codec, items[1..]);
      DropLastConcat(first, rest, k);
      ItemRoundTrip(codec, items[0], DropLast(rest, k));
      ItemsWithoutLast(codec, items[1..], k);
      ParseItemsStep(codec, first, DropLast(rest, k), ReadBack(items[0]));
      ReadBackFirst(items);
    }
  }

  /** An envelope that survives serialization is also read without the last newline, and without the last two if the
      last payload is empty. */
  lemma EnvelopeWithoutLast<E(!new), A(!new)>(envelopes: Codec<E>, items: Codec<ItemHeaders<A>>,
                                              envelope: EnvelopeData<E, A>, k: nat)
    requires Codecs(envelopes, items) && envelopes.writable(envelope.headers) && AllWritable(items, envelope.items)
    requires forall i :: 0 <= i < |envelope.items| ==> Framed(envelope.items[i])
    requires k == 1 || (k == 2 && envelope.items != [] && Omittable(envelope.items, k))
    ensures ParseBytes(envelopes, items, DropLast(Serialize(envelopes, items, envelope), k)) ==
              Success(EnvelopeData(envelope.headers, ReadBackAll(envelope.items)))
  {
    var h, rest := envelopes.encode(envelope.headers), SerializeItems(items, envelope.items);
    var bytes := DropLast(Serialize(envelopes, items, envelope), k);
    if envelope.items == [] {
      assert bytes == h + [];
      assert Writes(envelopes, (h: E) => All(h), envelope.headers, []);
      assert bytes[|bytes|..] == [];
    } else {
      ItemsAreLong(items, envelope.items);
      DropLastConcat(h + [NEWLINE], rest, k);
      HeadersFound(envelopes, (h: E) => All(h), envelope.headers, DropLast(rest, k));
      ItemsWithoutLast(items, envelope.items, k);
    }
  }

  // ----- What the parser accepts -----------------------------------------------------------------

  /** The text of an item's header and its payload, as they stand in the input. */
  datatype Frame = Frame(header: Bytes, payload: Bytes) {
    function Text(): Bytes { header + [NEWLINE] + payload + [NEWLINE] }
  }

  function Texts(frames: seq<Frame>): Bytes {
    if frames == [] then [] else frames[0].Text() + Texts(frames[1..])
  }

  /** The frames of an input: headers and payloads in order, one after the other, each closed by a newline,
      of which the last one or two may be missing. */
  ghost predicate Tiles(bytes: Bytes, frames: seq<Frame>) {
    && bytes <= Texts(frames)
    && (|bytes| == |Texts(frames)|
        || (|bytes| + 1 == |Texts(frames)| && frames != [])
        || (|bytes| + 2 == |Texts(frames)| && frames != [] && frames[|frames| - 1].payload == []))
  }

  /** A parsed item takes up a frame of the input; only the last item may lack newlines. */
  lemma FrameTiles(bytes: Bytes, headersEnd: nat, end: nat) returns (frame: Frame)
    requires headersEnd <= |bytes| && Terminated(bytes, headersEnd)
    requires Min(headersEnd + 1, |bytes|) <= end <= |bytes| && Terminated(bytes, end)
    ensures frame == Frame(bytes[..headersEnd], bytes[Min(headersEnd + 1, |bytes|)..end])
    ensures if end < |bytes| then bytes[..end + 1] == frame.Text() else Tiles(bytes, [frame])
  {
    frame := Frame(bytes[..headersEnd], bytes[Min(headersEnd + 1, |bytes|)..end]);
    assert Texts([frame]) == frame.Text();
    if end < |bytes| {
      assert bytes[..end + 1] == frame.Text();
    } else if headersEnd < |bytes| {
      assert bytes + [NEWLINE] == frame.Text();
    } else {
      assert bytes + [NEWLINE, NEWLINE] == frame.Text();
    }
  }

  lemma TilesPrepend(first: Frame, bytes: Bytes, frames: seq<Frame>)
    requires Tiles(bytes, frames)
    ensures Tiles(first.Text() + bytes, [first] + frames)
  {
    assert ([first] + frames)[1..] == frames;
    assert Texts([first] + frames) == first.Text() + Texts(frames);
  }

  lemma FrameJoins(bytes: Bytes, size: nat, frame: Frame, more: seq<Frame>)
    requires if size <= |bytes| then bytes[..size] == frame.Text() else Tiles(bytes, [frame]) && more == []
    requires Tiles(bytes[Min(size, |bytes|)..], more)
    ensures Tiles(bytes, [frame] + more)
  {
    if size <= |bytes| {
      assert bytes == bytes[..size] + bytes[size..];
      TilesPrepend(frame, bytes[size..], more);
    } else {
      assert [frame] + more == [frame];
    }
  }

  /** The item is what its frame says: the header decodes from the header text, and the payload is as long
      as declared, or without a newline if no length is declared. */
  ghost predicate ReadFrom<A>(codec: Codec<ItemHeaders<A>>, item: Item<A>, frame: Frame) {
    && codec.decode(frame.header) == Decoded(item.headers, |frame.header|)
    && item.payload == frame.payload
    && Framed(item) && ReadBack(item) == item && codec.writable(item.headers)
  }

  lemma ParseItemFrame<A(!new)>(codec: Codec<ItemHeaders<A>>, bytes: Bytes, item: Item<A>, size: nat)
    returns (frame: Frame)
    requires Lawful(codec, (h: ItemHeaders<A>) => Serialized(h))
    requires ParseItem(codec, bytes) == Success((item, size))
    ensures ReadFrom(codec, item, frame)
    ensures if size <= |bytes| then bytes[..size] == frame.Text() else Tiles(bytes, [frame])
  {
    var headersEnd := codec.decode(bytes).end;
    assert Reads(codec, (h: ItemHeaders<A>) => Serialized(h), bytes);
    frame := FrameTiles(bytes, headersEnd, size - 1);
  }

  ghost predicate AllReadFrom<A>(codec: Codec<ItemHeaders<A>>, items: seq<Item<A>>, frames: seq<Frame>) {
    && |items| == |frames|
    && forall i :: 0 <= i < |items| ==> ReadFrom(codec, items[i], frames[i])
  }

  /** Whatever the parser accepts is tiled by the frames of its items: nothing is skipped or read twice. */
  lemma {:induction false} ParseItemsTiles<A(!new)>(codec: Codec<ItemHeaders<A>>, bytes: Bytes) returns (frames: seq<Frame>)
    requires Lawful(codec, (h: ItemHeaders<A>) => Serialized(h)) && ParseItems(codec, bytes).Success?
    ensures Tiles(bytes, frames) && AllReadFrom(codec, ParseItems(codec, bytes).value, frames)
    decreases |bytes|
  {
    if bytes == [] {
      frames := [];
    } else {
      var (item, size) := ParseItem(codec, bytes).value;
      var frame := ParseItemFrame(codec, bytes, item, size);
      var rest := bytes[Min(size, |bytes|)..];
      var more := ParseItemsTiles(codec, rest);
      frames := [frame] + more;
      FrameJoins(bytes, size, frame, more);
    }
  }

  /** The envelope comes back, but for the internal flag, when it is serialized and parsed. */
  ghost predicate Survives<E(!new), A(!new)>(envelopes: Codec<E>, items: Codec<ItemHeaders<A>>, envelope: EnvelopeData<E, A>) {
    ParseBytes(envelopes, items, Serialize(envelopes, items, envelope)) ==
      Success(EnvelopeData(envelope.headers, ReadBackAll(envelope.items)))
  }

  lemma WireWritable<H(!new)>(codec: Codec<H>, wire: H -> H, headers: H)
    requires Lawful(codec, wire)
    ensures codec.writable(headers) <==> codec.writable(wire(headers))
  {
  }

  /** Only items that are framed and headers that can be written are read back. */
  lemma ReadBackIsWritable<E(!new), A(!new)>(envelopes: Codec<E>, items: Codec<ItemHeaders<A>>, envelope: EnvelopeData<E, A>)
    requires Codecs(envelopes, items) && Survives(envelopes, items, envelope)
    ensures envelopes.writable(envelope.headers)
    ensures forall i :: 0 <= i < |envelope.items| ==>
              Framed(envelope.items[i]) && items.writable(envelope.items[i].headers)
  {
    var bytes := Serialize(envelopes, items, envelope);
    var parsed := ParseBytes(envelopes, items, bytes).value;
    assert Reads(envelopes, (h: E) => All(h), bytes);
    var frames := ParseItemsTiles(items, bytes[Min(ParseHeaders(envelopes, bytes).value.1, |bytes|)..]);
    forall i | 0 <= i < |envelope.items|
      ensures Framed(envelope.items[i]) && items.writable(envelope.items[i].headers)
    {
      assert ReadFrom(items, parsed.items[i], frames[i]);
      WireWritable(items, (h: ItemHeaders<A>) => Serialized(h), envelope.items[i].headers);
    }
  }

  /** Serializing an envelope and parsing it again gives back the envelope, but for the internal flag,
      if and only if its headers and those of all items can be written and every item is framed. */
  lemma RoundTripIff<E(!new), A(!new)>(envelopes: Codec<E>, items: Codec<ItemHeaders<A>>, envelope: EnvelopeData<E, A>)
    requires Codecs(envelopes, items)
    ensures Survives(envelopes, items, envelope) <==>
              && envelopes.writable(envelope.headers) && AllWritable(items, envelope.items)
              && forall i :: 0 <= i < |envelope.items| ==> Framed(envelope.items[i])
  {
    if Survives(envelopes, items, envelope) {
      ReadBackIsWritable(envelopes, items, envelope);
    } else if && envelopes.writable(envelope.headers) && AllWritable(items, envelope.items)
              && forall i :: 0 <= i < |envelope.items| ==> Framed(envelope.items[i]) {
      EnvelopeRoundTrip(envelopes, items, envelope);
    }
  }

  /** The internal flag is never read from the input. */
  lemma ParsedIsNotRateLimited<E(!new), A(!new)>(envelopes: Codec<E>, items: Codec<ItemHeaders<A>>, bytes: Bytes)
    requires Codecs(envelopes, items) && ParseBytes(envelopes, items, bytes).Success?
    ensures forall item :: item in ParseBytes(envelopes, items, bytes).value.items ==> !item.headers.rateLimited
  {
    var parsed := ParseBytes(envelopes, items, bytes).value.items;
    var frames := ParseItemsTiles(items, bytes[Min(ParseHeaders(envelopes, bytes).value.1, |bytes|)..]);
    forall i | 0 <= i < |parsed|
      ensures !parsed[i].headers.rateLimited
    {
      assert ReadFrom(items, parsed[i], frames[i]);
    }
  }

  /** Whatever the parser accepts, serializing the result and parsing it again changes nothing. */
  lemma ParseSerializeParse<E(!new), A(!new)>(envelopes: Codec<E>, items: Codec<ItemHeaders<A>>, bytes: Bytes)
    requires Codecs(envelopes, items) && ParseBytes(envelopes, items, bytes).Success?
    ensures var envelope := ParseBytes(envelopes, items, bytes).value;
            ParseBytes(envelopes, items, Serialize(envelopes, items, envelope)) == Success(envelope)
  {
    var envelope := ParseBytes(envelopes, items, bytes).value;
    var offset := ParseHeaders(envelopes, bytes).value.1;
    var frames := ParseItemsTiles(items, bytes[Min(offset, |bytes|)..]);
    assert Reads(envelopes, (h: E) => All(h), bytes);
    forall i | 0 <= i < |envelope.items|
      ensures Framed(envelope.items[i]) && ReadBack(envelope.items[i]) == envelope.items[i]
      ensures items.writable(envelope.items[i].headers)
    {
      assert ReadFrom(items, envelope.items[i], frames[i]);
    }
    EnvelopeRoundTrip(envelopes, items, envelope);
    assert ReadBackAll(envelope.items) == envelope.items;
  }

  /** The frames of a whole input: the header line, then the items, of which the last one or two newlines may be
      missing. */
  ghost predicate TilesInput(bytes: Bytes, header: Bytes, frames: seq<Frame>) {
    var full := header + [NEWLINE] + Texts(frames);
    && bytes <= full
    && (|bytes| == |full|
        || |bytes| + 1 == |full|
        || (|bytes| + 2 == |full| && frames != [] && frames[|frames| - 1].payload == []))
  }

  lemma HeaderTiles(bytes: Bytes, end: nat, frames: seq<Frame>)
    requires end <= |bytes| && Terminated(bytes, end) && Tiles(bytes[Min(end + 1, |bytes|)..], frames)
    requires end == |bytes| ==> frames == []
    ensures TilesInput(bytes, bytes[..end], frames)
  {
    if end < |bytes| {
      assert bytes == bytes[..end] + [NEWLINE] + bytes[end + 1..];
    } else {
      assert bytes[..end] + [NEWLINE] + Texts([]) == bytes + [NEWLINE];
    }
  }

  /** Whatever the parser accepts is tiled by the header line and the frames of the items. */
  lemma ParseBytesTiles<E(!new), A(!new)>(envelopes: Codec<E>, items: Codec<ItemHeaders<A>>, bytes: Bytes)
    returns (header: Bytes, frames: seq<Frame>)
    requires Codecs(envelopes, items) && ParseBytes(envelopes, items, bytes).Success?
    ensures var envelope := ParseBytes(envelopes, items, bytes).value;
            && TilesInput(bytes, header, frames)
            && envelopes.decode(header) == Decoded(envelope.headers, |header|)
            && AllReadFrom(items, envelope.items, frames)
  {
    var end := envelopes.decode(bytes).end;
    assert Reads(envelopes, (h: E) => All(h), bytes);
    header := bytes[..end];
    frames := ParseItemsTiles(items, bytes[Min(end + 1, |bytes|)..]);
    HeaderTiles(bytes, end, frames);
  }
}
