/** Signatures with a header, and the registration of a relay with its upstream (relay-auth/src/lib.rs).
    Signatures and message authentication codes are symbolic: the library functions that make and verify
    them are parameters, times are nanoseconds since the epoch. */
module Registration {
  import opened Wrappers
  import opened ByteStrings
  import opened Texts

  datatype PublicKey = PublicKey(bytes: Bytes)

  datatype RelayId = RelayId(uuid: Bytes)

  datatype SignatureHeader = SignatureHeader(timestamp: Option<int>)

  datatype RegisterRequest = RegisterRequest(relayId: RelayId, publicKey: PublicKey, version: string)

  /** The timestamp is in seconds. */
  datatype RegisterState = RegisterState(timestamp: int, relayId: RelayId, publicKey: PublicKey, rand: string)

  datatype RegisterChallenge = RegisterChallenge(relayId: RelayId, token: string)

  datatype RegisterResponse = RegisterResponse(relayId: RelayId, token: string, version: string)

  datatype UnpackError = BadSignature | BadEncoding | BadPayload | SignatureExpired

  /** What is left to libraries: JSON, base64, Ed25519 and HMAC. The holder of a key signs with its secret
      part; `sign` is what it computes. */
  datatype Library = Library(
    encodeHeader: SignatureHeader -> Bytes,
    decodeHeader: Bytes -> Option<SignatureHeader>,
    encodeRequest: RegisterRequest -> Bytes,
    decodeRequest: Bytes -> Option<RegisterRequest>,
    encodeState: RegisterState -> Bytes,
    decodeState: Bytes -> Option<RegisterState>,
    encodeResponse: RegisterResponse -> Bytes,
    decodeResponse: Bytes -> Option<RegisterResponse>,
    encode64: Bytes -> string,
    decode64: string -> Option<Bytes>,
    isSignature: Bytes -> bool,
    sign: (PublicKey, Bytes) -> Bytes,
    verify: (PublicKey, Bytes, Bytes) -> bool,
    mac: (Bytes, string) -> Bytes)

  /** Texts read back, JSON has no raw NUL byte in it, and base64 has no separators in it. */
  ghost predicate ReadsBack(lib: Library) {
    && (forall h :: lib.decodeHeader(lib.encodeHeader(h)) == Some(h))
    && (forall b :: lib.decodeHeader(b).Some? ==> NUL !in b)
    && (forall q :: lib.decodeRequest(lib.encodeRequest(q)) == Some(q))
    && (forall s :: lib.decodeState(lib.encodeState(s)) == Some(s))
    && (forall r :: lib.decodeResponse(lib.encodeResponse(r)) == Some(r))
    && (forall b :: lib.decode64(lib.encode64(b)) == Some(b))
    && (forall b :: '.' !in lib.encode64(b) && ':' !in lib.encode64(b))
  }

  /** A signature is valid for the message it was made for, and binds its key and message. A code binds its
      secret and token. */
  ghost predicate Symbolic(lib: Library) {
    && (forall pk, m :: lib.isSignature(lib.sign(pk, m)) && lib.verify(pk, m, lib.sign(pk, m)))
    && (forall pk, m, pk', m', s :: lib.verify(pk, m, s) && lib.verify(pk', m', s) ==> pk == pk' && m == m')
    && (forall secret, t, secret', t' :: lib.mac(secret, t) == lib.mac(secret', t') ==> secret == secret' && t == t')
  }

  // ----- Signatures --------------------------------------------------------------------------------------

  const SECOND: int := 1_000_000_000

  /** The bytes that are signed. */
  function Message(lib: Library, data: Bytes, header: SignatureHeader): Bytes {
    lib.encodeHeader(header) + [NUL] + data
  }

  function SignWithHeader(lib: Library, pk: PublicKey, data: Bytes, header: SignatureHeader): string {
    lib.encode64(lib.sign(pk, Message(lib, data, header))) + "." + lib.encode64(lib.encodeHeader(header))
  }

  predicate Expired(header: SignatureHeader, maxAge: Option<int>, now: int) {
    maxAge.Some? && header.timestamp.Some? && header.timestamp.value < now - maxAge.value
  }

  function VerifyMeta(lib: Library, pk: PublicKey, data: Bytes, sig: string): Option<SignatureHeader> {
    var (first, rest) := SplitOnce(sig, '.');
    match (lib.decode64(first), rest)
    case (Some(bytes), Some(encoded)) =>
      (match lib.decode64(encoded)
       case None => None
       case Some(header) =>
         if lib.isSignature(bytes) && lib.verify(pk, header + [NUL] + data, bytes) then lib.decodeHeader(header)
         else None)
    case _ => None
  }

  /** The signature in a text. */
  function SignatureOf(lib: Library, sig: string): Option<Bytes> { lib.decode64(SplitOnce(sig, '.').0) }

  /** The bytes in front of the first NUL are the header, so two framed messages that are equal have the same
      header and data. */
  lemma FramingIsUnambiguous(h: Bytes, d: Bytes, h': Bytes, d': Bytes)
    requires NUL !in h && NUL !in h' && h + [NUL] + d == h' + [NUL] + d'
    ensures h == h' && d == d'
  {
    SplitOnceAt(h, NUL, d);
    SplitOnceAt(h', NUL, d');
  }

  /** A valid signature is one on exactly the returned header and the given data. */
  lemma VerifiedMessage(lib: Library, pk: PublicKey, data: Bytes, sig: string)
    requires ReadsBack(lib) && VerifyMeta(lib, pk, data, sig).Some?
    ensures SignatureOf(lib, sig).Some?
    ensures exists header :: NUL !in header && lib.decodeHeader(header) == VerifyMeta(lib, pk, data, sig) &&
                             lib.verify(pk, header + [NUL] + data, SignatureOf(lib, sig).value)
  {
    var header := lib.decode64(SplitOnce(sig, '.').1.value).value;
    assert NUL !in header && lib.verify(pk, header + [NUL] + data, SignatureOf(lib, sig).value);
  }

  /** The parts of a signature text are a signature and a header for which it is valid. */
  ghost predicate IsSignature(lib: Library, pk: PublicKey, data: Bytes, sig: string, header: SignatureHeader) {
    exists a: string, b: string ::
      && '.' !in a && sig == a + "." + b
      && lib.decode64(a).Some? && lib.isSignature(lib.decode64(a).value)
      && lib.decode64(b).Some? && lib.decodeHeader(lib.decode64(b).value) == Some(header)
      && lib.verify(pk, lib.decode64(b).value + [0] + data, lib.decode64(a).value)
  }

  /** A signature text is verified exactly if it consists of such parts. */
  lemma VerifyMetaIff(lib: Library, pk: PublicKey, data: Bytes, sig: string, header: SignatureHeader)
    ensures VerifyMeta(lib, pk, data, sig) == Some(header) <==> IsSignature(lib, pk, data, sig, header)
  {
    if VerifyMeta(lib, pk, data, sig) == Some(header) {
      var (a, rest) := SplitOnce(sig, '.');
      assert sig == a + "." + rest.value;
    }
    if IsSignature(lib, pk, data, sig, header) {
      var a: string, b: string :|
        && '.' !in a && sig == a + "." + b
        && lib.decode64(a).Some? && lib.isSignature(lib.decode64(a).value)
        && lib.decode64(b).Some? && lib.decodeHeader(lib.decode64(b).value) == Some(header)
        && lib.verify(pk, lib.decode64(b).value + [0] + data, lib.decode64(a).value);
      SplitOnceAt(a, '.', b);
    }
  }

  lemma SplitSigned(lib: Library, pk: PublicKey, data: Bytes, header: SignatureHeader)
    requires ReadsBack(lib)
    ensures SplitOnce(SignWithHeader(lib, pk, data, header), '.')
            == (lib.encode64(lib.sign(pk, Message(lib, data, header))), Some(lib.encode64(lib.encodeHeader(header))))
    ensures SignatureOf(lib, SignWithHeader(lib, pk, data, header)) == Some(lib.sign(pk, Message(lib, data, header)))
  {
    SplitOnceAt(lib.encode64(lib.sign(pk, Message(lib, data, header))), '.', lib.encode64(lib.encodeHeader(header)));
  }

  /** Signed data verifies, with the header it was signed with. */
  lemma SignedVerifies(lib: Library, pk: PublicKey, data: Bytes, header: SignatureHeader)
    requires ReadsBack(lib) && Symbolic(lib)
    ensures VerifyMeta(lib, pk, data, SignWithHeader(lib, pk, data, header)) == Some(header)
  {
    SplitSigned(lib, pk, data, header);
    assert lib.decode64(lib.encode64(lib.encodeHeader(header))) == Some(lib.encodeHeader(header));
  }

  // ----- Tokens ------------------------------------------------------------------------------------------

  function Token(lib: Library, state: RegisterState): string { lib.encode64(lib.encodeState(state)) }

  function SignState(lib: Library, state: RegisterState, secret: Bytes): string {
    var token := Token(lib, state);
    token + ":" + lib.encode64(lib.mac(secret, token))
  }

  /** The encoded state and the encoded code; either is empty if it is missing. */
  function SplitToken(signed: string): (string, string) {
    match SplitOnce(signed, ':')
    case (token, None) => (token, "")
    case (token, Some(code)) => (token, code)
  }

  /** The age of a token counts from the whole second it was made in. */
  predicate TokenExpired(state: RegisterState, maxAge: Option<int>, now: int) {
    maxAge.Some? && state.timestamp * SECOND + maxAge.value < now
  }

  function UnpackState(lib: Library, signed: string, secret: Bytes, maxAge: Option<int>, now: int)
    : Result<RegisterState, UnpackError>
  {
    var (token, signature) := SplitToken(signed);
    match lib.decode64(signature)
    case None => Failure(BadEncoding)
    case Some(code) =>
      if code != lib.mac(secret, token) then Failure(BadSignature) else
        match lib.decode64(token)
        case None => Failure(BadEncoding)
        case Some(json) =>
          match lib.decodeState(json)
          case None => Failure(BadPayload)
          case Some(state) => if TokenExpired(state, maxAge, now) then Failure(SignatureExpired) else Success(state)
  }

  /** The state in an own token is read back until the token expires. */
  lemma StateRoundTrip(lib: Library, state: RegisterState, secret: Bytes, maxAge: Option<int>, now: int)
    requires ReadsBack(lib)
    ensures UnpackState(lib, SignState(lib, state, secret), secret, maxAge, now) ==
              if TokenExpired(state, maxAge, now) then Failure(SignatureExpired) else Success(state)
  {
    SplitOnceAt(Token(lib, state), ':', lib.encode64(lib.mac(secret, Token(lib, state))));
    assert lib.decode64(Token(lib, state)) == Some(lib.encodeState(state));
  }

  // ----- The protocol ------------------------------------------------------------------------------------

  function UnpackRequest(lib: Library, pk: PublicKey, data: Bytes, signature: string, maxAge: Option<int>, now: int)
    : Result<RegisterRequest, UnpackError>
  {
    match VerifyMeta(lib, pk, data, signature)
    case None => Failure(BadSignature)
    case Some(header) =>
      match lib.decodeRequest(data)
      case None => Failure(BadPayload)
      case Some(request) => if Expired(header, maxAge, now) then Failure(SignatureExpired) else Success(request)
  }

  function BootstrapUnpack(lib: Library, data: Bytes, signature: string, maxAge: Option<int>, now: int)
    : Result<RegisterRequest, UnpackError>
  {
    match lib.decodeRequest(data)
    case None => Failure(BadPayload)
    case Some(request) => UnpackRequest(lib, request.publicKey, data, signature, maxAge, now)
  }

  function StateFor(request: RegisterRequest, now: int, nonce: string): RegisterState {
    RegisterState(now / SECOND, request.relayId, request.publicKey, nonce)
  }

  function IntoChallenge(lib: Library, request: RegisterRequest, secret: Bytes, now: int, nonce: string)
    : RegisterChallenge
  {
    RegisterChallenge(request.relayId, SignState(lib, StateFor(request, now, nonce), secret))
  }

  function IntoResponse(challenge: RegisterChallenge, version: string): RegisterResponse {
    RegisterResponse(challenge.relayId, challenge.token, version)
  }

  function UnpackResponse(lib: Library, data: Bytes, signature: string, secret: Bytes, maxAge: Option<int>, now: int)
    : Result<(RegisterResponse, RegisterState), UnpackError>
  {
    match lib.decodeResponse(data)
    case None => Failure(BadPayload)
    case Some(response) =>
      match UnpackState(lib, response.token, secret, maxAge, now)
      case Failure(error) => Failure(error)
      case Success(state) =>
        match VerifyMeta(lib, state.publicKey, data, signature)
        case None => Failure(BadSignature)
        case Some(header) => if Expired(header, maxAge, now) then Failure(SignatureExpired) else Success((response, state))
  }

  /** A request that its relay signed at some time is accepted until that signature expires. */
  lemma HonestRequest(lib: Library, request: RegisterRequest, header: SignatureHeader, maxAge: Option<int>, now: int)
    requires ReadsBack(lib) && Symbolic(lib)
    ensures var data := lib.encodeRequest(request);
            BootstrapUnpack(lib, data, SignWithHeader(lib, request.publicKey, data, header), maxAge, now) ==
              if Expired(header, maxAge, now) then Failure(SignatureExpired) else Success(request)
  {
    SignedVerifies(lib, request.publicKey, lib.encodeRequest(request), header);
  }

  /** A response with an own token, signed with the key in the token, is accepted until the token or the
      signature expires. The id in the response may be any: it is not compared with the one in the token. */
  lemma HonestResponse(lib: Library, response: RegisterResponse, state: RegisterState, header: SignatureHeader,
                       secret: Bytes, maxAge: Option<int>, now: int)
    requires ReadsBack(lib) && Symbolic(lib) && response.token == SignState(lib, state, secret)
    ensures var data := lib.encodeResponse(response);
            UnpackResponse(lib, data, SignWithHeader(lib, state.publicKey, data, header), secret, maxAge, now) ==
              if TokenExpired(state, maxAge, now) || Expired(header, maxAge, now) then Failure(SignatureExpired)
              else Success((response, state))
  {
    SignedVerifies(lib, state.publicKey, lib.encodeResponse(response), header);
    StateRoundTrip(lib, state, secret, maxAge, now);
  }

  /** The times of an honest run: the request is signed and received, and the challenge is made; the response
      is signed and received. */
  datatype Times = Times(requestSigned: int, requestReceived: int, challenged: int, responseSigned: int,
                         responseReceived: int)
  {
    predicate InOrder() {
      requestSigned <= requestReceived <= challenged <= responseSigned <= responseReceived
    }
  }

  /** An honest run registers the original id and key exactly if the request arrives before its signature
      expires and the response arrives before the token expires, counted from the second it was made in. */
  lemma HonestRun(lib: Library, request: RegisterRequest, secret: Bytes, nonce: string, version: string,
                  maxAge: Option<int>, at: Times)
    requires ReadsBack(lib) && Symbolic(lib) && at.InOrder()
    ensures var pk, data := request.publicKey, lib.encodeRequest(request);
            var signature := SignWithHeader(lib, pk, data, SignatureHeader(Some(at.requestSigned)));
            BootstrapUnpack(lib, data, signature, maxAge, at.requestReceived) ==
              if maxAge.Some? && at.requestReceived > at.requestSigned + maxAge.value then Failure(SignatureExpired)
              else Success(request)
    ensures var challenge := IntoChallenge(lib, request, secret, at.challenged, nonce);
            var response := IntoResponse(challenge, version);
            var pk, data := request.publicKey, lib.encodeResponse(response);
            var signature := SignWithHeader(lib, pk, data, SignatureHeader(Some(at.responseSigned)));
            var state := RegisterState(at.challenged / 1_000_000_000, request.relayId, pk, nonce);
            && response.relayId == request.relayId && response.token == challenge.token && response.version == version
            && UnpackResponse(lib, data, signature, secret, maxAge, at.responseReceived) ==
                 if maxAge.Some? && at.responseReceived > at.challenged - at.challenged % 1_000_000_000 + maxAge.value
                 then Failure(SignatureExpired) else Success((response, state))
  {
    HonestRequest(lib, request, SignatureHeader(Some(at.requestSigned)), maxAge, at.requestReceived);
    var state := StateFor(request, at.challenged, nonce);
    var response := IntoResponse(IntoChallenge(lib, request, secret, at.challenged, nonce), version);
    HonestResponse(lib, response, state, SignatureHeader(Some(at.responseSigned)), secret, maxAge, at.responseReceived);
    assert state.timestamp * SECOND == at.challenged - at.challenged % SECOND;
  }

  /** The text forms: the signature covers the header, a NUL byte and the data, and is followed by the header; a token
      is followed by the code for it. */
  lemma TextForms(lib: Library, pk: PublicKey, data: Bytes, header: SignatureHeader, state: RegisterState, secret: Bytes)
    ensures var json := lib.encodeHeader(header);
            SignWithHeader(lib, pk, data, header) == lib.encode64(lib.sign(pk, json + [0] + data)) + "." + lib.encode64(json)
    ensures var token := lib.encode64(lib.encodeState(state));
            SignState(lib, state, secret) == token + ":" + lib.encode64(lib.mac(secret, token))
  {
  }

  /** Why a token is refused, in the order of the checks. */
  lemma TokenErrors(lib: Library, signed: string, secret: Bytes, maxAge: Option<int>, now: int)
    ensures var (token, signature) := SplitToken(signed);
            var r := UnpackState(lib, signed, secret, maxAge, now);
            && (lib.decode64(signature).None? ==> r == Failure(BadEncoding))
            && (lib.decode64(signature).Some? && lib.decode64(signature).value != lib.mac(secret, token) ==>
                  r == Failure(BadSignature))
            && (lib.decode64(signature) == Some(lib.mac(secret, token)) ==>
                  && (lib.decode64(token).None? ==> r == Failure(BadEncoding))
                  && (lib.decode64(token).Some? && lib.decodeState(lib.decode64(token).value).None? ==>
                        r == Failure(BadPayload)))
  {
  }

  /** A token without a colon has an empty code. */
  lemma TokenParts(token: string, code: string)
    requires ':' !in token
    ensures SplitToken(token) == (token, "") && SplitToken(token + ":" + code) == (token, code)
  {
    SplitNothing(token, ':');
    SplitOnceAt(token, ':', code);
  }

  /** Why requests and responses are refused, in the order of the checks. */
  lemma ProtocolErrors(lib: Library, data: Bytes, signature: string, secret: Bytes, maxAge: Option<int>, now: int)
    ensures lib.decodeRequest(data).None? ==> BootstrapUnpack(lib, data, signature, maxAge, now) == Failure(BadPayload)
    ensures lib.decodeRequest(data).Some? &&
            VerifyMeta(lib, lib.decodeRequest(data).value.publicKey, data, signature).None? ==>
              BootstrapUnpack(lib, data, signature, maxAge, now) == Failure(BadSignature)
    ensures lib.decodeResponse(data).None? ==>
              UnpackResponse(lib, data, signature, secret, maxAge, now) == Failure(BadPayload)
    ensures lib.decodeResponse(data).Some? ==>
              match UnpackState(lib, lib.decodeResponse(data).value.token, secret, maxAge, now)
              case Failure(error) => UnpackResponse(lib, data, signature, secret, maxAge, now) == Failure(error)
              case Success(state) =>
                VerifyMeta(lib, state.publicKey, data, signature).None? ==>
                  UnpackResponse(lib, data, signature, secret, maxAge, now) == Failure(BadSignature)
  {
  }

  // ----- Runs --------------------------------------------------------------------------------------------

  /** A signature that the holder of a key made, and when. */
  datatype Signing = Signing(key: PublicKey, header: SignatureHeader, data: Bytes, at: int)

  /** A token that the holder of a secret issued, the data of the request, and the age it was accepted up to. */
  datatype Issue = Issue(secret: Bytes, state: RegisterState, request: Bytes, maxAge: Option<int>, at: int)

  /** A registration. */
  datatype Accepted = Accepted(secret: Bytes, data: Bytes, response: RegisterResponse, state: RegisterState,
                               maxAge: Option<int>, at: int)

  /** The holders of `honest` keys use them with `sign_with_header` only, and the holders of `secrets` use them for
      tokens only. Of other keys and secrets nothing is known: attackers may have made them. */
  datatype World = World(
    honest: set<PublicKey>,
    secrets: set<Bytes>,
    signed: set<Signing>,
    issued: set<Issue>,
    accepted: set<Accepted>,
    now: int)

  /** `Sign` is a step of a key holder. In `Request` and `Respond` an upstream, which may be an attacker's, receives
      bytes that anybody may have sent. */
  datatype Event =
    | Sign(key: PublicKey, header: SignatureHeader, data: Bytes)
    | Request(data: Bytes, signature: string, secret: Bytes, maxAge: Option<int>, nonce: string)
    | Respond(data: Bytes, signature: string, secret: Bytes, maxAge: Option<int>)
    | Tick(nanos: nat)

  function Next(lib: Library, w: World, e: Event): World {
    match e
    case Sign(key, header, data) => w.(signed := w.signed + {Signing(key, header, data, w.now)})
    case Request(data, signature, secret, maxAge, nonce) =>
      (match BootstrapUnpack(lib, data, signature, maxAge, w.now)
       case Failure(_) => w
       case Success(request) =>
         w.(issued := w.issued + {Issue(secret, StateFor(request, w.now, nonce), data, maxAge, w.now)}))
    case Respond(data, signature, secret, maxAge) =>
      (match UnpackResponse(lib, data, signature, secret, maxAge, w.now)
       case Failure(_) => w
       case Success((response, state)) =>
         w.(accepted := w.accepted + {Accepted(secret, data, response, state, maxAge, w.now)}))
    case Tick(nanos) => w.(now := w.now + nanos)
  }

  ghost predicate HolderSigned(lib: Library, w: World, pk: PublicKey, message: Bytes) {
    exists s :: s in w.signed && s.key == pk && message == Message(lib, s.data, s.header)
  }

  /** The holder of the key signed the header and data. */
  ghost predicate Signed(w: World, pk: PublicKey, header: SignatureHeader, data: Bytes) {
    exists s :: s in w.signed && s.key == pk && s.header == header && s.data == data
  }

  ghost predicate HolderIssued(lib: Library, w: World, secret: Bytes, token: string) {
    exists i :: i in w.issued && i.secret == secret && token == Token(lib, i.state)
  }

  /** Nobody but its holder makes signatures of an honest key. */
  ghost predicate SignatureUnforged(lib: Library, w: World, sig: string) {
    SignatureOf(lib, sig).Some? ==>
      forall pk, m :: pk in w.honest && lib.verify(pk, m, SignatureOf(lib, sig).value) ==> HolderSigned(lib, w, pk, m)
  }

  /** Nobody but its holder makes codes with a secret that is kept. */
  ghost predicate CodeUnforged(lib: Library, w: World, signed: string) {
    var code := lib.decode64(SplitToken(signed).1);
    code.Some? ==>
      forall secret, t :: secret in w.secrets && lib.mac(secret, t) == code.value ==> HolderIssued(lib, w, secret, t)
  }

  /** What an attacker can send. */
  ghost predicate Enabled(lib: Library, w: World, e: Event) {
    match e
    case Request(_, signature, _, _, _) => SignatureUnforged(lib, w, signature)
    case Respond(data, signature, _, _) =>
      && SignatureUnforged(lib, w, signature)
      && (lib.decodeResponse(data).Some? ==> CodeUnforged(lib, w, lib.decodeResponse(data).value.token))
    case _ => true
  }

  /** A signature text that may be around verifies with a header for some data exactly if the holder of the
      key signed that header and data. */
  lemma VerifiedIffSigned(lib: Library, w: World, pk: PublicKey, data: Bytes, header: SignatureHeader)
    requires ReadsBack(lib) && Symbolic(lib) && pk in w.honest
    ensures (exists sig :: SignatureUnforged(lib, w, sig) && VerifyMeta(lib, pk, data, sig) == Some(header))
            <==> Signed(w, pk, header, data)
  {
    forall sig | SignatureUnforged(lib, w, sig) && VerifyMeta(lib, pk, data, sig) == Some(header)
      ensures Signed(w, pk, header, data)
    {
      VerifiedIsSigned(lib, w, pk, data, sig);
    }
    if Signed(w, pk, header, data) {
      var s :| s in w.signed && s.key == pk && s.header == header && s.data == data;
      SignedIsUnforged(lib, w, s);
      SignedVerifies(lib, pk, data, header);
    }
  }

  lemma VerifiedIsSigned(lib: Library, w: World, pk: PublicKey, data: Bytes, sig: string)
    requires ReadsBack(lib) && pk in w.honest && SignatureUnforged(lib, w, sig) && VerifyMeta(lib, pk, data, sig).Some?
    ensures Signed(w, pk, VerifyMeta(lib, pk, data, sig).value, data)
  {
    VerifiedMessage(lib, pk, data, sig);
    var header :| NUL !in header && lib.decodeHeader(header) == VerifyMeta(lib, pk, data, sig) &&
                  lib.verify(pk, header + [NUL] + data, SignatureOf(lib, sig).value);
    assert HolderSigned(lib, w, pk, header + [NUL] + data);
    var s :| s in w.signed && s.key == pk && header + [NUL] + data == Message(lib, s.data, s.header);
    assert lib.decodeHeader(lib.encodeHeader(s.header)) == Some(s.header);
    FramingIsUnambiguous(header, data, lib.encodeHeader(s.header), s.data);
  }

  lemma SignedIsUnforged(lib: Library, w: World, s: Signing)
    requires ReadsBack(lib) && Symbolic(lib) && s in w.signed
    ensures SignatureUnforged(lib, w, SignWithHeader(lib, s.key, s.data, s.header))
  {
    var sig, message := SignWithHeader(lib, s.key, s.data, s.header), Message(lib, s.data, s.header);
    SplitSigned(lib, s.key, s.data, s.header);
    forall pk, m | pk in w.honest && lib.verify(pk, m, SignatureOf(lib, sig).value)
      ensures HolderSigned(lib, w, pk, m)
    {
      assert lib.verify(s.key, message, lib.sign(s.key, message));
    }
  }

  /** Only states that the holder of the secret put into a token are unpacked. */
  lemma UnpackedIsIssued(lib: Library, w: World, signed: string, secret: Bytes, maxAge: Option<int>)
    requires ReadsBack(lib) && secret in w.secrets && CodeUnforged(lib, w, signed)
    requires UnpackState(lib, signed, secret, maxAge, w.now).Success?
    ensures exists i :: i in w.issued && i.secret == secret && i.state == UnpackState(lib, signed, secret, maxAge, w.now).value
  {
    var token := SplitToken(signed).0;
    assert HolderIssued(lib, w, secret, token);
    var i :| i in w.issued && i.secret == secret && token == Token(lib, i.state);
    assert lib.decode64(token) == Some(lib.encodeState(i.state));
  }

  lemma IssuedIsUnforged(lib: Library, w: World, i: Issue)
    requires ReadsBack(lib) && Symbolic(lib) && i in w.issued
    ensures CodeUnforged(lib, w, SignState(lib, i.state, i.secret))
  {
    var token := Token(lib, i.state);
    SplitOnceAt(token, ':', lib.encode64(lib.mac(i.secret, token)));
    forall secret, t | secret in w.secrets && lib.mac(secret, t) == lib.mac(i.secret, token)
      ensures HolderIssued(lib, w, secret, t)
    {
    }
  }

  /** A code that anybody makes with a secret of their own may be around: it is no forgery. */
  lemma OwnCodeIsUnforged(lib: Library, w: World, state: RegisterState, secret: Bytes)
    requires ReadsBack(lib) && Symbolic(lib) && secret !in w.secrets
    ensures CodeUnforged(lib, w, SignState(lib, state, secret))
  {
    SplitOnceAt(Token(lib, state), ':', lib.encode64(lib.mac(secret, Token(lib, state))));
  }

  /** An honest relay can send the response to a challenge. */
  lemma HonestIsEnabled(lib: Library, w: World, i: Issue, response: RegisterResponse, header: SignatureHeader,
                        maxAge: Option<int>)
    requires ReadsBack(lib) && Symbolic(lib) && i in w.issued && response.token == SignState(lib, i.state, i.secret)
    requires Signed(w, i.state.publicKey, header, lib.encodeResponse(response))
    ensures var data := lib.encodeResponse(response);
            Enabled(lib, w, Respond(data, SignWithHeader(lib, i.state.publicKey, data, header), i.secret, maxAge))
  {
    var data := lib.encodeResponse(response);
    var s :| s in w.signed && s.key == i.state.publicKey && s.header == header && s.data == data;
    SignedIsUnforged(lib, w, s);
    IssuedIsUnforged(lib, w, i);
    assert lib.decodeResponse(data) == Some(response);
  }

  /** A token that may be around unpacks with a kept secret to a state exactly if the holder of the secret issued that
      state and it is not too old. */
  lemma UnpackedIffIssued(lib: Library, w: World, secret: Bytes, state: RegisterState, maxAge: Option<int>)
    requires ReadsBack(lib) && Symbolic(lib) && secret in w.secrets
    ensures (exists signed :: CodeUnforged(lib, w, signed) && UnpackState(lib, signed, secret, maxAge, w.now) == Success(state))
            <==> !TokenExpired(state, maxAge, w.now) && exists i :: i in w.issued && i.secret == secret && i.state == state
  {
    forall signed | CodeUnforged(lib, w, signed) && UnpackState(lib, signed, secret, maxAge, w.now) == Success(state)
      ensures exists i :: i in w.issued && i.secret == secret && i.state == state
    {
      UnpackedIsIssued(lib, w, signed, secret, maxAge);
    }
    forall i | i in w.issued && i.secret == secret && i.state == state
      ensures CodeUnforged(lib, w, SignState(lib, state, secret))
    {
      IssuedIsUnforged(lib, w, i);
    }
    StateRoundTrip(lib, state, secret, maxAge, w.now);
  }

  /** The holder of the key signed the data before, and the signature was not expired by its own header. */
  ghost predicate FreshlySigned(w: World, pk: PublicKey, data: Bytes, maxAge: Option<int>, at: int) {
    exists s :: s in w.signed && s.key == pk && s.data == data && s.at <= at && !Expired(s.header, maxAge, at)
  }

  /** A token is for the id and key of a request that the holder of the key signed, and has the second it was
      made in. */
  ghost predicate IssueInv(lib: Library, w: World, i: Issue) {
    && i.at <= w.now
    && lib.decodeRequest(i.request).Some?
    && i.state == StateFor(lib.decodeRequest(i.request).value, i.at, i.state.rand)
    && (i.state.publicKey in w.honest ==> FreshlySigned(w, i.state.publicKey, i.request, i.maxAge, i.at))
  }

  ghost predicate WasIssued(w: World, a: Accepted) {
    exists i :: i in w.issued && i.secret == a.secret && i.state == a.state && i.at <= a.at
  }

  /** A registration goes back to a token of the holder of the secret that is not too old, and to a response
      that the holder of the key in the token signed. */
  ghost predicate AcceptedInv(lib: Library, w: World, a: Accepted) {
    && (a.secret in w.secrets ==> WasIssued(w, a))
    && lib.decodeResponse(a.data) == Some(a.response)
    && !TokenExpired(a.state, a.maxAge, a.at)
    && (a.state.publicKey in w.honest ==> FreshlySigned(w, a.state.publicKey, a.data, a.maxAge, a.at))
  }

  ghost predicate Inv(lib: Library, w: World) {
    && (forall s :: s in w.signed ==> s.at <= w.now)
    && (forall i :: i in w.issued ==> IssueInv(lib, w, i))
    && (forall a :: a in w.accepted ==> AcceptedInv(lib, w, a))
  }

  lemma RequestIsSigned(lib: Library, w: World, data: Bytes, signature: string, maxAge: Option<int>)
    requires ReadsBack(lib) && Inv(lib, w) && SignatureUnforged(lib, w, signature)
    requires BootstrapUnpack(lib, data, signature, maxAge, w.now).Success?
    ensures lib.decodeRequest(data) == Some(BootstrapUnpack(lib, data, signature, maxAge, w.now).value)
    ensures var pk := lib.decodeRequest(data).value.publicKey; pk in w.honest ==> FreshlySigned(w, pk, data, maxAge, w.now)
  {
    var pk := lib.decodeRequest(data).value.publicKey;
    if pk in w.honest {
      VerifiedIsSigned(lib, w, pk, data, signature);
    }
  }

  lemma ResponseIsSigned(lib: Library, w: World, data: Bytes, signature: string, secret: Bytes, maxAge: Option<int>)
    requires ReadsBack(lib) && Inv(lib, w) && SignatureUnforged(lib, w, signature)
    requires UnpackResponse(lib, data, signature, secret, maxAge, w.now).Success?
    ensures var (_, state) := UnpackResponse(lib, data, signature, secret, maxAge, w.now).value;
            state.publicKey in w.honest ==> FreshlySigned(w, state.publicKey, data, maxAge, w.now)
  {
    var (_, state) := UnpackResponse(lib, data, signature, secret, maxAge, w.now).value;
    if state.publicKey in w.honest {
      VerifiedIsSigned(lib, w, state.publicKey, data, signature);
    }
  }

  /** A registration that is new in a step. */
  lemma NewAccepted(lib: Library, w: World, data: Bytes, signature: string, secret: Bytes, maxAge: Option<int>)
    requires ReadsBack(lib) && Inv(lib, w) && Enabled(lib, w, Respond(data, signature, secret, maxAge))
    requires UnpackResponse(lib, data, signature, secret, maxAge, w.now).Success?
    ensures var (response, state) := UnpackResponse(lib, data, signature, secret, maxAge, w.now).value;
            AcceptedInv(lib, w, Accepted(secret, data, response, state, maxAge, w.now))
  {
    ResponseIsSigned(lib, w, data, signature, secret, maxAge);
    var token := lib.decodeResponse(data).value.token;
    if secret in w.secrets {
      UnpackedIsIssued(lib, w, token, secret, maxAge);
      var i :| i in w.issued && i.secret == secret && i.state == UnpackState(lib, token, secret, maxAge, w.now).value;
      assert IssueInv(lib, w, i);
    }
  }

  /** The invariants survive when more is signed and issued. */
  lemma Later(lib: Library, w: World, w': World)
    requires Inv(lib, w) && w.honest == w'.honest && w.secrets == w'.secrets
    requires w.signed <= w'.signed && w.issued <= w'.issued && w.now <= w'.now
    ensures forall i :: i in w.issued ==> IssueInv(lib, w', i)
    ensures forall a :: a in w.accepted ==> AcceptedInv(lib, w', a)
  {
    forall i | i in w.issued
      ensures IssueInv(lib, w', i)
    {
      assert IssueInv(lib, w, i);
    }
    forall a | a in w.accepted
      ensures AcceptedInv(lib, w', a)
    {
      assert AcceptedInv(lib, w, a);
    }
  }

  lemma NextKeepsInv(lib: Library, w: World, e: Event)
    requires ReadsBack(lib) && Inv(lib, w) && Enabled(lib, w, e)
    ensures Inv(lib, Next(lib, w, e))
  {
    Later(lib, w, Next(lib, w, e));
    match e
    case Request(data, signature, secret, maxAge, nonce) =>
      if BootstrapUnpack(lib, data, signature, maxAge, w.now).Success? {
        RequestIsSigned(lib, w, data, signature, maxAge);
      }
    case Respond(data, signature, secret, maxAge) =>
      if UnpackResponse(lib, data, signature, secret, maxAge, w.now).Success? {
        NewAccepted(lib, w, data, signature, secret, maxAge);
      }
    case _ =>
  }

  ghost predicate ValidRun(lib: Library, w: World, events: seq<Event>) {
    var n := |events| - 1;
    events == [] || (ValidRun(lib, w, events[..n]) && Enabled(lib, RunWorld(lib, w, events[..n]), events[n]))
  }

  /** The world after the given events. */
  function RunWorld(lib: Library, w: World, events: seq<Event>): World {
    var n := |events| - 1;
    if events == [] then w else Next(lib, RunWorld(lib, w, events[..n]), events[n])
  }

  /** Nothing has happened yet. */
  predicate Initial(w: World) { w.signed == {} && w.issued == {} && w.accepted == {} }

  lemma {:induction false} RunKeepsInv(lib: Library, w: World, events: seq<Event>)
    requires ReadsBack(lib) && Initial(w) && ValidRun(lib, w, events)
    ensures Inv(lib, RunWorld(lib, w, events))
    ensures RunWorld(lib, w, events).honest == w.honest && RunWorld(lib, w, events).secrets == w.secrets
  {
    if events != [] {
      var n := |events| - 1;
      RunKeepsInv(lib, w, events[..n]);
      NextKeepsInv(lib, RunWorld(lib, w, events[..n]), events[n]);
    }
  }

  /** The token of the registration was issued, with the same secret, for a request with the registered id and key, no
      longer ago than the registration allows. If the key is honest, its holder signed that request and the response
      before they were received, and neither signature was expired by its own header. */
  ghost predicate Authentic(lib: Library, w: World, a: Accepted, i: Issue) {
    && i in w.issued && i.secret == a.secret && i.state == a.state
    && lib.decodeRequest(i.request).Some?
    && lib.decodeRequest(i.request).value.relayId == a.state.relayId
    && lib.decodeRequest(i.request).value.publicKey == a.state.publicKey
    && i.at <= a.at && (a.maxAge.Some? ==> a.at <= i.at + a.maxAge.value)
    && (a.state.publicKey in w.honest ==>
          && FreshlySigned(w, a.state.publicKey, i.request, i.maxAge, i.at)
          && FreshlySigned(w, a.state.publicKey, a.data, a.maxAge, a.at))
  }

  /** In every run, whatever anybody sends to anybody, including codes and signatures made with secrets and keys of
      their own, every registration with a kept secret is authentic. */
  lemma RegisteredIsAuthentic(lib: Library, w: World, events: seq<Event>, a: Accepted)
    requires ReadsBack(lib) && Initial(w) && ValidRun(lib, w, events)
    requires a in RunWorld(lib, w, events).accepted && a.secret in w.secrets
    ensures exists i :: Authentic(lib, RunWorld(lib, w, events), a, i)
  {
    var w' := RunWorld(lib, w, events);
    RunKeepsInv(lib, w, events);
    assert AcceptedInv(lib, w', a);
    var i :| i in w'.issued && i.secret == a.secret && i.state == a.state && i.at <= a.at;
    assert IssueInv(lib, w', i);
    assert Authentic(lib, w', a, i);
  }

  /** The holder of the key signs with `sign`, which puts the current time into the header. */
  ghost predicate SignsWithTime(w: World, pk: PublicKey) {
    forall s :: s in w.signed && s.key == pk ==> s.header == SignatureHeader(Some(s.at))
  }

  /** The holder of the key signed the data no longer ago than the maximum age. */
  ghost predicate SignedRecently(w: World, pk: PublicKey, data: Bytes, maxAge: int, at: int) {
    exists s :: s in w.signed && s.key == pk && s.data == data && at - maxAge <= s.at <= at
  }

  lemma FreshIsRecent(w: World, pk: PublicKey, data: Bytes, maxAge: int, at: int)
    requires SignsWithTime(w, pk) && FreshlySigned(w, pk, data, Some(maxAge), at)
    ensures SignedRecently(w, pk, data, maxAge, at)
  {
    var s :| s in w.signed && s.key == pk && s.data == data && s.at <= at && !Expired(s.header, Some(maxAge), at);
    assert s.header == SignatureHeader(Some(s.at));
  }

  /** If the holder of the honest key always puts the current time into the header, both request and response were
      really signed no longer before they were received than their maximum ages. */
  lemma RegisteredIsRecent(lib: Library, w: World, events: seq<Event>, a: Accepted)
    requires ReadsBack(lib) && Initial(w) && ValidRun(lib, w, events)
    requires a in RunWorld(lib, w, events).accepted && a.secret in w.secrets
    requires a.state.publicKey in w.honest && SignsWithTime(RunWorld(lib, w, events), a.state.publicKey)
    ensures var w', pk := RunWorld(lib, w, events), a.state.publicKey;
            && (a.maxAge.Some? ==> SignedRecently(w', pk, a.data, a.maxAge.value, a.at))
            && exists i :: Authentic(lib, w', a, i) &&
                           (i.maxAge.Some? ==> SignedRecently(w', pk, i.request, i.maxAge.value, i.at))
  {
    var w', pk := RunWorld(lib, w, events), a.state.publicKey;
    RunKeepsInv(lib, w, events);
    RegisteredIsAuthentic(lib, w, events, a);
    var i :| Authentic(lib, w', a, i);
    if a.maxAge.Some? {
      FreshIsRecent(w', pk, a.data, a.maxAge.value, a.at);
    }
    if i.maxAge.Some? {
      FreshIsRecent(w', pk, i.request, i.maxAge.value, i.at);
    }
  }

  /** Otherwise this need not be so: a signature without a time in its header never expires. */
  lemma UntimedNeverExpires(lib: Library, request: RegisterRequest, maxAge: Option<int>, now: int)
    requires ReadsBack(lib) && Symbolic(lib)
    ensures var data := lib.encodeRequest(request);
            BootstrapUnpack(lib, data, SignWithHeader(lib, request.publicKey, data, SignatureHeader(None)), maxAge, now) ==
              Success(request)
  {
    HonestRequest(lib, request, SignatureHeader(None), maxAge, now);
  }
}
