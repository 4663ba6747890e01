/** Signed frames of the public and of the sealed wire family. Signatures and
    seals are ideal: what verifies was signed, what opens was sealed. */
module Frames {
  import opened Common
  import opened Postcard
  import opened Messages

  const SEALED_WIRE_VERSION: nat := 4
  const NONCE_LEN: nat := 24

  /** An ASCII text as bytes. */
  function Ascii(s: string): (b: Bytes)
    ensures |b| == |s|
    ensures forall i :: 0 <= i < |s| && (s[i] as int) < 256 ==> b[i] == s[i] as int
  {
    if s == [] then [] else [s[0] as int % 256] + Ascii(s[1..])
  }

  /** What is signed in front of everything else, one domain per family. */
  datatype Domains = Domains(open: Bytes, legacy: Bytes, sealed: Bytes)

  function DomainText(digit: char): string {
    "iroh-drop/v" + [digit] + "/message/"
  }

  const SIGN_DOMAINS: Domains := Domains(Ascii(DomainText('3')), Ascii(DomainText('2')), Ascii(DomainText('4')))

  ghost predicate Apart(d: Domains) {
    |d.open| == |d.legacy| == |d.sealed| && d.open != d.legacy && d.open != d.sealed && d.legacy != d.sealed
  }

  /** The bytes an author signs: the domain, the drop's topic, the envelope. */
  function SigningInput(domain: Bytes, topic: Bytes, payload: Bytes): Bytes {
    domain + topic + payload
  }

  datatype Frame = Frame(author: Bytes, signature: Bytes, payload: Bytes)

  type FrameTuple = (Bytes, (Bytes, Bytes))

  function ToFrame(t: FrameTuple): Frame {
    Frame(t.0, t.1.0, t.1.1)
  }

  function FromFrame(f: Frame): FrameTuple {
    (f.author, (f.signature, f.payload))
  }

  const FrameCodec: Codec<Frame> := Via(Both(Raw(32), Both(Blob, Blob)), ToFrame, FromFrame)

  lemma {:induction false} FrameIsLawful()
    ensures Lawful(FrameCodec)
  {
    RawIsLawful(32);
    BlobIsLawful();
    BothIsLawful(Blob, Blob);
    BothIsLawful(Raw(32), Both(Blob, Blob));
    ViaIsLawful(Both(Raw(32), Both(Blob, Blob)), ToFrame, FromFrame);
  }

  lemma {:induction false} FrameLayout(f: Frame)
    ensures FrameCodec.enc(f) == f.author + (Sized(f.signature) + Sized(f.payload))
  {
    BothIs(Blob, Blob, (f.signature, f.payload));
    BothIs(Raw(32), Both(Blob, Blob), FromFrame(f));
    ViaIs(Both(Raw(32), Both(Blob, Blob)), ToFrame, FromFrame, f);
  }

  lemma {:induction false} DomainSpells(digit: char, text: string)
    requires text == "iroh-drop/v" + [digit] + "/message/" && '0' <= digit <= '9'
    ensures |Ascii(DomainText(digit))| == |text|
    ensures forall i :: 0 <= i < |text| ==> Ascii(DomainText(digit))[i] == text[i] as int
  {
    assert DomainText(digit) == text;
    assert forall i :: 0 <= i < |text| ==> (text[i] as int) < 256;
  }

  /** What is signed is the domain of the family, then the topic, then the
      envelope. */
  lemma {:induction false} SignedText(domain: Bytes, topic: Bytes, payload: Bytes)
    ensures var signed := SigningInput(domain, topic, payload);
            && |signed| == |domain| + |topic| + |payload|
            && signed[..|domain|] == domain && signed[|domain|..|domain| + |topic|] == topic
            && signed[|domain| + |topic|..] == payload
  {
    InputParts(domain, topic, payload);
  }

  // ----- Ideal cryptography -----

  /** One signature made: who signed what, and the 64 bytes that came out. */
  datatype Signing = Signing(author: Bytes, input: Bytes, signature: Bytes)

  /** What a seal was made for: key, topic, nonce, additional data, ciphertext. */
  datatype Seal = Seal(key: Bytes, topic: Bytes, nonce: Bytes, aad: Bytes, ciphertext: Bytes)

  /** The domains, the keys there are, every signature made, and what every seal closes over. */
  datatype World = World(domains: Domains, isKey: Bytes -> bool, signed: set<Signing>, sealed: map<Seal, Bytes>)

  /** No author's signature is good for two inputs, a signature is 64 bytes, a
      ciphertext is its text and a 16-byte tag. */
  ghost predicate IsIdeal(w: World) {
    && Apart(w.domains)
    && (forall x, y :: x in w.signed && y in w.signed && x.author == y.author && x.signature == y.signature ==>
        x.input == y.input)
    && (forall x :: x in w.signed ==> |x.author| == 32 && |x.signature| == 64 && w.isKey(x.author))
    && (forall x :: x in w.sealed ==> |x.nonce| == NONCE_LEN && |x.ciphertext| == |w.sealed[x]| + 16)
  }

  // ----- Verification -----

  /** A verified author, its message, and the body if this build knows it. */
  datatype Verified = Verified(author: Bytes, message: Message, body: Option<Body>)

  function VerifySigned(w: World, f: Frame, input: Bytes): Result<Verified, Error> {
    if |f.payload| > MAX_MESSAGE_SIZE then Err(TooLarge(|f.payload|))
    else if !w.isKey(f.author) then Err(InvalidAuthor)
    else if |f.signature| != 64 then Err(BadEncoding)
    else if Signing(f.author, input, f.signature) !in w.signed then Err(InvalidSignature)
    else
      match MessageCodec.dec(f.payload)
      case Malformed => Err(BadEncoding)
      case Parsed(m, _) => Ok(Verified(f.author, m, None))
  }

  function VerifyOuter(w: World, f: Frame, domain: Bytes, topic: Bytes): Result<Verified, Error> {
    VerifySigned(w, f, SigningInput(domain, topic, f.payload))
  }

  /** The oldest frames were signed without a topic. */
  function VerifyLegacy(w: World, f: Frame): Result<Verified, Error> {
    VerifySigned(w, f, w.domains.legacy + f.payload)
  }

  /** The version of a frame that verifies as something else; never accepted. */
  function OtherFamily(w: World, f: Frame, domains: seq<Bytes>, topic: Bytes): Option<nat> {
    if domains == [] then None
    else
      var other := if domains[0] == w.domains.legacy then VerifyLegacy(w, f) else VerifyOuter(w, f, domains[0], topic);
      if other.Ok? then Some(other.value.message.version) else OtherFamily(w, f, domains[1..], topic)
  }

  /** Verify in one family; a bad signature is explained by the others. */
  function VerifyIn(w: World, f: Frame, domain: Bytes, others: seq<Bytes>, topic: Bytes): Result<Verified, Error> {
    var verified := VerifyOuter(w, f, domain, topic);
    if verified == Err(InvalidSignature) && OtherFamily(w, f, others, topic).Some? then
      Err(UnsupportedVersion(OtherFamily(w, f, others, topic).value))
    else verified
  }

  /** The frame at the front of the bytes, if they are few enough. */
  function TakeFrame(bytes: Bytes): Result<Frame, Error> {
    if |bytes| > MAX_MESSAGE_SIZE then Err(TooLarge(|bytes|))
    else
      match FrameCodec.dec(bytes)
      case Malformed => Err(BadEncoding)
      case Parsed(f, _) => Ok(f)
  }

  // ----- The public family -----

  function EncodeFrame(author: Bytes, signature: Bytes, m: Message): Bytes {
    FrameCodec.enc(Frame(author, signature, MessageCodec.enc(m)))
  }

  /** The message's own checks, after its signature. */
  function Accept(v: Verified): Result<Verified, Error> {
    if v.message.version != WIRE_VERSION then Err(UnsupportedVersion(v.message.version))
    else if |v.message.body.payload| > MAX_BODY_SIZE then Err(TooLarge(|v.message.body.payload|))
    else
      match CheckedBody(v.message.body)
      case Err(error) => Err(error)
      case Ok(body) => Ok(v.(body := body))
  }

  function DecodePublic(w: World, bytes: Bytes, topic: Bytes): Result<Verified, Error> {
    match TakeFrame(bytes)
    case Err(error) => Err(error)
    case Ok(f) =>
      match VerifyIn(w, f, w.domains.open, [w.domains.legacy, w.domains.sealed], topic)
      case Err(error) => Err(error)
      case Ok(v) => Accept(v)
  }

  // ----- The sealed family -----

  function Outer(m: Message, nonce: Bytes, ciphertext: Bytes): Message {
    Message(SEALED_WIRE_VERSION, m.id, m.sentAt, Envelope(KIND_SEALED, nonce + ciphertext))
  }

  function IsSealed(v: Verified): Result<Verified, Error> {
    if v.message.version != SEALED_WIRE_VERSION then Err(UnsupportedVersion(v.message.version))
    else if v.message.body.kind != KIND_SEALED then Err(BadEncoding)
    else Ok(v)
  }

  /** A relay without the key: verified, not read. */
  function VerifySealedOuter(w: World, bytes: Bytes, topic: Bytes): Result<Verified, Error> {
    match TakeFrame(bytes)
    case Err(error) => Err(error)
    case Ok(f) =>
      match VerifyOuter(w, f, w.domains.sealed, topic)
      case Err(error) => Err(error)
      case Ok(v) =>
        match IsSealed(v)
        case Err(error) => Err(error)
        case Ok(v) =>
          if |v.message.body.payload| > MAX_BODY_SIZE then Err(TooLarge(|v.message.body.payload|)) else Ok(v)
  }

  /** Open the seal of a verified outer message and check what is inside. */
  function Unsealed(w: World, v: Verified, key: Bytes, topic: Bytes): Result<Verified, Error> {
    var sealed := v.message.body.payload;
    if |sealed| < NONCE_LEN then Err(BadSeal)
    else
      var seal := Seal(key, topic, sealed[..NONCE_LEN], v.author + v.message.id, sealed[NONCE_LEN..]);
      if seal !in w.sealed then Err(Unseal)
      else if |w.sealed[seal]| > MAX_BODY_SIZE then Err(TooLarge(|w.sealed[seal]|))
      else
        match EnvelopeCodec.dec(w.sealed[seal])
        case Malformed => Err(BadEncoding)
        case Parsed(inner, _) =>
          match CheckedBody(inner)
          case Err(error) => Err(error)
          case Ok(body) => Ok(Verified(v.author, v.message.(body := inner), body))
  }

  /** A member with the key. */
  function DecodeSealed(w: World, bytes: Bytes, key: Bytes, topic: Bytes): Result<Verified, Error> {
    match TakeFrame(bytes)
    case Err(error) => Err(error)
    case Ok(f) =>
      match VerifyIn(w, f, w.domains.sealed, [w.domains.open, w.domains.legacy], topic)
      case Err(error) => Err(error)
      case Ok(v) =>
        match IsSealed(v)
        case Err(error) => Err(error)
        case Ok(v) => Unsealed(w, v, key, topic)
  }

  // ----- What was signed cannot be taken for anything else -----

  lemma {:induction false} AsciiAt(s: string, i: nat)
    requires i < |s| && (s[i] as int) < 256
    ensures |Ascii(s)| == |s| && Ascii(s)[i] == s[i] as int
  {
  }

  lemma {:induction false} DomainAt(digit: char)
    requires (digit as int) < 256
    ensures |Ascii(DomainText(digit))| == 21 && Ascii(DomainText(digit))[11] == digit as int
  {
    assert |DomainText(digit)| == 21 && DomainText(digit)[11] == digit;
    AsciiAt(DomainText(digit), 11);
  }

  /** The three domains are equally long and differ in their version digit. */
  lemma {:induction false} DomainsAreApart()
    ensures Apart(SIGN_DOMAINS)
  {
    DomainAt('3');
    DomainAt('2');
    DomainAt('4');
  }

  /** Domain, topic and payload can be read off what was signed. */
  lemma {:induction false} SigningInputInjective(d: Bytes, t: Bytes, p: Bytes, d': Bytes, t': Bytes, p': Bytes)
    requires |d| == |d'| && |t| == |t'|
    requires SigningInput(d, t, p) == SigningInput(d', t', p')
    ensures d == d' && t == t' && p == p'
  {
    InputParts(d, t, p);
    InputParts(d', t', p');
  }

  lemma {:induction false} InputParts(d: Bytes, t: Bytes, p: Bytes)
    ensures var s := SigningInput(d, t, p); s[..|d|] == d && s[|d|..|d| + |t|] == t && s[|d| + |t|..] == p
  {
  }

  /** A frame carries a signature that was made for `input`. */
  ghost predicate IsSigned(w: World, f: Frame, input: Bytes) {
    Signing(f.author, input, f.signature) in w.signed
  }

  /** A signature is good for nothing but what was signed. */
  lemma {:induction false} OnlyWhatWasSigned(w: World, f: Frame, input: Bytes, other: Bytes)
    requires IsIdeal(w) && IsSigned(w, f, input) && |f.payload| <= MAX_MESSAGE_SIZE && other != input
    ensures VerifySigned(w, f, other) == Err(InvalidSignature)
  {
    assert Signing(f.author, input, f.signature) in w.signed;
  }

  lemma {:induction false} SignedVerifies(w: World, f: Frame, input: Bytes, m: Message)
    requires IsIdeal(w) && IsSigned(w, f, input) && |f.payload| <= MAX_MESSAGE_SIZE
    requires MessageCodec.ok(m) && f.payload == MessageCodec.enc(m)
    ensures VerifySigned(w, f, input) == Ok(Verified(f.author, m, None))
  {
    assert Signing(f.author, input, f.signature) in w.signed;
    MessageIsLawful();
    ComesBack(MessageCodec, m, []);
    assert MessageCodec.enc(m) + [] == MessageCodec.enc(m);
  }

  predicate IsDomain(w: World, d: Bytes) {
    d == w.domains.open || d == w.domains.sealed
  }

  /** Another family, another topic, or no topic: another input. */
  lemma {:induction false} OtherInputs(w: World, d: Bytes, d': Bytes, t: Bytes, t': Bytes, p: Bytes)
    requires Apart(w.domains) && IsDomain(w, d) && IsDomain(w, d') && |t| == |t'| && (d != d' || t != t')
    ensures SigningInput(d, t, p) != SigningInput(d', t', p)
    ensures SigningInput(d, t, p) != w.domains.legacy + p
  {
    InputParts(d, t, p);
    assert (w.domains.legacy + p)[..|d|] == w.domains.legacy;
    if SigningInput(d, t, p) == SigningInput(d', t', p) {
      SigningInputInjective(d, t, p, d', t', p);
    }
  }

  /** An honest frame of one family, on one topic, met by the other family: named
      for what it is on its own topic, a bad signature on any other. */
  lemma {:induction false} MetByOther(w: World, f: Frame, d: Bytes, t: Bytes, m: Message, d': Bytes, t': Bytes,
                                      others: seq<Bytes>)
    requires IsIdeal(w) && IsSigned(w, f, SigningInput(d, t, f.payload)) && |f.payload| <= MAX_MESSAGE_SIZE
    requires MessageCodec.ok(m) && f.payload == MessageCodec.enc(m)
    requires IsDomain(w, d) && IsDomain(w, d') && |t| == |t'| == 32 && (d != d' || t != t')
    requires others == [w.domains.legacy, if d' == w.domains.open then w.domains.sealed else w.domains.open] ||
             others == [if d' == w.domains.open then w.domains.sealed else w.domains.open, w.domains.legacy]
    ensures VerifyIn(w, f, d', others, t') == Err(if t == t' then UnsupportedVersion(m.version) else InvalidSignature)
  {
    var other := if d' == w.domains.open then w.domains.sealed else w.domains.open;
    var input := SigningInput(d, t, f.payload);
    OtherInputs(w, d, d', t, t', f.payload);
    OnlyWhatWasSigned(w, f, input, SigningInput(d', t', f.payload));
    OnlyWhatWasSigned(w, f, input, w.domains.legacy + f.payload);
    if t == t' {
      SignedVerifies(w, f, input, m);
    } else {
      OtherInputs(w, d, other, t, t', f.payload);
      OnlyWhatWasSigned(w, f, input, SigningInput(other, t', f.payload));
    }
    Explains(w, f, others, other, t');
  }

  lemma {:induction false} Explains(w: World, f: Frame, others: seq<Bytes>, other: Bytes, t: Bytes)
    requires others == [w.domains.legacy, other] || others == [other, w.domains.legacy]
    requires other != w.domains.legacy && VerifyLegacy(w, f).Err?
    ensures OtherFamily(w, f, others, t) ==
            if VerifyOuter(w, f, other, t).Ok? then Some(VerifyOuter(w, f, other, t).value.message.version) else None
  {
    OneOther(w, f, others[1], t);
    assert others[1..] == [others[1]];
  }

  lemma {:induction false} OneOther(w: World, f: Frame, d: Bytes, t: Bytes)
    ensures OtherFamily(w, f, [d], t) ==
            var other := if d == w.domains.legacy then VerifyLegacy(w, f) else VerifyOuter(w, f, d, t);
            if other.Ok? then Some(other.value.message.version) else None
  {
    assert [d][1..] == [];
  }

  // ----- Round trips -----

  lemma {:induction false} FrameSize(f: Frame)
    requires |f.author| == 32 && |f.signature| == 64
    ensures |FrameCodec.enc(f)| >= |f.payload|
    ensures |f.payload| <= MAX_MESSAGE_SIZE ==> FrameCodec.ok(f)
  {
    WordLimits();
    BothIs(Blob, Blob, (f.signature, f.payload));
    BothIs(Raw(32), Both(Blob, Blob), FromFrame(f));
    ViaIs(Both(Raw(32), Both(Blob, Blob)), ToFrame, FromFrame, f);
  }

  lemma {:induction false} FrameTaken(f: Frame, tail: Bytes)
    requires |f.author| == 32 && |f.signature| == 64 && |FrameCodec.enc(f) + tail| <= MAX_MESSAGE_SIZE
    ensures TakeFrame(FrameCodec.enc(f) + tail) == Ok(f) && |f.payload| <= MAX_MESSAGE_SIZE
  {
    FrameSize(f);
    FrameIsLawful();
    ComesBack(FrameCodec, f, tail);
  }

  /** Every public message that fits comes back from its frame, whatever is
      appended to the frame, if its version is the present one; its body is held
      to its bounds, and left alone if its kind is unknown. */
  lemma {:induction false} PublicRoundTrip(w: World, author: Bytes, signature: Bytes, m: Message, topic: Bytes,
                                           tail: Bytes)
    requires IsIdeal(w) && MessageCodec.ok(m)
    requires Signing(author, SigningInput(w.domains.open, topic, MessageCodec.enc(m)), signature) in w.signed
    requires |EncodeFrame(author, signature, m) + tail| <= MAX_MESSAGE_SIZE
    ensures DecodePublic(w, EncodeFrame(author, signature, m) + tail, topic) ==
            if m.version != 2 then Err(UnsupportedVersion(m.version))
            else if |m.body.payload| > 63 * 1024 then Err(TooLarge(|m.body.payload|))
            else
              match CheckedBody(m.body)
              case Err(error) => Err(error)
              case Ok(body) => Ok(Verified(author, m, body))
  {
    var f := Frame(author, signature, MessageCodec.enc(m));
    assert IsSigned(w, f, SigningInput(w.domains.open, topic, f.payload));
    FrameTaken(f, tail);
    SignedVerifies(w, f, SigningInput(w.domains.open, topic, f.payload), m);
  }

  /** A message made here comes back with its body, appended bytes and all, if
      and only if the body is within its bounds. */
  lemma {:induction false} BodyArrives(w: World, author: Bytes, signature: Bytes, m: Message, body: Body,
                                       topic: Bytes, tail: Bytes)
    requires IsIdeal(w) && MessageCodec.ok(m) && m.version == WIRE_VERSION && |m.body.payload| <= MAX_BODY_SIZE
    requires IsBody(body) && m.body == EncodeBody(body)
    requires Signing(author, SigningInput(w.domains.open, topic, MessageCodec.enc(m)), signature) in w.signed
    requires |EncodeFrame(author, signature, m) + tail| <= MAX_MESSAGE_SIZE
    ensures DecodePublic(w, EncodeFrame(author, signature, m) + tail, topic) ==
            if IsAllowed(body) then Ok(Verified(author, m, Some(body)))
            else Err(if body.OfferBody? && SpellsAllowedName(body.offer.name) then MetadataLimit else InvalidName)
  {
    PublicRoundTrip(w, author, signature, m, topic, tail);
    CheckedExactly(body);
  }

  /** A kind from the future arrives verified, its payload untouched. */
  lemma {:induction false} UnknownKindArrives(w: World, author: Bytes, signature: Bytes, m: Message, topic: Bytes,
                                              tail: Bytes)
    requires IsIdeal(w) && MessageCodec.ok(m) && m.version == WIRE_VERSION && |m.body.payload| <= MAX_BODY_SIZE
    requires m.body.kind !in {KIND_OFFER, KIND_PROVIDER, KIND_REQUEST, KIND_EXTENSION}
    requires Signing(author, SigningInput(w.domains.open, topic, MessageCodec.enc(m)), signature) in w.signed
    requires |EncodeFrame(author, signature, m) + tail| <= MAX_MESSAGE_SIZE
    ensures DecodePublic(w, EncodeFrame(author, signature, m) + tail, topic) == Ok(Verified(author, m, None))
  {
    PublicRoundTrip(w, author, signature, m, topic, tail);
  }

  /** An honest frame means nothing on another topic, in either family, and is
      named for what it is by the other family on its own. */
  lemma {:induction false} FamiliesAndTopicsAreSeparate(w: World, f: Frame, m: Message, t: Bytes, t': Bytes,
                                                        key: Bytes, tail: Bytes, sealed: bool)
    requires IsIdeal(w) && MessageCodec.ok(m) && f.payload == MessageCodec.enc(m) && |t| == |t'| == 32
    requires IsSigned(w, f, SigningInput(if sealed then w.domains.sealed else w.domains.open, t, f.payload))
    requires |FrameCodec.enc(f) + tail| <= MAX_MESSAGE_SIZE
    ensures t != t' || sealed ==>
              DecodePublic(w, FrameCodec.enc(f) + tail, t') ==
                  Err(if t == t' then UnsupportedVersion(m.version) else InvalidSignature)
    ensures t != t' || !sealed ==>
              DecodeSealed(w, FrameCodec.enc(f) + tail, key, t') ==
                  Err(if t == t' then UnsupportedVersion(m.version) else InvalidSignature)
  {
    var d := if sealed then w.domains.sealed else w.domains.open;
    assert Signing(f.author, SigningInput(d, t, f.payload), f.signature) in w.signed;
    FrameTaken(f, tail);
    if t != t' || sealed {
      MetByOther(w, f, d, t, m, w.domains.open, t', [w.domains.legacy, w.domains.sealed]);
    }
    if t != t' || !sealed {
      MetByOther(w, f, d, t, m, w.domains.sealed, t', [w.domains.open, w.domains.legacy]);
    }
  }

  /** Whatever bytes are accepted: the author they name signed the topic and the
      message in the public domain, and the message is of this version and within
      the bounds of its kind. */
  lemma {:induction false} AcceptedPublic(w: World, bytes: Bytes, topic: Bytes) returns (f: Frame)
    requires DecodePublic(w, bytes, topic).Ok?
    ensures |bytes| <= 64 * 1024 && TakeFrame(bytes) == Ok(f)
    ensures Signing(f.author, w.domains.open + topic + f.payload, f.signature) in w.signed
    ensures var v := DecodePublic(w, bytes, topic).value;
            && v.author == f.author && MessageCodec.dec(f.payload).Parsed?
            && v.message == MessageCodec.dec(f.payload).value
            && v.message.version == 2 && |v.message.body.payload| <= 63 * 1024
            && Holds(v.message.body, v.body) && (v.body.Some? ==> IsAllowed(v.body.value))
  {
    f := TakeFrame(bytes).value;
    CheckedIsAllowed(DecodePublic(w, bytes, topic).value.message.body);
  }

  /** Bytes that do not get as far as their signature, and why. */
  lemma {:induction false} RefusedUnread(w: World, bytes: Bytes, key: Bytes, topic: Bytes)
    ensures |bytes| > 64 * 1024 ==>
              DecodePublic(w, bytes, topic) == DecodeSealed(w, bytes, key, topic) == Err(TooLarge(|bytes|))
    ensures |bytes| <= 64 * 1024 && FrameCodec.dec(bytes).Malformed? ==>
              DecodePublic(w, bytes, topic) == DecodeSealed(w, bytes, key, topic) == Err(BadEncoding)
    ensures TakeFrame(bytes).Ok? && |TakeFrame(bytes).value.payload| <= 64 * 1024 ==>
              var f := TakeFrame(bytes).value;
              && (!w.isKey(f.author) ==>
                    DecodePublic(w, bytes, topic) == DecodeSealed(w, bytes, key, topic) == Err(InvalidAuthor))
              && (w.isKey(f.author) && |f.signature| != 64 ==>
                    DecodePublic(w, bytes, topic) == DecodeSealed(w, bytes, key, topic) == Err(BadEncoding))
  {
  }

  /** What opening a verified outer message takes. */
  lemma {:induction false} Opened(w: World, v: Verified, key: Bytes, topic: Bytes)
                                  returns (nonce: Bytes, ciphertext: Bytes)
    requires Unsealed(w, v, key, topic).Ok?
    ensures v.message.body.payload == nonce + ciphertext && |nonce| == 24
    ensures var seen := Unsealed(w, v, key, topic).value;
            var seal := Seal(key, topic, nonce, v.author + v.message.id, ciphertext);
            && seal in w.sealed && |w.sealed[seal]| <= 63 * 1024
            && EnvelopeCodec.dec(w.sealed[seal]).Parsed? && EnvelopeCodec.dec(w.sealed[seal]).value == seen.message.body
            && seen.author == v.author && seen.message == v.message.(body := seen.message.body)
            && CheckedBody(seen.message.body) == Ok(seen.body)
  {
    var sealed := v.message.body.payload;
    nonce, ciphertext := sealed[..NONCE_LEN], sealed[NONCE_LEN..];
    assert sealed == nonce + ciphertext;
  }

  /** The same of a sealed frame: the author signed the outer message in the
      sealed domain, and the seal was made with the key for the topic, the author
      and the id. */
  lemma {:induction false} AcceptedSealed(w: World, bytes: Bytes, key: Bytes, topic: Bytes)
                                          returns (f: Frame, nonce: Bytes, ciphertext: Bytes)
    requires DecodeSealed(w, bytes, key, topic).Ok?
    ensures |bytes| <= 64 * 1024 && TakeFrame(bytes) == Ok(f)
    ensures Signing(f.author, w.domains.sealed + topic + f.payload, f.signature) in w.signed
    ensures var v := DecodeSealed(w, bytes, key, topic).value;
            && v.author == f.author && v.message.version == 4 && |nonce| == 24
            && MessageCodec.dec(f.payload).Parsed?
            && MessageCodec.dec(f.payload).value == v.message.(body := Envelope(4, nonce + ciphertext))
            && Holds(v.message.body, v.body) && (v.body.Some? ==> IsAllowed(v.body.value))
    ensures var v := DecodeSealed(w, bytes, key, topic).value;
            var seal := Seal(key, topic, nonce, v.author + v.message.id, ciphertext);
            && seal in w.sealed && |w.sealed[seal]| <= 63 * 1024
            && EnvelopeCodec.dec(w.sealed[seal]).Parsed?
            && EnvelopeCodec.dec(w.sealed[seal]).value == v.message.body
  {
    f := SealedIsVerified(w, bytes, key, topic);
    nonce, ciphertext := Opened(w, VerifyOuter(w, f, w.domains.sealed, topic).value, key, topic);
    CheckedIsAllowed(DecodeSealed(w, bytes, key, topic).value.message.body);
  }

  lemma {:induction false} SealedIsVerified(w: World, bytes: Bytes, key: Bytes, topic: Bytes) returns (f: Frame)
    requires DecodeSealed(w, bytes, key, topic).Ok?
    ensures |bytes| <= 64 * 1024 && TakeFrame(bytes) == Ok(f)
    ensures Signing(f.author, w.domains.sealed + topic + f.payload, f.signature) in w.signed
    ensures var outer := VerifyOuter(w, f, w.domains.sealed, topic);
            && MessageCodec.dec(f.payload).Parsed?
            && outer == Ok(Verified(f.author, MessageCodec.dec(f.payload).value, None))
            && outer.value.message.version == 4 && outer.value.message.body.kind == 4
            && DecodeSealed(w, bytes, key, topic) == Unsealed(w, outer.value, key, topic)
  {
    f := TakeFrame(bytes).value;
  }

  // ----- Members and blind relays -----

  /** What sealing leaves behind: the author, its signature, the message, the key
      and topic it was sealed for, and the nonce and ciphertext that came out. */
  datatype Sealing = Sealing(author: Bytes, signature: Bytes, m: Message, key: Bytes, topic: Bytes, nonce: Bytes,
                             ciphertext: Bytes)

  function SealOf(x: Sealing): Seal {
    Seal(x.key, x.topic, x.nonce, x.author + x.m.id, x.ciphertext)
  }

  function OuterOf(x: Sealing): Message {
    Outer(x.m, x.nonce, x.ciphertext)
  }

  function SealedFrame(x: Sealing): Bytes {
    EncodeFrame(x.author, x.signature, OuterOf(x))
  }

  /** The frame was made as encoding makes it. */
  ghost predicate IsHonest(w: World, x: Sealing) {
    && IsIdeal(w) && MessageCodec.ok(OuterOf(x)) && EnvelopeCodec.ok(x.m.body)
    && |EnvelopeCodec.enc(x.m.body)| <= MAX_BODY_SIZE
    && SealOf(x) in w.sealed && w.sealed[SealOf(x)] == EnvelopeCodec.enc(x.m.body)
    && Signing(x.author, SigningInput(w.domains.sealed, x.topic, MessageCodec.enc(OuterOf(x))), x.signature) in w.signed
  }

  /** A message sealed for a topic under a key comes back to whoever has the
      key: its author, id, time and envelope, and its body held to its bounds. */
  lemma {:induction false} SealedRoundTrip(w: World, x: Sealing, tail: Bytes)
    requires IsHonest(w, x) && |SealedFrame(x) + tail| <= MAX_MESSAGE_SIZE
    ensures DecodeSealed(w, SealedFrame(x) + tail, x.key, x.topic) ==
            match CheckedBody(x.m.body)
            case Err(error) => Err(error)
            case Ok(body) => Ok(Verified(x.author, x.m.(version := SEALED_WIRE_VERSION), body))
  {
    SealedOuter(w, x, tail);
    Opens(w, x.author, x.m, x.key, x.topic, x.nonce, x.ciphertext);
  }

  /** A body sealed here arrives if and only if it is within its bounds. */
  lemma {:induction false} SealedBodyArrives(w: World, x: Sealing, body: Body, tail: Bytes)
    requires IsHonest(w, x) && |SealedFrame(x) + tail| <= MAX_MESSAGE_SIZE
    requires IsBody(body) && x.m.body == EncodeBody(body) && |x.m.body.payload| <= MAX_BODY_SIZE
    ensures DecodeSealed(w, SealedFrame(x) + tail, x.key, x.topic) ==
            if IsAllowed(body) then Ok(Verified(x.author, x.m.(version := SEALED_WIRE_VERSION), Some(body)))
            else Err(if body.OfferBody? && SpellsAllowedName(body.offer.name) then MetadataLimit else InvalidName)
  {
    SealedRoundTrip(w, x, tail);
    CheckedExactly(body);
  }

  lemma {:induction false} SealedOuter(w: World, x: Sealing, tail: Bytes)
    requires IsHonest(w, x) && |SealedFrame(x) + tail| <= MAX_MESSAGE_SIZE
    ensures TakeFrame(SealedFrame(x) + tail) == Ok(Frame(x.author, x.signature, MessageCodec.enc(OuterOf(x))))
    ensures VerifyOuter(w, Frame(x.author, x.signature, MessageCodec.enc(OuterOf(x))), w.domains.sealed, x.topic) ==
            Ok(Verified(x.author, OuterOf(x), None))
  {
    var f := Frame(x.author, x.signature, MessageCodec.enc(OuterOf(x)));
    assert IsSigned(w, f, SigningInput(w.domains.sealed, x.topic, f.payload));
    FrameTaken(f, tail);
    SignedVerifies(w, f, SigningInput(w.domains.sealed, x.topic, f.payload), OuterOf(x));
  }

  lemma {:induction false} Opens(w: World, author: Bytes, m: Message, key: Bytes, topic: Bytes, nonce: Bytes,
                                 ciphertext: Bytes)
    requires IsIdeal(w) && EnvelopeCodec.ok(m.body) && |EnvelopeCodec.enc(m.body)| <= MAX_BODY_SIZE
    requires var seal := Seal(key, topic, nonce, author + m.id, ciphertext);
             seal in w.sealed && w.sealed[seal] == EnvelopeCodec.enc(m.body)
    ensures Unsealed(w, Verified(author, Outer(m, nonce, ciphertext), None), key, topic) ==
            match CheckedBody(m.body)
            case Err(error) => Err(error)
            case Ok(body) => Ok(Verified(author, m.(version := SEALED_WIRE_VERSION), body))
  {
    assert Seal(key, topic, nonce, author + m.id, ciphertext) in w.sealed;
    assert (nonce + ciphertext)[..NONCE_LEN] == nonce && (nonce + ciphertext)[NONCE_LEN..] == ciphertext;
    EnvelopeReturns(m.body);
  }

  lemma {:induction false} EnvelopeReturns(e: Envelope)
    requires EnvelopeCodec.ok(e)
    ensures EnvelopeCodec.dec(EnvelopeCodec.enc(e)) == Parsed(e, [])
  {
    EnvelopeIsLawful();
    ComesBack(EnvelopeCodec, e, []);
    assert EnvelopeCodec.enc(e) + [] == EnvelopeCodec.enc(e);
  }

  /** A relay without the key accepts a frame a member accepts exactly if its
      sealed body is within the body limit, and then both know the frame by the
      same author and id. */
  lemma {:induction false} MemberAndRelayAgree(w: World, bytes: Bytes, key: Bytes, topic: Bytes)
    requires DecodeSealed(w, bytes, key, topic).Ok?
    ensures TakeFrame(bytes).Ok? && VerifyOuter(w, TakeFrame(bytes).value, w.domains.sealed, topic).Ok?
    ensures var member, relay := DecodeSealed(w, bytes, key, topic).value, VerifySealedOuter(w, bytes, topic);
            var outer := VerifyOuter(w, TakeFrame(bytes).value, w.domains.sealed, topic).value.message;
            && (relay.Ok? <==> |outer.body.payload| <= MAX_BODY_SIZE)
            && (relay.Ok? ==> relay.value.author == member.author && relay.value.message.id == member.message.id)
            && (relay.Ok? ==> relay.value.message.sentAt == member.message.sentAt && relay.value.body.None?)
  {
    OpeningKeeps(w, VerifyOuter(w, TakeFrame(bytes).value, w.domains.sealed, topic).value, key, topic);
  }

  /** Opening changes neither author nor id nor time. */
  lemma {:induction false} OpeningKeeps(w: World, v: Verified, key: Bytes, topic: Bytes)
    ensures var seen := Unsealed(w, v, key, topic);
            && (seen.Ok? ==> seen.value.author == v.author)
            && (seen.Ok? ==> seen.value.message == v.message.(body := seen.value.message.body))
  {
  }

  /** What members may seal and what relays carry differ: of an honest frame with
      a sound body every member accepts it, and a relay refuses it exactly if its
      envelope is within forty bytes of the limit. */
  lemma {:induction false} RelayGap(w: World, x: Sealing)
    requires IsHonest(w, x) && CheckedBody(x.m.body).Ok? && |SealedFrame(x)| <= MAX_MESSAGE_SIZE
    ensures DecodeSealed(w, SealedFrame(x), x.key, x.topic).Ok?
    ensures VerifySealedOuter(w, SealedFrame(x), x.topic).Ok? <==> |EnvelopeCodec.enc(x.m.body)| + 40 <= MAX_BODY_SIZE
  {
    assert SealedFrame(x) + [] == SealedFrame(x);
    SealedRoundTrip(w, x, []);
    SealedOuter(w, x, []);
    RelayLooks(w, x);
  }

  lemma {:induction false} RelayLooks(w: World, x: Sealing)
    requires IsHonest(w, x)
    requires TakeFrame(SealedFrame(x)) == Ok(Frame(x.author, x.signature, MessageCodec.enc(OuterOf(x))))
    requires VerifyOuter(w, Frame(x.author, x.signature, MessageCodec.enc(OuterOf(x))), w.domains.sealed, x.topic) ==
             Ok(Verified(x.author, OuterOf(x), None))
    ensures VerifySealedOuter(w, SealedFrame(x), x.topic).Ok? <==> |EnvelopeCodec.enc(x.m.body)| + 40 <= MAX_BODY_SIZE
  {
    assert SealOf(x) in w.sealed;
    assert |x.nonce + x.ciphertext| == |w.sealed[SealOf(x)]| + 40;
  }

  // ----- A frame in the gap -----

  function Blank(n: nat): (b: Bytes)
    ensures |b| == n
  {
    seq(n, _ => 0)
  }

  /** A body of a kind from the future, encoding to the body limit to the byte. */
  function LargeBody(): Envelope {
    Envelope(6, Blank(MAX_BODY_SIZE - 4))
  }

  lemma {:induction false} EnvelopeSize(e: Envelope)
    ensures |EnvelopeCodec.enc(e)| == |Varint(e.kind)| + |Varint(|e.payload|)| + |e.payload|
    ensures e.kind < 128 && |e.payload| <= MAX_MESSAGE_SIZE ==> EnvelopeCodec.ok(e)
  {
    WordLimits();
    ViaIs(Both(U16, Blob), ToEnvelope, FromEnvelope, e);
    BothIs(U16, Blob, FromEnvelope(e));
  }

  lemma {:induction false} MessageSize(m: Message)
    ensures |MessageCodec.enc(m)| == |Varint(m.version)| + |m.id| + |Varint(m.sentAt)| + |EnvelopeCodec.enc(m.body)|
    ensures m.version < 128 && |m.id| == 16 && m.sentAt < 128 && EnvelopeCodec.ok(m.body) ==> MessageCodec.ok(m)
  {
    WordLimits();
    ViaIs(Both(U16, Both(Raw(16), Both(U64, EnvelopeCodec))), ToMessage, FromMessage, m);
    BothIs(U16, Both(Raw(16), Both(U64, EnvelopeCodec)), FromMessage(m));
    BothIs(Raw(16), Both(U64, EnvelopeCodec), FromMessage(m).1);
    BothIs(U64, EnvelopeCodec, FromMessage(m).1.1);
  }

  lemma {:induction false} FrameSizeIs(f: Frame)
    ensures |FrameCodec.enc(f)| ==
            |f.author| + |Varint(|f.signature|)| + |f.signature| + |Varint(|f.payload|)| + |f.payload|
  {
    BothIs(Blob, Blob, (f.signature, f.payload));
    BothIs(Raw(32), Both(Blob, Blob), FromFrame(f));
    ViaIs(Both(Raw(32), Both(Blob, Blob)), ToFrame, FromFrame, f);
  }

  lemma {:induction false} LongVarint(n: nat)
    requires 0x4000 <= n < 0x20_0000
    ensures |Varint(n)| == 3
  {
    var m := n / 128;
    assert 128 <= m && m / 128 < 128;
    assert |Varint(m)| == 1 + |Varint(m / 128)|;
  }

  /** A world in which one message was sealed and signed, by an author of zero
      bytes, under a key of zero bytes. */
  function Gap(): Sealing {
    Sealing(Blank(32), Blank(64), Message(WIRE_VERSION, Blank(16), 0, LargeBody()), Blank(32), Blank(32),
            Blank(NONCE_LEN),
            Blank(MAX_BODY_SIZE + 16))
  }

  function WorldOf(domains: Domains, x: Sealing): World {
    World(domains, (key: Bytes) => |key| == 32,
          {Signing(x.author, SigningInput(domains.sealed, x.topic, MessageCodec.enc(OuterOf(x))), x.signature)},
          map[SealOf(x) := EnvelopeCodec.enc(x.m.body)])
  }

  lemma {:induction false} WorldIsIdeal(domains: Domains, x: Sealing)
    requires Apart(domains) && |x.author| == 32 && |x.signature| == 64 && |x.nonce| == NONCE_LEN
    requires |x.ciphertext| == |EnvelopeCodec.enc(x.m.body)| + 16
    ensures IsIdeal(WorldOf(domains, x))
  {
  }

  lemma {:induction false} GapSizes()
    ensures EnvelopeCodec.ok(LargeBody()) && |EnvelopeCodec.enc(LargeBody())| == MAX_BODY_SIZE
    ensures MessageCodec.ok(OuterOf(Gap())) && |SealedFrame(Gap())| <= MAX_MESSAGE_SIZE
  {
    EnvelopeSize(LargeBody());
    LongVarint(MAX_BODY_SIZE - 4);
    var outer := OuterOf(Gap());
    EnvelopeSize(outer.body);
    LongVarint(|outer.body.payload|);
    MessageSize(outer);
    FrameSizeIs(Frame(Gap().author, Gap().signature, MessageCodec.enc(outer)));
    LongVarint(|MessageCodec.enc(outer)|);
  }

  /** There is an honest frame that every member accepts and every relay
      refuses. */
  lemma {:induction false} GapIsReached(domains: Domains)
    requires Apart(domains)
    ensures var w, x := WorldOf(domains, Gap()), Gap();
            && IsHonest(w, x) && DecodeSealed(w, SealedFrame(x), x.key, x.topic).Ok?
            && VerifySealedOuter(w, SealedFrame(x), x.topic).Err?
  {
    GapSizes();
    WorldIsIdeal(domains, Gap());
    RelayGap(WorldOf(domains, Gap()), Gap());
  }
}
