/** Message envelopes and bodies: encoding, decoding and the bounds checked on
    what was decoded. */
module Messages {
  import opened Common
  import opened Postcard
  import TextMap
  import opened Unicode

  const KIND_OFFER: nat := 1
  const KIND_PROVIDER: nat := 2
  const KIND_REQUEST: nat := 3
  const KIND_SEALED: nat := 4
  const KIND_EXTENSION: nat := 5
  const MAX_BODY_SIZE: nat := MAX_MESSAGE_SIZE - 1024
  const MAX_NAME_LEN: nat := 255
  const MAX_METADATA_ENTRIES: nat := 16
  const MAX_METADATA_KEY_LEN: nat := 64
  const MAX_METADATA_VALUE_LEN: nat := 512

  datatype Offer = Offer(blobHash: Bytes, name: Bytes, size: nat, mediaType: Option<Bytes>, createdAt: Option<nat>,
                         metadata: TextMap.Entries)

  /** Variant 0 is available, 1 withdrawing. */
  datatype Provider = Provider(blobHash: Bytes, state: nat, announcedAt: Option<nat>)

  datatype Extension = Extension(namespace: Bytes, localKind: nat, schemaVersion: nat, payload: Bytes)

  datatype Body =
    | OfferBody(offer: Offer)
    | ProviderBody(provider: Provider)
    | RequestBody(blobHash: Bytes)
    | ExtensionBody(extension: Extension)

  /** A kind tag and the bytes of a body of that kind. */
  datatype Envelope = Envelope(kind: nat, payload: Bytes)

  datatype Message = Message(version: nat, id: Bytes, sentAt: nat, body: Envelope)

  datatype Error =
    | TooLarge(size: nat)
    | BadEncoding
    | InvalidAuthor
    | InvalidSignature
    | UnsupportedVersion(version: nat)
    | InvalidName
    | MetadataLimit
    | BadSeal
    | Unseal

  // ----- The wire forms -----

  type OfferTuple = (Bytes, (Bytes, (nat, (Option<Bytes>, (Option<nat>, TextMap.Entries)))))

  function ToOffer(t: OfferTuple): Offer {
    Offer(t.0, t.1.0, t.1.1.0, t.1.1.1.0, t.1.1.1.1.0, t.1.1.1.1.1)
  }

  function FromOffer(o: Offer): OfferTuple {
    (o.blobHash, (o.name, (o.size, (o.mediaType, (o.createdAt, o.metadata)))))
  }

  function ToProvider(t: (Bytes, (nat, Option<nat>))): Provider {
    Provider(t.0, t.1.0, t.1.1)
  }

  function FromProvider(p: Provider): (Bytes, (nat, Option<nat>)) {
    (p.blobHash, (p.state, p.announcedAt))
  }

  function ToExtension(t: (Bytes, (nat, (nat, Bytes)))): Extension {
    Extension(t.0, t.1.0, t.1.1.0, t.1.1.1)
  }

  function FromExtension(x: Extension): (Bytes, (nat, (nat, Bytes))) {
    (x.namespace, (x.localKind, (x.schemaVersion, x.payload)))
  }

  function ToEnvelope(t: (nat, Bytes)): Envelope {
    Envelope(t.0, t.1)
  }

  function FromEnvelope(e: Envelope): (nat, Bytes) {
    (e.kind, e.payload)
  }

  function ToMessage(t: (nat, (Bytes, (nat, Envelope)))): Message {
    Message(t.0, t.1.0, t.1.1.0, t.1.1.1)
  }

  function FromMessage(m: Message): (nat, (Bytes, (nat, Envelope))) {
    (m.version, (m.id, (m.sentAt, m.body)))
  }

  predicate IsState(v: nat) {
    v < 2
  }

  const StateCodec: Codec<nat> := Where(U32, IsState)
  const OfferCodec: Codec<Offer> :=
    Via(Both(Raw(32), Both(Text, Both(U64, Both(Opt(Text), Both(Opt(U64), TextMap.Texts))))), ToOffer, FromOffer)
  const ProviderCodec: Codec<Provider> := Via(Both(Raw(32), Both(StateCodec, Opt(U64))), ToProvider, FromProvider)
  const ExtensionCodec: Codec<Extension> := Via(Both(Raw(16), Both(U32, Both(U16, Blob))), ToExtension, FromExtension)
  const EnvelopeCodec: Codec<Envelope> := Via(Both(U16, Blob), ToEnvelope, FromEnvelope)
  const MessageCodec: Codec<Message> := Via(Both(U16, Both(Raw(16), Both(U64, EnvelopeCodec))), ToMessage, FromMessage)

  lemma {:induction false} OfferIsLawful()
    ensures Lawful(OfferCodec)
  {
    RawIsLawful(32);
    TextIsLawful();
    UIntIsLawful(10, 1);
    OptIsLawful(Text);
    OptIsLawful(U64);
    TextMap.TextsAreLawful();
    BothIsLawful(Opt(U64), TextMap.Texts);
    BothIsLawful(Opt(Text), Both(Opt(U64), TextMap.Texts));
    BothIsLawful(U64, Both(Opt(Text), Both(Opt(U64), TextMap.Texts)));
    BothIsLawful(Text, Both(U64, Both(Opt(Text), Both(Opt(U64), TextMap.Texts))));
    BothIsLawful(Raw(32), Both(Text, Both(U64, Both(Opt(Text), Both(Opt(U64), TextMap.Texts)))));
    ViaIsLawful(Both(Raw(32), Both(Text, Both(U64, Both(Opt(Text), Both(Opt(U64), TextMap.Texts))))), ToOffer,
        FromOffer);
  }

  lemma {:induction false} ProviderIsLawful()
    ensures Lawful(ProviderCodec)
  {
    RawIsLawful(32);
    UIntIsLawful(5, 15);
    UIntIsLawful(10, 1);
    WhereIsLawful(U32, IsState);
    OptIsLawful(U64);
    BothIsLawful(StateCodec, Opt(U64));
    BothIsLawful(Raw(32), Both(StateCodec, Opt(U64)));
    ViaIsLawful(Both(Raw(32), Both(StateCodec, Opt(U64))), ToProvider, FromProvider);
  }

  lemma {:induction false} ExtensionIsLawful()
    ensures Lawful(ExtensionCodec)
  {
    RawIsLawful(16);
    UIntIsLawful(5, 15);
    UIntIsLawful(3, 3);
    BlobIsLawful();
    BothIsLawful(U16, Blob);
    BothIsLawful(U32, Both(U16, Blob));
    BothIsLawful(Raw(16), Both(U32, Both(U16, Blob)));
    ViaIsLawful(Both(Raw(16), Both(U32, Both(U16, Blob))), ToExtension, FromExtension);
  }

  lemma {:induction false} EnvelopeIsLawful()
    ensures Lawful(EnvelopeCodec)
  {
    UIntIsLawful(3, 3);
    BlobIsLawful();
    BothIsLawful(U16, Blob);
    ViaIsLawful(Both(U16, Blob), ToEnvelope, FromEnvelope);
  }

  lemma {:induction false} MessageIsLawful()
    ensures Lawful(MessageCodec)
  {
    EnvelopeIsLawful();
    UIntIsLawful(3, 3);
    UIntIsLawful(10, 1);
    RawIsLawful(16);
    BothIsLawful(U64, EnvelopeCodec);
    BothIsLawful(Raw(16), Both(U64, EnvelopeCodec));
    BothIsLawful(U16, Both(Raw(16), Both(U64, EnvelopeCodec)));
    ViaIsLawful(Both(U16, Both(Raw(16), Both(U64, EnvelopeCodec))), ToMessage, FromMessage);
  }

  // ----- The layouts, field by field -----

  /** Bytes with their length in front. */
  function Sized(b: Bytes): Bytes {
    Varint(|b|) + b
  }

  lemma {:induction false} MetadataLayout(m: TextMap.Entries)
    ensures TextMap.Texts.enc(m) == Varint(|m|) + EncodeAll(TextMap.Pair, m)
  {
    assert Many(TextMap.Pair).enc(m) == Varint(|m|) + EncodeAll(TextMap.Pair, m);
  }

  /** An option: 0, or 1 and the value. */
  lemma {:induction false} OptionalText(o: Option<Bytes>)
    ensures Opt(Text).enc(o) == if o.None? then [0] else [1] + Sized(o.value)
  {
  }

  lemma {:induction false} OptionalWord(o: Option<nat>)
    ensures Opt(U64).enc(o) == if o.None? then [0] else [1] + Varint(o.value)
  {
  }

  /** The hash, the name, the size, the media type, the time and the metadata. */
  lemma {:induction false} OfferLayout(o: Offer)
    ensures OfferCodec.enc(o) ==
            o.blobHash + (Sized(o.name) + (Varint(o.size) + (Opt(Text).enc(o.mediaType) +
                (Opt(U64).enc(o.createdAt) + TextMap.Texts.enc(o.metadata)))))
  {
    var t := FromOffer(o);
    ViaIs(Both(Raw(32), Both(Text, Both(U64, Both(Opt(Text), Both(Opt(U64), TextMap.Texts))))), ToOffer, FromOffer, o);
    BothIs(Raw(32), Both(Text, Both(U64, Both(Opt(Text), Both(Opt(U64), TextMap.Texts)))), t);
    BothIs(Text, Both(U64, Both(Opt(Text), Both(Opt(U64), TextMap.Texts))), t.1);
    BothIs(U64, Both(Opt(Text), Both(Opt(U64), TextMap.Texts)), t.1.1);
    BothIs(Opt(Text), Both(Opt(U64), TextMap.Texts), t.1.1.1);
    BothIs(Opt(U64), TextMap.Texts, t.1.1.1.1);
  }

  lemma {:induction false} PairLayout(e: TextMap.Entry)
    ensures TextMap.Pair.enc(e) == Sized(e.0) + Sized(e.1)
  {
    BothIs(Text, Text, e);
  }

  /** A provider says 0 if it has the blob, 1 if it withdraws. */
  lemma {:induction false} ProviderLayout(p: Provider)
    ensures ProviderCodec.enc(p) ==
            p.blobHash + (Varint(p.state) + (if p.announcedAt.None? then [0] else [1] + Varint(p.announcedAt.value)))
  {
    ViaIs(Both(Raw(32), Both(StateCodec, Opt(U64))), ToProvider, FromProvider, p);
    BothIs(Raw(32), Both(StateCodec, Opt(U64)), FromProvider(p));
    BothIs(StateCodec, Opt(U64), FromProvider(p).1);
  }

  lemma {:induction false} ExtensionLayout(x: Extension)
    ensures ExtensionCodec.enc(x) ==
            x.namespace + (Varint(x.localKind) + (Varint(x.schemaVersion) + Sized(x.payload)))
  {
    var t := FromExtension(x);
    ViaIs(Both(Raw(16), Both(U32, Both(U16, Blob))), ToExtension, FromExtension, x);
    BothIs(Raw(16), Both(U32, Both(U16, Blob)), t);
    BothIs(U32, Both(U16, Blob), t.1);
    BothIs(U16, Blob, t.1.1);
  }

  /** The kind of a body in front of it: 1 for an offer, 2 for a provider, 3 for a
      request, 5 for an extension. */
  lemma {:induction false} BodyLayout(body: Body)
    ensures EncodeBody(body) ==
            match body
            case OfferBody(offer) => Envelope(1, OfferCodec.enc(offer))
            case ProviderBody(provider) => Envelope(2, ProviderCodec.enc(provider))
            case RequestBody(hash) => Envelope(3, hash)
            case ExtensionBody(x) => Envelope(5, ExtensionCodec.enc(x))
  {
  }

  lemma {:induction false} MessageLayout(m: Message)
    ensures MessageCodec.enc(m) ==
            Varint(m.version) + (m.id + (Varint(m.sentAt) + (Varint(m.body.kind) + Sized(m.body.payload))))
  {
    ViaIs(Both(U16, Both(Raw(16), Both(U64, EnvelopeCodec))), ToMessage, FromMessage, m);
    BothIs(U16, Both(Raw(16), Both(U64, EnvelopeCodec)), FromMessage(m));
    BothIs(Raw(16), Both(U64, EnvelopeCodec), FromMessage(m).1);
    BothIs(U64, EnvelopeCodec, FromMessage(m).1.1);
    ViaIs(Both(U16, Blob), ToEnvelope, FromEnvelope, m.body);
    BothIs(U16, Blob, FromEnvelope(m.body));
  }

  // ----- What can be encoded -----

  lemma {:induction false} OptionsOk(t: Option<Bytes>, n: Option<nat>)
    ensures Opt(Text).ok(t) <==> (t.Some? ==> IsUtf8(t.value) && |t.value| <= 0xFFFF_FFFF_FFFF_FFFF)
    ensures Opt(U64).ok(n) <==> (n.Some? ==> n.value <= 0xFFFF_FFFF_FFFF_FFFF)
  {
    if t.Some? {
      TextOk(t.value);
    }
    if n.Some? {
      WordsOk(n.value);
    }
  }

  /** Every offer with a 32-byte hash, words that fit, names and types that are
      texts, and metadata in order. */
  lemma {:induction false} OfferOk(o: Offer)
    ensures OfferCodec.ok(o) <==>
            && |o.blobHash| == 32 && Text.ok(o.name) && o.size <= 0xFFFF_FFFF_FFFF_FFFF
            && (o.mediaType.Some? ==> IsUtf8(o.mediaType.value) && |o.mediaType.value| <= 0xFFFF_FFFF_FFFF_FFFF)
            && (o.createdAt.Some? ==> o.createdAt.value <= 0xFFFF_FFFF_FFFF_FFFF) && TextMap.Texts.ok(o.metadata)
  {
    var t := FromOffer(o);
    ViaIs(Both(Raw(32), Both(Text, Both(U64, Both(Opt(Text), Both(Opt(U64), TextMap.Texts))))), ToOffer, FromOffer, o);
    BothIs(Raw(32), Both(Text, Both(U64, Both(Opt(Text), Both(Opt(U64), TextMap.Texts)))), t);
    BothIs(Text, Both(U64, Both(Opt(Text), Both(Opt(U64), TextMap.Texts))), t.1);
    BothIs(U64, Both(Opt(Text), Both(Opt(U64), TextMap.Texts)), t.1.1);
    BothIs(Opt(Text), Both(Opt(U64), TextMap.Texts), t.1.1.1);
    BothIs(Opt(U64), TextMap.Texts, t.1.1.1.1);
    WordsOk(o.size);
    OptionsOk(o.mediaType, o.createdAt);
  }

  /** Metadata in ascending order, its keys and values texts. */
  lemma {:induction false} MetadataOk(m: TextMap.Entries)
    ensures TextMap.Texts.ok(m) <==>
            |m| <= 0xFFFF_FFFF_FFFF_FFFF && AllOk(TextMap.Pair, m) && TextMap.Ascends(m)
  {
    WordLimits();
    assert Many(TextMap.Pair).ok(m) <==> |m| < Limit(10, 1) && AllOk(TextMap.Pair, m);
  }

  /** Every claim about a 32-byte hash, in state 0 or 1. */
  lemma {:induction false} ProviderOk(p: Provider)
    ensures ProviderCodec.ok(p) <==>
            && |p.blobHash| == 32 && (p.state == 0 || p.state == 1)
            && (p.announcedAt.Some? ==> p.announcedAt.value <= 0xFFFF_FFFF_FFFF_FFFF)
  {
    ViaIs(Both(Raw(32), Both(StateCodec, Opt(U64))), ToProvider, FromProvider, p);
    BothIs(Raw(32), Both(StateCodec, Opt(U64)), FromProvider(p));
    BothIs(StateCodec, Opt(U64), FromProvider(p).1);
    WordsOk(p.state);
    OptionsOk(None, p.announcedAt);
  }

  lemma {:induction false} ExtensionOk(x: Extension)
    ensures ExtensionCodec.ok(x) <==>
            && |x.namespace| == 16 && x.localKind <= 0xFFFF_FFFF && x.schemaVersion <= 0xFFFF
            && |x.payload| <= 0xFFFF_FFFF_FFFF_FFFF
  {
    var t := FromExtension(x);
    ViaIs(Both(Raw(16), Both(U32, Both(U16, Blob))), ToExtension, FromExtension, x);
    BothIs(Raw(16), Both(U32, Both(U16, Blob)), t);
    BothIs(U32, Both(U16, Blob), t.1);
    BothIs(U16, Blob, t.1.1);
    WordsOk(x.localKind);
    WordsOk(x.schemaVersion);
    TextOk(x.payload);
  }

  lemma {:induction false} MessageOk(m: Message)
    ensures MessageCodec.ok(m) <==>
            && m.version <= 0xFFFF && |m.id| == 16 && m.sentAt <= 0xFFFF_FFFF_FFFF_FFFF
            && m.body.kind <= 0xFFFF && |m.body.payload| <= 0xFFFF_FFFF_FFFF_FFFF
  {
    ViaIs(Both(U16, Both(Raw(16), Both(U64, EnvelopeCodec))), ToMessage, FromMessage, m);
    BothIs(U16, Both(Raw(16), Both(U64, EnvelopeCodec)), FromMessage(m));
    BothIs(Raw(16), Both(U64, EnvelopeCodec), FromMessage(m).1);
    BothIs(U64, EnvelopeCodec, FromMessage(m).1.1);
    ViaIs(Both(U16, Blob), ToEnvelope, FromEnvelope, m.body);
    BothIs(U16, Blob, FromEnvelope(m.body));
    WordsOk(m.version);
    WordsOk(m.sentAt);
    WordsOk(m.body.kind);
    TextOk(m.body.payload);
  }

  // ----- Validation -----

  /** C0 and C1 control characters and delete, as they are encoded. */
  predicate HasControl(name: Bytes) {
    exists i :: 0 <= i < |name| &&
      (name[i] < 0x20 || name[i] == 0x7F || (name[i] == 0xC2 && i + 1 < |name| && name[i + 1] < 0xA0))
  }

  predicate IsGoodName(name: Bytes) {
    && 0 < |name| <= MAX_NAME_LEN
    && (forall i :: 0 <= i < |name| ==> name[i] != '/' as int && name[i] != '\\' as int)
    && !HasControl(name)
    && name[0] != '.' as int
    && name[|name| - 1] != '.' as int && name[|name| - 1] != ' ' as int
  }

  predicate IsGoodMetadata(m: TextMap.Entries) {
    && |m| <= MAX_METADATA_ENTRIES
    && (forall i :: 0 <= i < |m| ==> |m[i].0| <= MAX_METADATA_KEY_LEN && |m[i].1| <= MAX_METADATA_VALUE_LEN)
  }

  // ----- Names, character by character -----

  lemma {:induction false} ControlSplits(a: Bytes, b: Bytes)
    requires a != [] && a[|a| - 1] != 0xC2
    ensures HasControl(a + b) <==> HasControl(a) || HasControl(b)
  {
    var c := a + b;
    assert forall i :: 0 <= i < |a| ==> c[i] == a[i];
    assert forall i :: 0 <= i < |b| ==> c[|a| + i] == b[i];
    if HasControl(c) {
      var i :| 0 <= i < |c| &&
               (c[i] < 0x20 || c[i] == 0x7F || (c[i] == 0xC2 && i + 1 < |c| && c[i + 1] < 0xA0));
      if i >= |a| {
        assert b[i - |a|] == c[i] && (i + 1 < |c| ==> b[i - |a| + 1] == c[i + 1]);
      }
    }
    if HasControl(b) {
      var i :| 0 <= i < |b| &&
               (b[i] < 0x20 || b[i] == 0x7F || (b[i] == 0xC2 && i + 1 < |b| && b[i + 1] < 0xA0));
      assert c[|a| + i] == b[i] && (i + 1 < |b| ==> c[|a| + i + 1] == b[i + 1]);
    }
  }

  /** The control characters of Unicode: below space, and delete up to the end of
      the second block of them. */
  predicate IsControl(c: nat) {
    c < 0x20 || 0x7F <= c < 0xA0
  }

  lemma {:induction false} ScalarControl(c: nat)
    requires IsScalar(c)
    ensures HasControl(EncodeScalar(c)) <==> IsControl(c)
  {
    var e := EncodeScalar(c);
    if c < 0x80 {
      assert e[0] == c;
    } else if c < 0x800 {
      assert e[0] == 0xC2 <==> 0x80 <= c < 0xC0;
      assert e[1] < 0xA0 <==> c % 0x40 < 0x20;
      assert |e| == 2 && e[0] >= 0x80 && e[1] >= 0x80 && e[1] != 0xC2;
    }
  }

  lemma {:induction false} ControlsAre(cs: seq<nat>)
    requires AllScalars(cs)
    ensures HasControl(EncodeText(cs)) <==> exists i :: 0 <= i < |cs| && IsControl(cs[i])
  {
    if cs != [] {
      ControlsAre(cs[1..]);
      ScalarControl(cs[0]);
      ControlSplits(EncodeScalar(cs[0]), EncodeText(cs[1..]));
      if i :| 0 <= i < |cs| && IsControl(cs[i]) {
        assert i > 0 ==> cs[1..][i - 1] == cs[i];
      }
    }
  }

  /** An ASCII byte stands for itself and for nothing else. */
  lemma {:induction false} AsciiInText(cs: seq<nat>, x: Byte)
    requires AllScalars(cs) && x < 0x80
    ensures x in EncodeText(cs) <==> x in cs
    ensures cs != [] ==> EncodeText(cs) != []
    ensures cs != [] ==> (EncodeText(cs)[0] == x <==> cs[0] == x)
    ensures cs != [] ==> (EncodeText(cs)[|EncodeText(cs)| - 1] == x <==> cs[|cs| - 1] == x)
  {
    if cs != [] {
      var e, rest := EncodeScalar(cs[0]), EncodeText(cs[1..]);
      AsciiInText(cs[1..], x);
      assert cs == [cs[0]] + cs[1..];
      assert x in e <==> x == cs[0];
      assert (e + rest)[0] == e[0];
      if |cs| > 1 {
        assert (e + rest)[|e + rest| - 1] == rest[|rest| - 1];
      }
    }
  }

  /** A name as people read it: not empty, at most 255 bytes, no separator and no
      control character, no dot in front, no dot and no space at the end. */
  ghost predicate IsAllowedName(cs: seq<nat>)
    requires AllScalars(cs)
  {
    && cs != [] && |EncodeText(cs)| <= 255
    && (forall c :: c in cs ==> c != '/' as int && c != '\\' as int && !(c < 0x20 || 0x7F <= c < 0xA0))
    && cs[0] != '.' as int && cs[|cs| - 1] != '.' as int && cs[|cs| - 1] != ' ' as int
  }

  /** The byte-wise check decides exactly that. */
  lemma {:induction false} GoodNameExactly(cs: seq<nat>)
    requires AllScalars(cs)
    ensures IsGoodName(EncodeText(cs)) <==> IsAllowedName(cs)
  {
    ControlsAre(cs);
    AsciiInText(cs, '/' as int);
    AsciiInText(cs, '\\' as int);
    AsciiInText(cs, '.' as int);
    AsciiInText(cs, ' ' as int);
    var b := EncodeText(cs);
    assert (forall i :: 0 <= i < |b| ==> b[i] != '/' as int && b[i] != '\\' as int) <==>
           '/' as int !in b && '\\' as int !in b;
    assert (exists i :: 0 <= i < |cs| && IsControl(cs[i])) <==> exists c :: c in cs && IsControl(c);
  }

  function BodyError(body: Body): Option<Error> {
    match body
    case OfferBody(offer) =>
      if !IsGoodName(offer.name) then Some(InvalidName)
      else if !IsGoodMetadata(offer.metadata) then Some(MetadataLimit)
      else None
    case ExtensionBody(x) => if |x.payload| > MAX_BODY_SIZE then Some(TooLarge(|x.payload|)) else None
    case ProviderBody(_) => None
    case RequestBody(_) => None
  }

  // ----- Bodies in envelopes -----

  function KindOf(body: Body): nat {
    match body
    case OfferBody(_) => KIND_OFFER
    case ProviderBody(_) => KIND_PROVIDER
    case RequestBody(_) => KIND_REQUEST
    case ExtensionBody(_) => KIND_EXTENSION
  }

  predicate IsBody(body: Body) {
    match body
    case OfferBody(offer) => OfferCodec.ok(offer)
    case ProviderBody(provider) => ProviderCodec.ok(provider)
    case RequestBody(hash) => |hash| == 32
    case ExtensionBody(x) => ExtensionCodec.ok(x)
  }

  function EncodeBody(body: Body): Envelope {
    Envelope(KindOf(body), match body
                           case OfferBody(offer) => OfferCodec.enc(offer)
                           case ProviderBody(provider) => ProviderCodec.enc(provider)
                           case RequestBody(hash) => hash
                           case ExtensionBody(x) => ExtensionCodec.enc(x))
  }

  function Read<T>(p: Parsed<T>, wrap: T -> Body): Result<Option<Body>, Error> {
    if p.Malformed? then Err(BadEncoding) else Ok(Some(wrap(p.value)))
  }

  /** The body, or nothing for a kind this build does not know. */
  function DecodeBody(e: Envelope): Result<Option<Body>, Error> {
    if |e.payload| > MAX_BODY_SIZE then Err(TooLarge(|e.payload|))
    else if e.kind == KIND_OFFER then Read(OfferCodec.dec(e.payload), (o: Offer) => OfferBody(o))
    else if e.kind == KIND_EXTENSION then Read(ExtensionCodec.dec(e.payload), (x: Extension) => ExtensionBody(x))
    else if e.kind == KIND_PROVIDER then Read(ProviderCodec.dec(e.payload), (p: Provider) => ProviderBody(p))
    else if e.kind == KIND_REQUEST then Read(Raw(32).dec(e.payload), (h: Bytes) => RequestBody(h))
    else Ok(None)
  }

  /** A body decoded and held to its bounds. */
  function CheckedBody(e: Envelope): Result<Option<Body>, Error> {
    match DecodeBody(e)
    case Err(error) => Err(error)
    case Ok(None) => Ok(None)
    case Ok(Some(body)) => if BodyError(body).Some? then Err(BodyError(body).value) else Ok(Some(body))
  }

  /** A body comes back from its envelope, even with bytes appended to it. */
  lemma {:induction false} BodyRoundTrip(body: Body, appended: Bytes)
    requires IsBody(body) && |EncodeBody(body).payload + appended| <= MAX_BODY_SIZE
    ensures DecodeBody(Envelope(KindOf(body), EncodeBody(body).payload + appended)) == Ok(Some(body))
  {
    match body
    case OfferBody(offer) => OfferRoundTrip(offer, appended);
    case ProviderBody(provider) => ProviderRoundTrip(provider, appended);
    case RequestBody(hash) => RequestRoundTrip(hash, appended);
    case ExtensionBody(x) => ExtensionRoundTrip(x, appended);
  }

  lemma {:induction false} OfferRoundTrip(offer: Offer, appended: Bytes)
    requires OfferCodec.ok(offer) && |OfferCodec.enc(offer) + appended| <= MAX_BODY_SIZE
    ensures DecodeBody(Envelope(KIND_OFFER, OfferCodec.enc(offer) + appended)) == Ok(Some(OfferBody(offer)))
  {
    OfferIsLawful();
    ComesBack(OfferCodec, offer, appended);
  }

  lemma {:induction false} ProviderRoundTrip(provider: Provider, appended: Bytes)
    requires ProviderCodec.ok(provider) && |ProviderCodec.enc(provider) + appended| <= MAX_BODY_SIZE
    ensures DecodeBody(Envelope(KIND_PROVIDER, ProviderCodec.enc(provider) + appended)) ==
            Ok(Some(ProviderBody(provider)))
  {
    ProviderIsLawful();
    ComesBack(ProviderCodec, provider, appended);
  }

  lemma {:induction false} RequestRoundTrip(hash: Bytes, appended: Bytes)
    requires |hash| == 32 && |hash + appended| <= MAX_BODY_SIZE
    ensures DecodeBody(Envelope(KIND_REQUEST, hash + appended)) == Ok(Some(RequestBody(hash)))
  {
    RawIsLawful(32);
    ComesBack(Raw(32), hash, appended);
  }

  lemma {:induction false} ExtensionRoundTrip(x: Extension, appended: Bytes)
    requires ExtensionCodec.ok(x) && |ExtensionCodec.enc(x) + appended| <= MAX_BODY_SIZE
    ensures DecodeBody(Envelope(KIND_EXTENSION, ExtensionCodec.enc(x) + appended)) == Ok(Some(ExtensionBody(x)))
  {
    ExtensionIsLawful();
    ComesBack(ExtensionCodec, x, appended);
  }

  /** A body within its bounds passes the checks on the way in. */
  lemma {:induction false} BodyPasses(body: Body)
    requires IsBody(body) && BodyError(body).None? && |EncodeBody(body).payload| <= MAX_BODY_SIZE
    ensures CheckedBody(EncodeBody(body)) == Ok(Some(body))
  {
    var e := EncodeBody(body);
    assert e.payload + [] == e.payload;
    BodyRoundTrip(body, []);
    assert Envelope(KindOf(body), e.payload + []) == e;
  }

  // ----- What is accepted is within bounds -----

  ghost predicate SpellsAllowedName(name: Bytes) {
    exists cs :: AllScalars(cs) && EncodeText(cs) == name && IsAllowedName(cs)
  }

  ghost predicate IsAllowedMetadata(m: TextMap.Entries) {
    |m| <= 16 && forall entry :: entry in m ==> |entry.0| <= 64 && |entry.1| <= 512
  }

  ghost predicate IsAllowed(body: Body) {
    match body
    case OfferBody(o) => SpellsAllowedName(o.name) && IsAllowedMetadata(o.metadata)
    case ExtensionBody(x) => |x.payload| <= 63 * 1024
    case ProviderBody(_) => true
    case RequestBody(_) => true
  }

  lemma {:induction false} NameIs(name: Bytes)
    requires IsUtf8(name)
    ensures IsGoodName(name) <==> SpellsAllowedName(name)
  {
    var cs := TextDecodes(name);
    GoodNameExactly(cs);
    if SpellsAllowedName(name) {
      var others :| AllScalars(others) && EncodeText(others) == name && IsAllowedName(others);
      GoodNameExactly(others);
    }
  }

  lemma {:induction false} OfferNameIsText(o: Offer)
    requires OfferCodec.ok(o)
    ensures IsUtf8(o.name)
  {
    var t := FromOffer(o);
    ViaIs(Both(Raw(32), Both(Text, Both(U64, Both(Opt(Text), Both(Opt(U64), TextMap.Texts))))), ToOffer, FromOffer, o);
    BothIs(Raw(32), Both(Text, Both(U64, Both(Opt(Text), Both(Opt(U64), TextMap.Texts)))), t);
    BothIs(Text, Both(U64, Both(Opt(Text), Both(Opt(U64), TextMap.Texts))), t.1);
  }

  lemma {:induction false} ErrorExactly(body: Body)
    requires IsBody(body)
    ensures BodyError(body).None? <==> IsAllowed(body)
    ensures body.OfferBody? && !SpellsAllowedName(body.offer.name) ==> BodyError(body) == Some(InvalidName)
    ensures body.OfferBody? && SpellsAllowedName(body.offer.name) && !IsAllowedMetadata(body.offer.metadata) ==>
              BodyError(body) == Some(MetadataLimit)
  {
    if body.OfferBody? {
      var m := body.offer.metadata;
      OfferNameIsText(body.offer);
      NameIs(body.offer.name);
      assert (forall i :: 0 <= i < |m| ==> |m[i].0| <= 64 && |m[i].1| <= 512) <==>
             forall entry :: entry in m ==> |entry.0| <= 64 && |entry.1| <= 512;
    }
  }

  /** Which kind of body an envelope holds. */
  ghost predicate Holds(e: Envelope, body: Option<Body>) {
    match body
    case None => e.kind != 1 && e.kind != 2 && e.kind != 3 && e.kind != 5
    case Some(OfferBody(_)) => e.kind == 1
    case Some(ProviderBody(_)) => e.kind == 2
    case Some(RequestBody(_)) => e.kind == 3
    case Some(ExtensionBody(_)) => e.kind == 5
  }

  lemma {:induction false} DecodedIsBody(e: Envelope)
    requires DecodeBody(e).Ok?
    ensures |e.payload| <= 63 * 1024 && Holds(e, DecodeBody(e).value)
    ensures DecodeBody(e).value.Some? ==> IsBody(DecodeBody(e).value.value)
  {
    OfferIsLawful();
    ProviderIsLawful();
    ExtensionIsLawful();
    RawIsLawful(32);
    ParsedIsOk(OfferCodec, e.payload);
    ParsedIsOk(ProviderCodec, e.payload);
    ParsedIsOk(ExtensionCodec, e.payload);
    ParsedIsOk(Raw(32), e.payload);
  }

  lemma {:induction false} ParsedIsOk<T(!new)>(c: Codec<T>, b: Bytes)
    requires Lawful(c)
    ensures c.dec(b).Parsed? ==> c.ok(c.dec(b).value)
  {
  }

  /** What passes the checks, honest or not, is of its kind and within bounds. */
  lemma {:induction false} CheckedIsAllowed(e: Envelope)
    requires CheckedBody(e).Ok?
    ensures |e.payload| <= 63 * 1024 && Holds(e, CheckedBody(e).value)
    ensures CheckedBody(e).value.Some? ==> IsAllowed(CheckedBody(e).value.value)
  {
    DecodedIsBody(e);
    if CheckedBody(e).value.Some? {
      ErrorExactly(CheckedBody(e).value.value);
    }
  }

  /** A body made here passes the checks if and only if it is within bounds, and
      an offer is told which bound it breaks. */
  lemma {:induction false} CheckedExactly(body: Body)
    requires IsBody(body) && |EncodeBody(body).payload| <= MAX_BODY_SIZE
    ensures CheckedBody(EncodeBody(body)) ==
            if IsAllowed(body) then Ok(Some(body))
            else Err(if body.OfferBody? && SpellsAllowedName(body.offer.name) then MetadataLimit else InvalidName)
  {
    var e := EncodeBody(body);
    assert e.payload + [] == e.payload;
    BodyRoundTrip(body, []);
    assert Envelope(KindOf(body), e.payload + []) == e;
    ErrorExactly(body);
    PayloadIsShort(body);
  }

  lemma {:induction false} PayloadIsShort(body: Body)
    requires IsBody(body) && |EncodeBody(body).payload| <= MAX_BODY_SIZE
    ensures body.ExtensionBody? ==> |body.extension.payload| <= MAX_BODY_SIZE
  {
    if body.ExtensionBody? {
      var t := FromExtension(body.extension);
      ViaIs(Both(Raw(16), Both(U32, Both(U16, Blob))), ToExtension, FromExtension, body.extension);
      BothIs(Raw(16), Both(U32, Both(U16, Blob)), t);
      BothIs(U32, Both(U16, Blob), t.1);
      BothIs(U16, Blob, t.1.1);
    }
  }
}
