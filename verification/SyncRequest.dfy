/** Asking for a page of history: the request on the wire, its older form, and
    the proof a keyed client sends along. */
module SyncRequest {
  import opened Common
  import opened Postcard

  datatype Request = Request(version: nat, topicId: Bytes, cursor: nat, maxFrames: nat, keyProof: Option<Bytes>)

  /** The request as it was before proofs existed. */
  datatype Legacy = Legacy(version: nat, topicId: Bytes, cursor: nat, maxFrames: nat)

  type LegacyTuple = (nat, (Bytes, (nat, nat)))

  function ToLegacy(t: LegacyTuple): Legacy {
    Legacy(t.0, t.1.0, t.1.1.0, t.1.1.1)
  }

  function FromLegacy(r: Legacy): LegacyTuple {
    (r.version, (r.topicId, (r.cursor, r.maxFrames)))
  }

  function ToRequest(t: (nat, (Bytes, (nat, (nat, Option<Bytes>))))): Request {
    Request(t.0, t.1.0, t.1.1.0, t.1.1.1.0, t.1.1.1.1)
  }

  function FromRequest(r: Request): (nat, (Bytes, (nat, (nat, Option<Bytes>)))) {
    (r.version, (r.topicId, (r.cursor, (r.maxFrames, r.keyProof))))
  }

  const LegacyCodec: Codec<Legacy> := Via(Both(U16, Both(Raw(32), Both(U64, U16))), ToLegacy, FromLegacy)
  const RequestCodec: Codec<Request> :=
    Via(Both(U16, Both(Raw(32), Both(U64, Both(U16, Opt(Raw(32)))))), ToRequest, FromRequest)

  lemma {:induction false} LegacyIsLawful()
    ensures Lawful(LegacyCodec)
  {
    UIntIsLawful(3, 3);
    UIntIsLawful(10, 1);
    RawIsLawful(32);
    BothIsLawful(U64, U16);
    BothIsLawful(Raw(32), Both(U64, U16));
    BothIsLawful(U16, Both(Raw(32), Both(U64, U16)));
    ViaIsLawful(Both(U16, Both(Raw(32), Both(U64, U16))), ToLegacy, FromLegacy);
  }

  lemma {:induction false} RequestIsLawful()
    ensures Lawful(RequestCodec)
  {
    UIntIsLawful(3, 3);
    UIntIsLawful(10, 1);
    RawIsLawful(32);
    OptIsLawful(Raw(32));
    BothIsLawful(U16, Opt(Raw(32)));
    BothIsLawful(U64, Both(U16, Opt(Raw(32))));
    BothIsLawful(Raw(32), Both(U64, Both(U16, Opt(Raw(32)))));
    BothIsLawful(U16, Both(Raw(32), Both(U64, Both(U16, Opt(Raw(32))))));
    ViaIsLawful(Both(U16, Both(Raw(32), Both(U64, Both(U16, Opt(Raw(32)))))), ToRequest, FromRequest);
  }

  function Upgrade(r: Legacy): Request {
    Request(r.version, r.topicId, r.cursor, r.maxFrames, None)
  }

  function Stripped(r: Request): Legacy {
    Legacy(r.version, r.topicId, r.cursor, r.maxFrames)
  }

  /** The current form if the bytes have it, the older one if not. */
  function Decode(bytes: Bytes): Option<Request> {
    if RequestCodec.dec(bytes).Parsed? then Some(RequestCodec.dec(bytes).value)
    else if LegacyCodec.dec(bytes).Parsed? then Some(Upgrade(LegacyCodec.dec(bytes).value))
    else None
  }

  /** A request comes back, whatever follows it. */
  lemma {:induction false} CurrentRoundTrip(r: Request, tail: Bytes)
    requires RequestCodec.ok(r)
    ensures Decode(RequestCodec.enc(r) + tail) == Some(r)
  {
    RequestIsLawful();
    ComesBack(RequestCodec, r, tail);
  }

  /** The current form is the older one and a proof, or none, after it. */
  lemma {:induction false} ProofFollows(bytes: Bytes)
    ensures RequestCodec.dec(bytes) ==
            match LegacyCodec.dec(bytes)
            case Malformed => Malformed
            case Parsed(older, rest) =>
              match Opt(Raw(32)).dec(rest)
              case Malformed => Malformed
              case Parsed(proof, end) => Parsed(Upgrade(older).(keyProof := proof), end)
  {
    var proof := Opt(Raw(32));
    BothReads(U16, Both(Raw(32), Both(U64, U16)), bytes);
    BothReads(U16, Both(Raw(32), Both(U64, Both(U16, proof))), bytes);
    var v := U16.dec(bytes);
    if v.Parsed? {
      BothReads(Raw(32), Both(U64, U16), v.rest);
      BothReads(Raw(32), Both(U64, Both(U16, proof)), v.rest);
      var t := Raw(32).dec(v.rest);
      if t.Parsed? {
        BothReads(U64, U16, t.rest);
        BothReads(U64, Both(U16, proof), t.rest);
        var c := U64.dec(t.rest);
        if c.Parsed? {
          BothReads(U16, proof, c.rest);
        }
      }
    }
  }

  /** An older request is read as one without a proof, unless what follows it
      reads as a proof. */
  lemma {:induction false} LegacyRoundTrip(r: Legacy, tail: Bytes)
    requires LegacyCodec.ok(r)
    ensures Decode(LegacyCodec.enc(r) + tail) ==
            match Opt(Raw(32)).dec(tail)
            case Malformed => Some(Upgrade(r))
            case Parsed(proof, _) => Some(Upgrade(r).(keyProof := proof))
    ensures Decode(LegacyCodec.enc(r)) == Some(Upgrade(r))
  {
    LegacyIsLawful();
    ComesBack(LegacyCodec, r, tail);
    ProofFollows(LegacyCodec.enc(r) + tail);
    ComesBack(LegacyCodec, r, []);
    ProofFollows(LegacyCodec.enc(r) + []);
    assert LegacyCodec.enc(r) + [] == LegacyCodec.enc(r);
  }

  // ----- The proof of key possession -----

  /** A code made with a drop's key for one text, ideally good for nothing else. */
  datatype Code = Code(key: Bytes, topic: Bytes, text: Bytes, code: Bytes)

  /** What is proven: who asks whom, and the request without its proof. */
  function ProofText(requester: Bytes, responder: Bytes, r: Request): Bytes {
    requester + responder + RequestCodec.enc(r.(keyProof := None))
  }

  /** The check made before a sealed drop serves a page: with a key and with a
      proof, over the request as the server itself would write it. */
  predicate Proven(codes: set<Code>, key: Option<Bytes>, r: Request, peer: Bytes, self: Bytes) {
    key.Some? && r.keyProof.Some? && Code(key.value, r.topicId, ProofText(peer, self, r), r.keyProof.value) in codes
  }

  /** The text names who asks, whom, and then the request as it travels without a
      proof: a version, a topic, a cursor, a number of frames, and a zero. */
  lemma {:induction false} ProofTextIs(requester: Bytes, responder: Bytes, r: Request)
    requires |requester| == |responder| == 32
    ensures var text := ProofText(requester, responder, r);
            && text[..32] == requester && text[32..64] == responder
            && text[64..] == Varint(r.version) + (r.topicId + (Varint(r.cursor) + (Varint(r.maxFrames) + [0])))
  {
    var bare := r.(keyProof := None);
    TextParts(requester, responder, RequestCodec.enc(bare));
    RequestLayout(bare);
  }

  /** The request, field by field. */
  lemma {:induction false} RequestLayout(r: Request)
    ensures RequestCodec.enc(r) ==
            Varint(r.version) + (r.topicId + (Varint(r.cursor) + (Varint(r.maxFrames) +
                (if r.keyProof.None? then [0] else [1] + r.keyProof.value))))
  {
    var proof := Opt(Raw(32));
    ViaIs(Both(U16, Both(Raw(32), Both(U64, Both(U16, proof)))), ToRequest, FromRequest, r);
    BothIs(U16, Both(Raw(32), Both(U64, Both(U16, proof))), FromRequest(r));
    BothIs(Raw(32), Both(U64, Both(U16, proof)), FromRequest(r).1);
    BothIs(U64, Both(U16, proof), FromRequest(r).1.1);
    BothIs(U16, proof, FromRequest(r).1.1.1);
  }

  /** What an honest client sends: the request it proved, with the proof. */
  function Sent(r: Request, proof: Bytes): Bytes {
    RequestCodec.enc(r.(keyProof := Some(proof)))
  }

  /** The server rebuilds exactly what an honest client proved, so the proof
      holds for whoever has the client's key and is the one it asked. */
  lemma {:induction false} HonestProofHolds(codes: set<Code>, key: Bytes, r: Request, proof: Bytes, client: Bytes,
                                            server: Bytes, tail: Bytes)
    requires RequestCodec.ok(r.(keyProof := Some(proof)))
    requires Code(key, r.topicId, ProofText(client, server, r), proof) in codes
    ensures Decode(Sent(r, proof) + tail) == Some(r.(keyProof := Some(proof)))
    ensures Proven(codes, Some(key), r.(keyProof := Some(proof)), client, server)
  {
    CurrentRoundTrip(r.(keyProof := Some(proof)), tail);
    assert r.(keyProof := Some(proof)).(keyProof := None) == r.(keyProof := None);
  }

  /** A proof that holds was made for that very request, asker and asked. */
  lemma {:induction false} ProofIsNotPortable(codes: set<Code>, key: Bytes, r: Request, peer: Bytes, self: Bytes,
                                              made: Request, client: Bytes, server: Bytes)
    requires RequestCodec.ok(r) && RequestCodec.ok(made) && |peer| == |self| == |client| == |server| == 32
    requires Proven(codes, Some(key), r, peer, self)
    requires forall c :: c in codes && c.key == key && c.topic == r.topicId && c.code == r.keyProof.value ==>
            c.text == ProofText(client, server, made)
    ensures peer == client && self == server && Stripped(r) == Stripped(made)
  {
    TextParts(peer, self, RequestCodec.enc(r.(keyProof := None)));
    TextParts(client, server, RequestCodec.enc(made.(keyProof := None)));
    assert Code(key, r.topicId, ProofText(peer, self, r), r.keyProof.value) in codes;
    BareReturns(r);
    BareReturns(made);
  }

  lemma {:induction false} BareReturns(r: Request)
    requires RequestCodec.ok(r)
    ensures RequestCodec.dec(RequestCodec.enc(r.(keyProof := None))) == Parsed(r.(keyProof := None), [])
  {
    var bare := r.(keyProof := None);
    BareIsOk(r);
    RequestIsLawful();
    ComesBack(RequestCodec, bare, []);
    assert RequestCodec.enc(bare) + [] == RequestCodec.enc(bare);
  }

  lemma {:induction false} BareIsOk(r: Request)
    requires RequestCodec.ok(r)
    ensures RequestCodec.ok(r.(keyProof := None))
  {
    OkParts(r);
    OkParts(r.(keyProof := None));
  }

  lemma {:induction false} OkParts(r: Request)
    ensures RequestCodec.ok(r) <==>
            U16.ok(r.version) && Raw(32).ok(r.topicId) && U64.ok(r.cursor) && U16.ok(r.maxFrames) &&
                Opt(Raw(32)).ok(r.keyProof)
  {
    var proof := Opt(Raw(32));
    ViaIs(Both(U16, Both(Raw(32), Both(U64, Both(U16, proof)))), ToRequest, FromRequest, r);
    BothIs(U16, Both(Raw(32), Both(U64, Both(U16, proof))), FromRequest(r));
    BothIs(Raw(32), Both(U64, Both(U16, proof)), FromRequest(r).1);
    BothIs(U64, Both(U16, proof), FromRequest(r).1.1);
    BothIs(U16, proof, FromRequest(r).1.1.1);
  }

  /** Every request with a topic and a proof of 32 bytes and words that fit. */
  lemma {:induction false} RequestOk(r: Request)
    ensures RequestCodec.ok(r) <==>
            && r.version <= 0xFFFF && |r.topicId| == 32 && r.cursor <= 0xFFFF_FFFF_FFFF_FFFF && r.maxFrames <= 0xFFFF
            && (r.keyProof.Some? ==> |r.keyProof.value| == 32)
  {
    OkParts(r);
    WordsOk(r.version);
    WordsOk(r.cursor);
    WordsOk(r.maxFrames);
  }

  lemma {:induction false} TextParts(a: Bytes, b: Bytes, c: Bytes)
    requires |a| == |b| == 32
    ensures (a + b + c)[..32] == a && (a + b + c)[32..64] == b && (a + b + c)[64..] == c
  {
  }
}
