/** Logs of genuine offers, as a session could hold them, that a newcomer does
    not get in full. */
module OfferLogs {
  import opened Common
  import opened Postcard
  import opened Messages
  import opened Frames
  import CatchUp
  import Convergence
  import Decoding
  import RateLimiter
  import Replay
  import SyncLog
  import TextMap
  import Transfer

  const WIDE: nat := 1888
  const WIDER: nat := 39837

  /** An offer whose media type fills it up. */
  function Padded(pad: nat): (o: Messages.Offer) {
    Messages.Offer(Blank(32), [97], 0, Some(Blank(pad)), None, [])
  }

  /** `n` bytes, the first two of which spell `i`. */
  function Numbered(i: nat, n: nat): (b: Bytes)
    requires n >= 2
    ensures |b| == n
  {
    [i / 256 % 256, i % 256] + Blank(n - 2)
  }

  function OfferMessage(i: nat, pad: nat): Message {
    Message(WIRE_VERSION, Numbered(i, 16), 0, EncodeBody(OfferBody(Padded(pad))))
  }

  /** The frame of offer number `i`, by an author whose key is zero. */
  function OfferFrame(i: nat, pad: nat): Bytes {
    EncodeFrame(Blank(32), Numbered(i, 64), OfferMessage(i, pad))
  }

  function Signed(domains: Domains, topic: Bytes, i: nat, pad: nat): Signing {
    Signing(Blank(32), SigningInput(domains.open, topic, MessageCodec.enc(OfferMessage(i, pad))), Numbered(i, 64))
  }

  /** A world in which the first `n` such offers were signed. */
  ghost function Offering(domains: Domains, topic: Bytes, n: nat, pad: nat): World {
    World(domains, (key: Bytes) => |key| == 32, set i | 0 <= i < n :: Signed(domains, topic, i, pad), map[])
  }

  ghost function OfferLog(n: nat, pad: nat): (history: SyncLog.Entries)
    ensures |history| == n
  {
    seq(n, i requires 0 <= i < n => SyncLog.Entry(OfferFrame(i, pad), true))
  }

  lemma {:induction false} NumberedApart(i: nat, j: nat, n: nat)
    requires i < 0x1_0000 && j < 0x1_0000 && n >= 2 && Numbered(i, n) == Numbered(j, n)
    ensures i == j
  {
    assert Numbered(i, n)[0] == i / 256 && Numbered(i, n)[1] == i % 256;
    assert Numbered(j, n)[0] == j / 256 && Numbered(j, n)[1] == j % 256;
  }

  lemma {:induction false} OfferingIsIdeal(domains: Domains, topic: Bytes, n: nat, pad: nat)
    requires Apart(domains) && n <= 0x1_0000
    ensures IsIdeal(Offering(domains, topic, n, pad))
  {
    var w := Offering(domains, topic, n, pad);
    forall x, y | x in w.signed && y in w.signed && x.author == y.author && x.signature == y.signature
      ensures x.input == y.input
    {
      var i :| 0 <= i < n && x == Signed(domains, topic, i, pad);
      var j :| 0 <= j < n && y == Signed(domains, topic, j, pad);
      NumberedApart(i, j, 64);
    }
  }

  lemma {:induction false} BlankIsText(n: nat)
    ensures IsUtf8(Blank(n))
  {
    if n > 0 {
      BlankIsText(n - 1);
      assert Blank(n)[1..] == Blank(n - 1);
    }
  }

  lemma {:induction false} TextSize(text: Bytes)
    requires IsUtf8(text) && |text| < Limit(10, 1)
    ensures Text.ok(text) && |Text.enc(text)| == |Varint(|text|)| + |text|
    ensures Opt(Text).ok(Some(text)) && |Opt(Text).enc(Some(text))| == 1 + |Varint(|text|)| + |text|
  {
  }

  lemma {:induction false} EmptyMap(none: TextMap.Entries)
    requires none == []
    ensures TextMap.Texts.ok(none) && |TextMap.Texts.enc(none)| == 1
  {
    WordLimits();
    assert EncodeAll(TextMap.Pair, none) == [];
    assert Many(TextMap.Pair).enc(none) == Varint(0);
  }

  /** No creation time and no metadata. */
  lemma {:induction false} NoExtras()
    ensures Both(Opt(U64), TextMap.Texts).ok((None, [])) && |Both(Opt(U64), TextMap.Texts).enc((None, []))| == 2
  {
    EmptyMap([]);
    BothIs(Opt(U64), TextMap.Texts, (None, []));
  }

  lemma {:induction false} HeadSize(hash: Bytes, name: Bytes, rest: (Option<Bytes>, (Option<nat>, TextMap.Entries)))
    requires |hash| == 32 && IsUtf8(name) && |name| < 128 && Both(Opt(Text), Both(Opt(U64), TextMap.Texts)).ok(rest)
    ensures var c := Both(Raw(32), Both(Text, Both(U64, Both(Opt(Text), Both(Opt(U64), TextMap.Texts)))));
            && c.ok((hash, (name, (0, rest))))
            && |c.enc((hash, (name, (0, rest))))| ==
               34 + |name| + |Both(Opt(Text), Both(Opt(U64), TextMap.Texts)).enc(rest)|
  {
    WordLimits();
    TextSize(name);
    BothIs(U64, Both(Opt(Text), Both(Opt(U64), TextMap.Texts)), (0, rest));
    BothIs(Text, Both(U64, Both(Opt(Text), Both(Opt(U64), TextMap.Texts))), (name, (0, rest)));
    BothIs(Raw(32), Both(Text, Both(U64, Both(Opt(Text), Both(Opt(U64), TextMap.Texts)))), (hash, (name, (0, rest))));
  }

  lemma {:induction false} OfferSize(pad: nat)
    requires pad < 0x1_0000
    ensures OfferCodec.ok(Padded(pad)) && |OfferCodec.enc(Padded(pad))| == 38 + |Varint(pad)| + pad
  {
    WordLimits();
    BlankIsText(pad);
    TextSize(Blank(pad));
    NoExtras();
    BothIs(Opt(Text), Both(Opt(U64), TextMap.Texts), (Some(Blank(pad)), (None, [])));
    assert [97][1..] == [];
    HeadSize(Blank(32), [97], (Some(Blank(pad)), (None, [])));
    ViaIs(Both(Raw(32), Both(Text, Both(U64, Both(Opt(Text), Both(Opt(U64), TextMap.Texts))))), ToOffer, FromOffer,
          Padded(pad));
  }

  /** The two sizes: 2048 bytes, and 40000. */
  lemma {:induction false} FrameSizes(i: nat)
    ensures |OfferFrame(i, WIDE)| == 2048 && |OfferFrame(i, WIDER)| == Transfer.HEAVY
  {
    FrameLength(i, WIDE, 2);
    FrameLength(i, WIDER, 3);
  }

  /** How long the length prefix of a number of this size is. */
  lemma {:induction false} PrefixLength(n: nat)
    ensures 128 <= n < 0x4000 ==> |Varint(n)| == 2
    ensures 0x4000 <= n < 0x20_0000 ==> |Varint(n)| == 3
  {
    if 128 <= n < 0x4000 {
      assert n / 128 < 128;
    } else if 0x4000 <= n < 0x20_0000 {
      LongVarint(n);
    }
  }

  lemma {:induction false} FrameLength(i: nat, pad: nat, prefix: nat)
    requires 128 <= pad && pad + 256 < 0x1_0000
    requires prefix == 2 ==> pad + 256 < 0x4000
    requires prefix == 3 ==> pad >= 0x4000
    requires prefix == 2 || prefix == 3
    ensures |OfferFrame(i, pad)| == 154 + 3 * prefix + pad
    ensures MessageCodec.ok(OfferMessage(i, pad)) && |OfferMessage(i, pad).body.payload| == 38 + prefix + pad
  {
    var m := OfferMessage(i, pad);
    OfferSize(pad);
    PrefixLength(pad);
    PrefixLength(|m.body.payload|);
    EnvelopeSize(m.body);
    MessageSize(m);
    PrefixLength(|MessageCodec.enc(m)|);
    FrameSizeIs(Frame(Blank(32), Numbered(i, 64), MessageCodec.enc(m)));
  }

  /** Every frame of the log decodes to the offer it was made from. */
  lemma {:induction false} OfferArrives(domains: Domains, topic: Bytes, n: nat, i: nat, pad: nat)
    requires Apart(domains) && i < n <= 0x1_0000 && (pad == WIDE || pad == WIDER)
    ensures DecodePublic(Offering(domains, topic, n, pad), OfferFrame(i, pad), topic) ==
            Ok(Verified(Blank(32), OfferMessage(i, pad), Some(OfferBody(Padded(pad)))))
  {
    OfferingIsIdeal(domains, topic, n, pad);
    FrameSizes(i);
    FrameLength(i, pad, if pad == WIDE then 2 else 3);
    OfferSize(pad);
    SignedArrives(Offering(domains, topic, n, pad), domains, topic, i, pad);
  }

  lemma {:induction false} PaddedPasses(pad: nat)
    requires OfferCodec.ok(Padded(pad))
    ensures IsAllowed(OfferBody(Padded(pad)))
  {
    assert Padded(pad).name == [97];
    assert !HasControl([97]);
    ErrorExactly(OfferBody(Padded(pad)));
  }

  lemma {:induction false} SignedArrives(w: World, domains: Domains, topic: Bytes, i: nat, pad: nat)
    requires IsIdeal(w) && w.domains == domains && Signed(domains, topic, i, pad) in w.signed
    requires OfferCodec.ok(Padded(pad)) && MessageCodec.ok(OfferMessage(i, pad))
    requires |OfferMessage(i, pad).body.payload| <= MAX_BODY_SIZE && |OfferFrame(i, pad)| <= MAX_MESSAGE_SIZE
    ensures DecodePublic(w, OfferFrame(i, pad), topic) ==
            Ok(Verified(Blank(32), OfferMessage(i, pad), Some(OfferBody(Padded(pad)))))
  {
    PaddedPasses(pad);
    OfferArrivesIn(w, Blank(32), Numbered(i, 64), OfferMessage(i, pad), Padded(pad), topic);
  }

  lemma {:induction false} OfferArrivesIn(w: World, author: Bytes, signature: Bytes, m: Message, o: Messages.Offer,
                                          topic: Bytes)
    requires IsIdeal(w) && MessageCodec.ok(m) && m.version == WIRE_VERSION && |m.body.payload| <= MAX_BODY_SIZE
    requires OfferCodec.ok(o) && IsAllowed(OfferBody(o)) && m.body == EncodeBody(OfferBody(o))
    requires Signing(author, SigningInput(w.domains.open, topic, MessageCodec.enc(m)), signature) in w.signed
    requires |EncodeFrame(author, signature, m)| <= MAX_MESSAGE_SIZE
    ensures DecodePublic(w, EncodeFrame(author, signature, m), topic) == Ok(Verified(author, m, Some(OfferBody(o))))
  {
    assert EncodeFrame(author, signature, m) + [] == EncodeFrame(author, signature, m);
    BodyArrives(w, author, signature, m, OfferBody(o), topic, []);
  }

  /** A log of core frames of one size, all different, every one of which a
      member understands. */
  ghost predicate IsGenuine(history: SyncLog.Entries, size: nat, w: World, topic: Bytes) {
    && IsIdeal(w) && Transfer.AllSized(history, size)
    && (forall i :: 0 <= i < |history| ==> history[i].core && Decoding.Understood(w, topic, history[i].frame).Some?)
    && (forall i, j :: 0 <= i < j < |history| ==>
          Decoding.Understood(w, topic, history[i].frame) != Decoding.Understood(w, topic, history[j].frame))
  }

  lemma {:induction false} OffersAreGenuine(domains: Domains, topic: Bytes, n: nat, pad: nat)
    requires Apart(domains) && n <= 0x1_0000 && (pad == WIDE || pad == WIDER)
    ensures IsGenuine(OfferLog(n, pad), if pad == WIDE then 2048 else Transfer.HEAVY, Offering(domains, topic, n, pad),
                      topic)
  {
    var history, w := OfferLog(n, pad), Offering(domains, topic, n, pad);
    OfferingIsIdeal(domains, topic, n, pad);
    forall i | 0 <= i < n
      ensures |history[i].frame| == if pad == WIDE then 2048 else Transfer.HEAVY
      ensures Decoding.Understood(w, topic, history[i].frame).Some?
    {
      FrameSizes(i);
      OfferArrives(domains, topic, n, i, pad);
    }
    forall i, j | 0 <= i < j < n
      ensures Decoding.Understood(w, topic, history[i].frame) != Decoding.Understood(w, topic, history[j].frame)
    {
      OffersDiffer(domains, topic, n, i, j, pad);
    }
  }

  lemma {:induction false} OffersDiffer(domains: Domains, topic: Bytes, n: nat, i: nat, j: nat, pad: nat)
    requires Apart(domains) && i < j < n <= 0x1_0000 && (pad == WIDE || pad == WIDER)
    ensures var w := Offering(domains, topic, n, pad);
            Decoding.Understood(w, topic, OfferFrame(i, pad)) != Decoding.Understood(w, topic, OfferFrame(j, pad))
  {
    OfferArrives(domains, topic, n, i, pad);
    OfferArrives(domains, topic, n, j, pad);
    if Decoding.NumberOf(Numbered(i, 16)) == Decoding.NumberOf(Numbered(j, 16)) {
      Decoding.NumbersAreExact(Numbered(i, 16), Numbered(j, 16));
      NumberedApart(i, j, 16);
      assert false;
    }
  }

  /** 256 genuine offers whose one page is too long for the client: whenever it
      asks, it gets nothing. */
  lemma {:induction false} GenuinePageIsLost(domains: Domains, topic: Bytes, prior: RateLimiter.Calls, hello: real,
                                             at: real)
    requires Apart(domains)
    ensures var history := OfferLog(256, WIDE);
            && IsGenuine(history, 2048, Offering(domains, topic, 256, WIDE), topic) && SyncLog.Kept(history) == history
            && var c := Transfer.Run(Transfer.SERVER, Transfer.Opened(Transfer.SERVER, history, prior, hello),
                                     Transfer.Asks([at], 1)).system.client;
               c.end == Some(CatchUp.Failed) && c.handed == []
  {
    OffersAreGenuine(domains, topic, 256, WIDE);
    Transfer.FullPageIsLost(OfferLog(256, WIDE), prior, hello, at);
  }

  /** 416 genuine offers, every page of which fits, that are not pulled at once
      in full. */
  lemma {:induction false} GenuinePullIsRefused(domains: Domains, topic: Bytes, at: real)
    requires Apart(domains)
    ensures var history := OfferLog(416, WIDER);
            && IsGenuine(history, Transfer.HEAVY, Offering(domains, topic, 416, WIDER), topic)
            && SyncLog.Kept(history) == history && Transfer.AllFit(history)
            && Replay.Attempt(history, at, 32).end == Some(CatchUp.Failed)
            && Replay.Attempt(history, at, 32).handed == SyncLog.Frames(history[..403])
  {
    OffersAreGenuine(domains, topic, 416, WIDER);
    Transfer.LongPullIsRefused(OfferLog(416, WIDER), at);
  }

  /** 65 genuine offers, pulled in full by one page: the replay drops the last
      one, and no other. */
  lemma {:induction false} SixtyFifthOfferIsLost(domains: Domains, topic: Bytes, at: real, now: int)
    requires Apart(domains)
    ensures var history, w := OfferLog(65, WIDE), Offering(domains, topic, 65, WIDE);
            var c := Replay.Attempt(history, at, 1);
            var arrivals := Replay.Arriving(c.handed, Decoding.Member(w, topic), at, now);
            && IsGenuine(history, 2048, w, topic)
            && c.end == Some(CatchUp.CaughtUp) && c.handed == SyncLog.Frames(history) && |arrivals| == 65
            && Replay.Passed(Replay.MESSAGES, [], arrivals) == Replay.All(arrivals[..64])
  {
    var history, w := OfferLog(65, WIDE), Offering(domains, topic, 65, WIDE);
    OffersAreGenuine(domains, topic, 65, WIDE);
    Transfer.SizedIsKept(history, 2048);
    Transfer.SizedIs(history, 2048);
    Transfer.TimesIs(65, 2048);
    Transfer.SizedIsSmall(history, 2048);
    WordLimits();
    LosesSixtyFifth(history, Decoding.Member(w, topic), at, now);
  }

  lemma {:induction false} LosesSixtyFifth(history: SyncLog.Entries, decode: Convergence.Decoder, at: real, now: int)
    requires |history| == 65 && SyncLog.Kept(history) == history && CatchUp.Small(history)
    requires SyncLog.Size(history) + Transfer.OVERHEAD <= CatchUp.MAX_RESPONSE_BYTES && |history| < Limit(10, 1)
    requires forall i :: 0 <= i < |history| ==> decode(history[i].frame).Some?
    ensures var c := Replay.Attempt(history, at, 1);
            var arrivals := Replay.Arriving(c.handed, decode, at, now);
            && c.end == Some(CatchUp.CaughtUp) && c.handed == SyncLog.Frames(history) && |arrivals| == 65
            && Replay.Passed(Replay.MESSAGES, [], arrivals) == Replay.All(arrivals[..64])
  {
    var handed := Replay.Attempt(history, at, 1).handed;
    var arrivals := Replay.Arriving(handed, decode, at, now);
    Replay.ArrivingDecodes(handed, decode, at, now);
    forall i | 0 <= i < |history|
      ensures decode(SyncLog.Frames(history)[i]).Some?
    {
      SyncLog.FramesAt(history, i);
    }
    Replay.OnePageIsCutAt64(history, decode, arrivals, at);
    Replay.DecodedCount(arrivals, handed, decode);
    Replay.AllDecodable(SyncLog.Frames(history), decode);
  }
}
