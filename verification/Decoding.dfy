/** What a member of a public drop makes of the bytes it is handed: the frame
    the rest of the model reasons about. */
module Decoding {
  import opened Common
  import opened Postcard
  import Convergence
  import Frames
  import Messages
  import Offers
  import TextMap

  /** The number some bytes spell, most significant byte first. */
  function NumberOf(bytes: Bytes): nat {
    if bytes == [] then 0 else 256 * NumberOf(bytes[..|bytes| - 1]) + bytes[|bytes| - 1]
  }

  /** A name stands for its UTF-8 bytes, one character each. */
  function TextOf(bytes: Bytes): (text: string)
    ensures |text| == |bytes|
  {
    seq(|bytes|, i requires 0 <= i < |bytes| => bytes[i] as char)
  }

  /** A claim without a time counts as the oldest. */
  function BodyOf(body: Option<Messages.Body>): Convergence.Body {
    match body
    case Some(OfferBody(o)) => Convergence.Offer(Offers.Offer(NumberOf(o.blobHash), TextOf(o.name), o.size))
    case Some(ProviderBody(p)) =>
      Convergence.Provider(NumberOf(p.blobHash), p.state == 1, if p.announcedAt.Some? then p.announcedAt.value else 0)
    case Some(RequestBody(_)) => Convergence.Request
    case Some(ExtensionBody(_)) => Convergence.Extension
    case None => Convergence.Extension
  }

  function FrameOf(v: Frames.Verified): Convergence.Frame {
    Convergence.Frame(NumberOf(v.author), NumberOf(v.message.id), BodyOf(v.body))
  }

  function Understood(w: Frames.World, topic: Bytes, bytes: Bytes): Option<Convergence.Frame> {
    match Frames.DecodePublic(w, bytes, topic)
    case Err(_) => None
    case Ok(v) => Some(FrameOf(v))
  }

  ghost function Member(w: Frames.World, topic: Bytes): Convergence.Decoder {
    bytes => Understood(w, topic, bytes)
  }

  /** Keys, hashes and ids are of one length each, so that no two of them are
      the same number. */
  lemma {:induction false} NumbersAreExact(a: Bytes, b: Bytes)
    requires |a| == |b| && NumberOf(a) == NumberOf(b)
    ensures a == b
  {
    if a != [] {
      NumbersAreExact(a[..|a| - 1], b[..|b| - 1]);
      SplitLast(a);
      SplitLast(b);
    }
  }

  /** A byte string before another of its length: by the first byte that differs,
      or by the last one if all before it agree. */
  lemma {:induction false} BeforeByLast(a: Bytes, b: Bytes)
    requires |a| == |b| > 0
    ensures var front, other := a[..|a| - 1], b[..|b| - 1];
            TextMap.Before(a, b) <==> TextMap.Before(front, other) || (front == other && a[|a| - 1] < b[|b| - 1])
  {
    if |a| > 1 {
      BeforeByLast(a[1..], b[1..]);
      var front, other := a[..|a| - 1], b[..|b| - 1];
      assert front[1..] == a[1..][..|a| - 2] && other[1..] == b[1..][..|b| - 2];
      assert front == [a[0]] + front[1..] && other == [b[0]] + other[1..];
    } else {
      assert a[..0] == b[..0] == [];
      assert a[1..] == b[1..] == [];
    }
  }

  /** Numbers of one length are ordered as their bytes are, first byte first. */
  lemma {:induction false} NumbersAreOrdered(a: Bytes, b: Bytes)
    requires |a| == |b|
    ensures NumberOf(a) < NumberOf(b) <==> TextMap.Before(a, b)
    decreases |a|
  {
    if a != [] {
      BeforeByLast(a, b);
      var front, other := a[..|a| - 1], b[..|b| - 1];
      NumbersAreOrdered(front, other);
      NumbersAreOrdered(other, front);
      if NumberOf(front) == NumberOf(other) {
        NumbersAreExact(front, other);
        NeverBeforeItself(front);
      }
    }
  }

  lemma {:induction false} NeverBeforeItself(a: Bytes)
    ensures !TextMap.Before(a, a)
  {
    if TextMap.Before(a, a) {
      TextMap.BeforeIsStrict(a, a);
    }
  }

  /** What the tables need of a body. State 1 of a provider is a withdrawal, and a
      claim without a time counts as made at time 0. */
  lemma {:induction false} BodyMeans(body: Messages.Body)
    requires Messages.IsBody(body)
    ensures BodyOf(Some(body)) ==
            match body
            case OfferBody(o) => Convergence.Offer(Offers.Offer(NumberOf(o.blobHash), TextOf(o.name), o.size))
            case ProviderBody(Provider(hash, 0, Some(at))) => Convergence.Provider(NumberOf(hash), false, at)
            case ProviderBody(Provider(hash, 0, None)) => Convergence.Provider(NumberOf(hash), false, 0)
            case ProviderBody(Provider(hash, _, Some(at))) => Convergence.Provider(NumberOf(hash), true, at)
            case ProviderBody(Provider(hash, _, None)) => Convergence.Provider(NumberOf(hash), true, 0)
            case RequestBody(_) => Convergence.Request
            case ExtensionBody(_) => Convergence.Extension
  {
    if body.ProviderBody? {
      StateIs(body.provider);
    }
  }

  /** An honest message within bounds reaches the tables under its author and id,
      as what its body means. */
  lemma {:induction false} HonestIsUnderstood(w: Frames.World, author: Bytes, signature: Bytes, m: Messages.Message,
                                              body: Messages.Body, topic: Bytes)
    requires Frames.IsIdeal(w) && Messages.MessageCodec.ok(m) && m.version == 2 && |m.body.payload| <= 63 * 1024
    requires Messages.IsBody(body) && Messages.IsAllowed(body) && m.body == Messages.EncodeBody(body)
    requires var signed := Frames.SigningInput(w.domains.open, topic, Messages.MessageCodec.enc(m));
             Frames.Signing(author, signed, signature) in w.signed
    requires |Frames.EncodeFrame(author, signature, m)| <= MAX_MESSAGE_SIZE
    ensures var f := Understood(w, topic, Frames.EncodeFrame(author, signature, m));
            f == Some(Convergence.Frame(NumberOf(author), NumberOf(m.id), BodyOf(Some(body))))
  {
    assert Frames.EncodeFrame(author, signature, m) + [] == Frames.EncodeFrame(author, signature, m);
    Frames.BodyArrives(w, author, signature, m, body, topic, []);
  }

  lemma {:induction false} StateIs(p: Messages.Provider)
    requires Messages.ProviderCodec.ok(p)
    ensures p.state < 2
  {
    ViaIs(Both(Raw(32), Both(Messages.StateCodec, Opt(U64))), Messages.ToProvider, Messages.FromProvider, p);
    BothIs(Raw(32), Both(Messages.StateCodec, Opt(U64)), Messages.FromProvider(p));
    BothIs(Messages.StateCodec, Opt(U64), Messages.FromProvider(p).1);
  }

  /** A verified author's key and a message's id are as long as keys and ids
      are. */
  lemma {:induction false} VerifiedSizes(w: Frames.World, bytes: Bytes, topic: Bytes)
    requires Frames.IsIdeal(w) && Frames.DecodePublic(w, bytes, topic).Ok?
    ensures var v := Frames.DecodePublic(w, bytes, topic).value; |v.author| == 32 && |v.message.id| == 16
  {
    var f := Frames.TakeFrame(bytes).value;
    var v := Frames.DecodePublic(w, bytes, topic).value;
    assert Frames.IsSigned(w, f, Frames.SigningInput(w.domains.open, topic, f.payload));
    Messages.MessageIsLawful();
    assert Messages.MessageCodec.ok(v.message) by {
      assert Messages.MessageCodec.dec(f.payload).value == v.message;
    }
    MessageIds(v.message);
  }

  lemma {:induction false} MessageIds(m: Messages.Message)
    requires Messages.MessageCodec.ok(m)
    ensures |m.id| == 16
  {
    ViaIs(Both(U16, Both(Raw(16), Both(U64, Messages.EnvelopeCodec))), Messages.ToMessage, Messages.FromMessage, m);
    BothIs(U16, Both(Raw(16), Both(U64, Messages.EnvelopeCodec)), Messages.FromMessage(m));
    BothIs(Raw(16), Both(U64, Messages.EnvelopeCodec), Messages.FromMessage(m).1);
  }

  /** Two byte strings a member understands have one author and one id as frames
      exactly if they have them as messages. */
  lemma {:induction false} IdentityIsKept(w: Frames.World, topic: Bytes, a: Bytes, b: Bytes)
    requires Frames.IsIdeal(w)
    requires Frames.DecodePublic(w, a, topic).Ok? && Frames.DecodePublic(w, b, topic).Ok?
    ensures var x, y := Frames.DecodePublic(w, a, topic).value, Frames.DecodePublic(w, b, topic).value;
            var f, g := Understood(w, topic, a).value, Understood(w, topic, b).value;
            f.author == g.author && f.id == g.id <==> x.author == y.author && x.message.id == y.message.id
  {
    var x, y := Frames.DecodePublic(w, a, topic).value, Frames.DecodePublic(w, b, topic).value;
    VerifiedSizes(w, a, topic);
    VerifiedSizes(w, b, topic);
    if NumberOf(x.author) == NumberOf(y.author) {
      NumbersAreExact(x.author, y.author);
    }
    if NumberOf(x.message.id) == NumberOf(y.message.id) {
      NumbersAreExact(x.message.id, y.message.id);
    }
  }
}
