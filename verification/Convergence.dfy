/** Sessions that applied the same frames agree, whatever order, delay,
    duplication or loss the network chose. */
module Convergence {
  import opened Common
  import Offers
  import Providers

  /** Requests, extensions and kinds from the future leave the tables alone. */
  datatype Body =
    | Offer(offer: Offers.Offer)
    | Provider(hash: BlobHash, withdrawn: bool, at: nat)
    | Request
    | Extension

  datatype Frame = Frame(author: PeerId, id: FrameId, body: Body)

  /** What the members of a drop make of bytes: a verified frame, or nothing. */
  type Decoder = Bytes -> Option<Frame>

  predicate IsCore(f: Frame) {
    f.body.Offer? || f.body.Provider?
  }

  predicate Concerns(f: Frame, hash: BlobHash) {
    (f.body.Offer? && f.body.offer.hash == hash) || (f.body.Provider? && f.body.hash == hash)
  }

  function About(f: Frame): BlobHash
    requires IsCore(f)
  {
    if f.body.Offer? then f.body.offer.hash else f.body.hash
  }

  /** What applying a frame does to the tables. */
  function Effect(f: Frame): Offers.Op
    requires IsCore(f)
  {
    if f.body.Offer? then Offers.Offering(f.author, f.body.offer)
    else Offers.Claiming(f.body.hash, Providers.Assert(f.author, f.body.at, f.id, f.body.withdrawn))
  }

  ghost function Affected(t: Offers.Table, f: Frame): Offers.Table {
    if IsCore(f) then Offers.Apply(t, Effect(f)) else t
  }

  /** The tables after applying frames to an empty session. */
  ghost function Heard(frames: seq<Frame>): Offers.Table {
    if frames == [] then Offers.EMPTY
    else Affected(Heard(frames[..|frames| - 1]), frames[|frames| - 1])
  }

  // ----- Sets of frames below every cap -----

  ghost function Hashes(frames: set<Frame>): set<BlobHash> {
    set f | f in frames && f.body.Offer? :: f.body.offer.hash
  }

  ghost function HashesBy(frames: set<Frame>, author: PeerId): set<BlobHash> {
    set f | f in frames && f.body.Offer? && f.author == author :: f.body.offer.hash
  }

  ghost function Speakers(frames: set<Frame>, hash: BlobHash): set<PeerId> {
    set f | f in frames && Concerns(f, hash) :: f.author
  }

  /** No offer cap, no author's quota and no provider cap can be reached. */
  ghost predicate Roomy(frames: set<Frame>) {
    && |Hashes(frames)| <= Offers.MAX_OFFERS
    && (forall author :: |HashesBy(frames, author)| <= Offers.MAX_OFFERS_PER_AUTHOR)
    && (forall hash :: |Speakers(frames, hash)| <= Providers.MAX_PROVIDERS_PER_BLOB)
  }

  /** An author names each of its frames differently. */
  ghost predicate UniqueIds(frames: set<Frame>) {
    forall f, g :: f in frames && g in frames && f.author == g.author && f.id == g.id ==> f == g
  }

  // ----- One register, from the frames about its hash -----

  function Said(f: Frame): Providers.Op
    requires IsCore(f)
  {
    if f.body.Offer? then Providers.Add(f.author, true)
    else Providers.Assert(f.author, f.body.at, f.id, f.body.withdrawn)
  }

  ghost function SaidOf(frames: seq<Frame>, hash: BlobHash): seq<Providers.Op> {
    if frames == [] then []
    else
      var before, f := SaidOf(frames[..|frames| - 1], hash), frames[|frames| - 1];
      if Concerns(f, hash) then before + [Said(f)] else before
  }

  lemma {:induction false} SaidIs(frames: seq<Frame>, hash: BlobHash, op: Providers.Op)
    ensures op in SaidOf(frames, hash) <==> exists f :: f in frames && Concerns(f, hash) && Said(f) == op
  {
    if frames != [] {
      var front, last := frames[..|frames| - 1], frames[|frames| - 1];
      SaidIs(front, hash, op);
      assert frames == front + [last];
    }
  }

  ghost function Named(ops: seq<Providers.Op>): set<PeerId> {
    if ops == [] then {} else Named(ops[..|ops| - 1]) + {ops[|ops| - 1].id}
  }

  lemma {:induction false} NamedIs(ops: seq<Providers.Op>, id: PeerId)
    ensures id in Named(ops) <==> exists op :: op in ops && op.id == id
  {
    if ops != [] {
      SplitLast(ops);
      NamedIs(ops[..|ops| - 1], id);
    }
  }

  /** Below the cap nobody is dropped: the register knows exactly who spoke. */
  lemma {:induction false} NobodyDropped(ops: seq<Providers.Op>, ids: set<PeerId>, id: PeerId)
    requires |ids| <= Providers.MAX_PROVIDERS_PER_BLOB && Named(ops) <= ids
    requires forall op :: op in ops ==> op.Add? || op.Assert?
    ensures Providers.Survives(Providers.NOBODY, ops, id)
    ensures Providers.Run(Providers.NOBODY, ops).providers.Keys == Named(ops)
  {
    if ops != [] {
      var front, op := ops[..|ops| - 1], ops[|ops| - 1];
      SplitLast(ops);
      NobodyDropped(front, ids, id);
      AddsOne(Providers.Run(Providers.NOBODY, front), op, ids);
    }
  }

  lemma {:induction false} AddsOne(r: Providers.Register, op: Providers.Op, ids: set<PeerId>)
    requires |ids| <= Providers.MAX_PROVIDERS_PER_BLOB && r.providers.Keys <= ids && op.id in ids
    requires op.Add? || op.Assert?
    ensures Providers.Apply(r, op).providers.Keys == r.providers.Keys + {op.id}
  {
    if op.Assert? && !Providers.Stale(r, op.id, op.at, op.frame) {
      var all := Providers.Asserted(r, op.id, op.at, op.frame, op.withdrawn);
      SubsetCount(all.providers.Keys, ids);
      assert |all.providers| == |all.providers.Keys|;
      Providers.CappedBelow(all);
    }
  }

  const UNCLAIMED := Providers.Claim(0, 0, false)

  /** The one claim a peer's frames about a hash come to. */
  ghost function Word(frames: seq<Frame>, hash: BlobHash, peer: PeerId): Providers.Claim {
    Providers.Winner(UNCLAIMED, SaidOf(frames, hash), peer)
  }

  ghost function Settled(frames: seq<Frame>, hash: BlobHash): Providers.Register {
    Providers.Run(Providers.NOBODY, SaidOf(frames, hash))
  }

  /** Without a cap in the way, a register holds exactly the peers that spoke
      of the hash, each with the newest of its own claims. */
  lemma {:induction false} SettledIs(frames: seq<Frame>, hash: BlobHash, peer: PeerId)
    requires Roomy(Elements(frames))
    ensures peer in Settled(frames, hash).providers <==> peer in Speakers(Elements(frames), hash)
    ensures Providers.ClaimOf(Providers.InfoOf(Settled(frames, hash).providers, peer)) == Word(frames, hash, peer)
  {
    var ops := SaidOf(frames, hash);
    forall op | op in ops
      ensures op.Add? || op.Assert?
    {
      SaidIs(frames, hash, op);
    }
    forall id
      ensures id in Named(ops) <==> id in Speakers(Elements(frames), hash)
    {
      NamedSpeaks(frames, hash, id);
    }
    NobodyDropped(ops, Speakers(Elements(frames), hash), peer);
    Providers.NewestWins(Providers.NOBODY, ops, peer);
  }

  lemma {:induction false} NamedSpeaks(frames: seq<Frame>, hash: BlobHash, id: PeerId)
    ensures id in Named(SaidOf(frames, hash)) <==> id in Speakers(Elements(frames), hash)
  {
    var ops := SaidOf(frames, hash);
    NamedIs(ops, id);
    if id in Named(ops) {
      var op :| op in ops && op.id == id;
      SaidIs(frames, hash, op);
    }
    if id in Speakers(Elements(frames), hash) {
      var f :| f in Elements(frames) && Concerns(f, hash) && f.author == id;
      SaidIs(frames, hash, Said(f));
    }
  }

  // ----- The whole table, below the caps -----

  /** Every hash offered is in the table, first seen from someone who offered it. */
  ghost predicate OffersMirror(t: Offers.Table, frames: seq<Frame>) {
    && t.offers.Keys == Hashes(Elements(frames))
    && (forall hash :: hash in t.offers ==> hash in HashesBy(Elements(frames), t.offers[hash].from))
  }

  /** Every register is settled. */
  ghost predicate RegistersMirror(t: Offers.Table, frames: seq<Frame>) {
    forall hash :: Offers.RegisterOf(t.providers, hash) == Settled(frames, hash)
  }

  ghost predicate Mirrors(t: Offers.Table, frames: seq<Frame>) {
    Offers.Sound(t) && OffersMirror(t, frames) && RegistersMirror(t, frames)
  }

  lemma {:induction false} HeardMirrors(frames: seq<Frame>, all: set<Frame>)
    requires Elements(frames) <= all && Roomy(all)
    ensures Mirrors(Heard(frames), frames)
  {
    if frames == [] {
      Offers.EmptyIsSound();
    } else {
      var front, f := frames[..|frames| - 1], frames[|frames| - 1];
      SplitLast(frames);
      Offers.ElementsPush(front, f);
      HeardMirrors(front, all);
      HearsOne(Heard(front), front, f, all);
    }
  }

  lemma {:induction false} HearsOne(t: Offers.Table, front: seq<Frame>, f: Frame, all: set<Frame>)
    requires Elements(front) + {f} <= all && Roomy(all) && Mirrors(t, front)
    ensures Mirrors(Affected(t, f), front + [f])
  {
    if IsCore(f) {
      Offers.ApplyIsSound(t, Effect(f));
    }
    if f.body.Offer? && f.body.offer.hash !in t.offers {
      QuotaLeft(t, front, f, all);
      RoomLeft(t, front, f, all);
    }
    BelowCaps(t, f);
    OffersNext(t, Affected(t, f), front, f);
    RegistersNext(t, Affected(t, f), front, f);
  }

  /** `n` is `t` after `f`, with nothing refused and nothing pushed out. */
  ghost predicate Undisturbed(t: Offers.Table, f: Frame, n: Offers.Table) {
    && (if IsCore(f) then
          var r := Offers.RegisterOf(t.providers, About(f));
          n.providers == t.providers[About(f) := Providers.Apply(r, Said(f))]
        else n.providers == t.providers)
    && n.offers.Keys == t.offers.Keys + Hashes({f})
    && (forall hash | hash in n.offers ::
          n.offers[hash].from == if hash in t.offers then t.offers[hash].from else f.author)
  }

  lemma {:induction false} BelowCaps(t: Offers.Table, f: Frame)
    requires Offers.QueueMatches(t) && Offers.Covered(t)
    requires f.body.Offer? && f.body.offer.hash !in t.offers ==>
            Offers.HasQuota(t, f.author) && |t.offers| < Offers.MAX_OFFERS
    ensures Undisturbed(t, f, Affected(t, f))
  {
    if f.body.Offer? {
      OfferBelowCaps(t, f);
    } else {
      assert Hashes({f}) == {};
    }
  }

  lemma {:induction false} OfferBelowCaps(t: Offers.Table, f: Frame)
    requires Offers.QueueMatches(t) && Offers.Covered(t) && f.body.Offer?
    requires f.body.offer.hash !in t.offers ==> Offers.HasQuota(t, f.author) && |t.offers| < Offers.MAX_OFFERS
    ensures Undisturbed(t, f, Affected(t, f))
  {
    var n := Affected(t, f);
    assert Hashes({f}) == {f.body.offer.hash};
    if f.body.offer.hash !in t.offers {
      NewBelowCaps(t, f.author, f.body.offer);
    }
    assert n.offers.Keys == t.offers.Keys + {f.body.offer.hash};
  }

  lemma {:induction false} NewBelowCaps(t: Offers.Table, author: PeerId, offer: Offers.Offer)
    requires Offers.QueueMatches(t) && Offers.Covered(t)
    requires offer.hash !in t.offers && Offers.HasQuota(t, author) && |t.offers| < Offers.MAX_OFFERS
    ensures Offers.Offered(t, author, offer) == Offers.Inserted(Offers.Sighted(t, author, offer.hash), author, offer)
  {
    Offers.InsertedQueue(t, author, offer);
    Offers.FittedDropsOne(Offers.Inserted(Offers.Sighted(t, author, offer.hash), author, offer));
  }

  lemma {:induction false} OffersNext(t: Offers.Table, n: Offers.Table, front: seq<Frame>, f: Frame)
    requires OffersMirror(t, front)
    requires Undisturbed(t, f, n)
    ensures OffersMirror(n, front + [f])
  {
    Offers.ElementsPush(front, f);
    assert Hashes(Elements(front) + {f}) == Hashes(Elements(front)) + Hashes({f});
    forall hash | hash in n.offers
      ensures hash in HashesBy(Elements(front + [f]), n.offers[hash].from)
    {
      if hash !in t.offers {
        assert hash in Hashes({f});
        assert f in Elements(front + [f]);
      }
    }
  }

  lemma {:induction false} RegistersNext(t: Offers.Table, n: Offers.Table, front: seq<Frame>, f: Frame)
    requires RegistersMirror(t, front)
    requires Undisturbed(t, f, n)
    ensures RegistersMirror(n, front + [f])
  {
    forall hash
      ensures Offers.RegisterOf(n.providers, hash) == Settled(front + [f], hash)
    {
      SettledNext(front, f, hash);
      assert Offers.RegisterOf(t.providers, hash) == Settled(front, hash);
    }
  }

  lemma {:induction false} SettledNext(front: seq<Frame>, f: Frame, hash: BlobHash)
    ensures Settled(front + [f], hash) ==
            if Concerns(f, hash) then Providers.Apply(Settled(front, hash), Said(f)) else Settled(front, hash)
  {
    assert (front + [f])[..|front|] == front;
    var said := SaidOf(front, hash);
    if Concerns(f, hash) {
      assert (said + [Said(f)])[..|said|] == said;
    }
  }

  lemma {:induction false} QuotaLeft(t: Offers.Table, front: seq<Frame>, f: Frame, all: set<Frame>)
    requires f.body.Offer? && Elements(front) + {f} <= all && Roomy(all)
    requires Offers.CountsExact(t) && OffersMirror(t, front) && f.body.offer.hash !in t.offers
    ensures Offers.HasQuota(t, f.author)
  {
    var mine := Offers.From(t.offers, {f.author});
    SubsetCount(mine + {f.body.offer.hash}, HashesBy(all, f.author));
    assert Offers.CountAt(t.perAuthor, f.author) == |mine|;
  }

  lemma {:induction false} RoomLeft(t: Offers.Table, front: seq<Frame>, f: Frame, all: set<Frame>)
    requires f.body.Offer? && Elements(front) + {f} <= all && Roomy(all)
    requires OffersMirror(t, front) && f.body.offer.hash !in t.offers
    ensures |t.offers| < Offers.MAX_OFFERS
  {
    SubsetCount(t.offers.Keys + {f.body.offer.hash}, Hashes(all));
    assert |t.offers| == |t.offers.Keys|;
  }

  // ----- Who serves a blob, read off the frames -----

  /** A claim of the peer about the hash. */
  predicate IsClaim(f: Frame, hash: BlobHash, peer: PeerId) {
    f.body.Provider? && f.body.hash == hash && f.author == peer
  }

  /** The peer's last word on the hash: no other claim of it is later, or as late
      with a larger id. */
  ghost predicate IsLastWord(frames: seq<Frame>, f: Frame, hash: BlobHash, peer: PeerId) {
    && f in frames && IsClaim(f, hash, peer)
    && forall g :: g in frames && IsClaim(g, hash, peer) ==>
         g.body.at < f.body.at || (g.body.at == f.body.at && g.id <= f.id)
  }

  /** A peer serves a blob if and only if it offered it or claimed something about
      it, and its last word on it, if any, is not a withdrawal. */
  lemma {:induction false} LiveExactly(frames: seq<Frame>, hash: BlobHash, peer: PeerId)
    requires Roomy(Elements(frames)) && UniqueIds(Elements(frames))
    ensures var r := Offers.RegisterOf(Heard(frames).providers, hash);
            peer in r.providers && !r.providers[peer].withdrawn <==>
            && (exists f :: f in frames && f.author == peer &&
                  ((f.body.Offer? && f.body.offer.hash == hash) || (f.body.Provider? && f.body.hash == hash)))
            && (forall f :: IsLastWord(frames, f, hash, peer) ==> !f.body.withdrawn)
  {
    HeardIs(frames);
    SettledIs(frames, hash, peer);
    var r := Settled(frames, hash);
    assert Offers.RegisterOf(Heard(frames).providers, hash) == r;
    SpokeOf(frames, hash, peer);
    if peer in r.providers {
      WordIsLast(frames, hash, peer);
    }
  }

  lemma {:induction false} SpokeOf(frames: seq<Frame>, hash: BlobHash, peer: PeerId)
    ensures peer in Speakers(Elements(frames), hash) <==>
            exists f :: f in frames && f.author == peer &&
              ((f.body.Offer? && f.body.offer.hash == hash) || (f.body.Provider? && f.body.hash == hash))
  {
    if f :| f in frames && f.author == peer &&
            ((f.body.Offer? && f.body.offer.hash == hash) || (f.body.Provider? && f.body.hash == hash)) {
      assert f in Elements(frames) && Concerns(f, hash);
    }
  }

  /** The word a peer's frames come to is withdrawn exactly if its last word is. */
  lemma {:induction false} WordIsLast(frames: seq<Frame>, hash: BlobHash, peer: PeerId)
    requires UniqueIds(Elements(frames))
    ensures Word(frames, hash, peer).withdrawn <==>
            exists f :: IsLastWord(frames, f, hash, peer) && f.body.withdrawn
  {
    var ops, word := SaidOf(frames, hash), Word(frames, hash, peer);
    Providers.WinnerIsNewest(UNCLAIMED, ops, peer);
    Providers.WinnerWasMade(UNCLAIMED, ops, peer);
    forall f | f in frames && IsClaim(f, hash, peer)
      ensures f.body.at < word.at || (f.body.at == word.at && f.id <= word.frame)
      ensures Providers.Challenges(ops, peer, UNCLAIMED)
    {
      SaidIs(frames, hash, Said(f));
      var k :| 0 <= k < |ops| && ops[k] == Said(f);
      assert Providers.Claims(ops[k], peer);
    }
    if Providers.Challenges(ops, peer, UNCLAIMED) {
      var f := SpokenWord(frames, hash, peer);
      assert IsLastWord(frames, f, hash, peer);
      forall g | IsLastWord(frames, g, hash, peer)
        ensures g == f
      {
        assert f in Elements(frames) && g in Elements(frames);
      }
    }
  }

  /** The frame the winning claim was made in. */
  lemma {:induction false} SpokenWord(frames: seq<Frame>, hash: BlobHash, peer: PeerId) returns (f: Frame)
    requires Providers.Makes(SaidOf(frames, hash), peer, Word(frames, hash, peer))
    ensures f in frames && IsClaim(f, hash, peer)
    ensures Providers.Claim(f.body.at, f.id, f.body.withdrawn) == Word(frames, hash, peer)
  {
    var ops, word := SaidOf(frames, hash), Word(frames, hash, peer);
    var k :| 0 <= k < |ops| && Providers.Claims(ops[k], peer) &&
             word == Providers.Claim(ops[k].at, ops[k].frame, ops[k].withdrawn);
    SaidIs(frames, hash, ops[k]);
    f :| f in frames && Concerns(f, hash) && Said(f) == ops[k];
  }

  // ----- Agreement -----

  /** Offers, and provider claims but for those of `selves`: a session does not
      apply its own. */
  ghost predicate IsNews(f: Frame, selves: set<PeerId>) {
    f.body.Offer? || (f.body.Provider? && f.author !in selves)
  }

  /** `x` and `y` carry the same news. */
  ghost predicate SameNews(x: seq<Frame>, y: seq<Frame>, selves: set<PeerId>) {
    && (forall f :: f in x && IsNews(f, selves) ==> f in y)
    && (forall f :: f in y && IsNews(f, selves) ==> f in x)
  }

  /** The two tables know the same offers, and of everyone but `selves` they
      know the same providers with the same claims. */
  ghost predicate Agree(t: Offers.Table, u: Offers.Table, selves: set<PeerId>) {
    && t.offers.Keys == u.offers.Keys
    && (forall hash, peer :: peer !in selves ==>
        SameProvider(Offers.RegisterOf(t.providers, hash), Offers.RegisterOf(u.providers, hash), peer))
  }

  ghost predicate SameProvider(r: Providers.Register, q: Providers.Register, peer: PeerId) {
    && (peer in r.providers <==> peer in q.providers)
    && Providers.ClaimOf(Providers.InfoOf(r.providers, peer)) == Providers.ClaimOf(Providers.InfoOf(q.providers, peer))
    && (Providers.Live(r, peer) <==> Providers.Live(q, peer))
  }

  /** In plain terms: the same offers, and of everyone but `selves` the same
      providers, live or withdrawn alike, with the same claims. */
  lemma {:induction false} AgreeExactly(t: Offers.Table, u: Offers.Table, selves: set<PeerId>)
    requires Agree(t, u, selves)
    ensures forall hash :: hash in t.offers <==> hash in u.offers
    ensures forall hash, peer :: peer !in selves ==>
              var r, q := Offers.RegisterOf(t.providers, hash), Offers.RegisterOf(u.providers, hash);
              && (peer in r.providers <==> peer in q.providers)
              && (peer in r.providers ==>
                    && r.providers[peer].withdrawn == q.providers[peer].withdrawn
                    && r.providers[peer].announcedAt == q.providers[peer].announcedAt
                    && r.providers[peer].frameId == q.providers[peer].frameId)
  {
    forall hash, peer | peer !in selves
      ensures SameProvider(Offers.RegisterOf(t.providers, hash), Offers.RegisterOf(u.providers, hash), peer)
    {
    }
    forall hash
      ensures hash in t.offers <==> hash in u.offers
    {
      assert hash in t.offers.Keys <==> hash in u.offers.Keys;
    }
  }

  /** Any 64 frames have room: no cap is lower. */
  lemma {:induction false} FewAreRoomy(frames: set<Frame>)
    requires |frames| <= 64
    ensures Roomy(frames)
  {
    HashesAreFew(frames);
    forall author
      ensures |HashesBy(frames, author)| <= Offers.MAX_OFFERS_PER_AUTHOR
    {
      SubsetCount(HashesBy(frames, author), Hashes(frames));
    }
    forall hash
      ensures |Speakers(frames, hash)| <= Providers.MAX_PROVIDERS_PER_BLOB
    {
      SpeakersAreFew(frames, hash);
    }
  }

  lemma {:induction false} HashesAreFew(frames: set<Frame>)
    ensures |Hashes(frames)| <= |frames|
    decreases |frames|
  {
    if frames != {} {
      var f :| f in frames;
      var rest := frames - {f};
      HashesAreFew(rest);
      if f.body.Offer? {
        assert Hashes(frames) == Hashes(rest) + {f.body.offer.hash};
      } else {
        assert Hashes(frames) == Hashes(rest);
      }
    }
  }

  lemma {:induction false} SpeakersAreFew(frames: set<Frame>, hash: BlobHash)
    ensures |Speakers(frames, hash)| <= |frames|
    decreases |frames|
  {
    if frames != {} {
      var f :| f in frames;
      var rest := frames - {f};
      SpeakersAreFew(rest, hash);
      if Concerns(f, hash) {
        assert Speakers(frames, hash) == Speakers(rest, hash) + {f.author};
      } else {
        assert Speakers(frames, hash) == Speakers(rest, hash);
      }
    }
  }

  /** Frames of which no two have one author and one id. */
  lemma {:induction false} ApartAreUnique(frames: seq<Frame>)
    requires forall i, j :: 0 <= i < j < |frames| ==>
               frames[i].author != frames[j].author || frames[i].id != frames[j].id
    ensures UniqueIds(Elements(frames))
  {
    forall f, g | f in Elements(frames) && g in Elements(frames) && f.author == g.author && f.id == g.id
      ensures f == g
    {
      var i :| 0 <= i < |frames| && frames[i] == f;
      var j :| 0 <= j < |frames| && frames[j] == g;
    }
  }

  /** Below the caps the table holds exactly the hashes offered. */
  lemma {:induction false} HeardIs(frames: seq<Frame>)
    requires Roomy(Elements(frames))
    ensures Heard(frames).offers.Keys == Hashes(Elements(frames)) && RegistersMirror(Heard(frames), frames)
  {
    HeardMirrors(frames, Elements(frames));
  }

  /** Sessions that heard the same frames, in whatever order and however often,
      agree on the offers and on the live providers. */
  lemma {:induction false} SessionsConverge(x: seq<Frame>, y: seq<Frame>, selves: set<PeerId>)
    requires Roomy(Elements(x)) && Roomy(Elements(y)) && UniqueIds(Elements(x) + Elements(y))
    requires SameNews(x, y, selves)
    ensures Agree(Heard(x), Heard(y), selves)
  {
    HeardIs(x);
    HeardIs(y);
    HashesWithin(x, y, selves);
    HashesWithin(y, x, selves);
    forall hash, peer | peer !in selves
      ensures SameProvider(Offers.RegisterOf(Heard(x).providers, hash),
                           Offers.RegisterOf(Heard(y).providers, hash), peer)
    {
      RegistersAgree(x, y, selves, hash, peer);
    }
  }

  lemma {:induction false} HashesWithin(x: seq<Frame>, y: seq<Frame>, selves: set<PeerId>)
    requires SameNews(x, y, selves)
    ensures Hashes(Elements(x)) <= Hashes(Elements(y))
  {
    forall hash | hash in Hashes(Elements(x))
      ensures hash in Hashes(Elements(y))
    {
      var f :| f in Elements(x) && f.body.Offer? && f.body.offer.hash == hash;
      assert f in y;
    }
  }

  lemma {:induction false} RegistersAgree(x: seq<Frame>, y: seq<Frame>, selves: set<PeerId>, hash: BlobHash,
                                          peer: PeerId)
    requires Roomy(Elements(x)) && Roomy(Elements(y)) && UniqueIds(Elements(x) + Elements(y))
    requires SameNews(x, y, selves) && peer !in selves
    ensures SameProvider(Settled(x, hash), Settled(y, hash), peer)
  {
    SettledIs(x, hash, peer);
    SettledIs(y, hash, peer);
    SpeaksWithin(x, y, selves, hash, peer);
    SpeaksWithin(y, x, selves, hash, peer);
    WordsAgree(x, y, selves, hash, peer);
  }

  lemma {:induction false} SpeaksWithin(x: seq<Frame>, y: seq<Frame>, selves: set<PeerId>, hash: BlobHash, peer: PeerId)
    requires SameNews(x, y, selves) && peer !in selves
    ensures peer in Speakers(Elements(x), hash) ==> peer in Speakers(Elements(y), hash)
  {
    if peer in Speakers(Elements(x), hash) {
      var f :| f in Elements(x) && Concerns(f, hash) && f.author == peer;
      assert f in y;
    }
  }

  lemma {:induction false} SaidWithin(x: seq<Frame>, y: seq<Frame>, selves: set<PeerId>, hash: BlobHash,
                                      op: Providers.Op)
    requires SameNews(x, y, selves) && op.id !in selves
    ensures op in SaidOf(x, hash) ==> op in SaidOf(y, hash)
  {
    SaidIs(x, hash, op);
    SaidIs(y, hash, op);
    if op in SaidOf(x, hash) {
      var f :| f in x && Concerns(f, hash) && Said(f) == op;
      assert f in y;
    }
  }

  lemma {:induction false} WordsAgree(x: seq<Frame>, y: seq<Frame>, selves: set<PeerId>, hash: BlobHash, peer: PeerId)
    requires UniqueIds(Elements(x) + Elements(y)) && SameNews(x, y, selves) && peer !in selves
    ensures Word(x, hash, peer) == Word(y, hash, peer)
  {
    var sx, sy := SaidOf(x, hash), SaidOf(y, hash);
    forall op | Providers.Claims(op, peer)
      ensures op in sx <==> op in sy
    {
      SaidWithin(x, y, selves, hash, op);
      SaidWithin(y, x, selves, hash, op);
    }
    forall i, j | 0 <= i < |sx| && 0 <= j < |sy| && Providers.Claims(sx[i], peer) &&
            Providers.Claims(sy[j], peer) && sx[i].frame == sy[j].frame
      ensures sx[i] == sy[j]
    {
      SaidIs(x, hash, sx[i]);
      SaidIs(y, hash, sy[j]);
      var f :| f in x && Concerns(f, hash) && Said(f) == sx[i];
      var g :| g in y && Concerns(g, hash) && Said(g) == sy[j];
      assert f in Elements(x) + Elements(y) && g in Elements(x) + Elements(y);
    }
    Providers.WinnerIsOrderFree(UNCLAIMED, sx, sy, peer);
  }

  lemma {:induction false} RoomyWithin(some: set<Frame>, all: set<Frame>)
    requires some <= all && Roomy(all)
    ensures Roomy(some)
  {
    SubsetCount(Hashes(some), Hashes(all));
    forall author
      ensures |HashesBy(some, author)| <= Offers.MAX_OFFERS_PER_AUTHOR
    {
      SubsetCount(HashesBy(some, author), HashesBy(all, author));
    }
    forall hash
      ensures |Speakers(some, hash)| <= Providers.MAX_PROVIDERS_PER_BLOB
    {
      SubsetCount(Speakers(some, hash), Speakers(all, hash));
    }
  }
}
