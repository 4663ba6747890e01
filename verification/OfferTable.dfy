/** The offers one session remembers: a least-recently-seen table with a quota
    per author, a bounded list of names per offer, and a register of providers
    per hash. */
module Offers {
  import opened Common
  import Providers

  const MAX_OFFERS: nat := 4096
  const MAX_OFFERS_PER_AUTHOR: nat := 512
  const MAX_ALIASES_PER_OFFER: nat := 16
  const MAX_KNOWN_PEERS: nat := 1024

  datatype Offer = Offer(hash: BlobHash, name: string, size: nat)

  /** The first accepted offer of a hash, and every name it was offered under. */
  datatype Record = Record(offer: Offer, from: PeerId, aliases: set<string>)

  type Records = map<BlobHash, Record>
  type Registers = map<BlobHash, Providers.Register>

  datatype Outcome = New(evicted: seq<BlobHash>) | Known | QuotaExceeded

  /** `order` lists the hashes least recently seen first. */
  datatype Table = Table(offers: Records, order: seq<BlobHash>, perAuthor: map<PeerId, nat>, providers: Registers)

  const EMPTY := Table(map[], [], map[], map[])

  // ----- The operations, on values -----

  /** `s` without the first occurrence of `x`. */
  function Without<T(==)>(s: seq<T>, x: T): seq<T> {
    if s == [] then []
    else if s[0] == x then s[1..]
    else [s[0]] + Without(s[1..], x)
  }

  function Touched<T(==)>(s: seq<T>, x: T): seq<T> {
    Without(s, x) + [x]
  }

  function CountAt(perAuthor: map<PeerId, nat>, author: PeerId): nat {
    if author in perAuthor then perAuthor[author] else 0
  }

  function Debited(perAuthor: map<PeerId, nat>, author: PeerId): map<PeerId, nat> {
    if author !in perAuthor then perAuthor
    else if perAuthor[author] <= 1 then perAuthor - {author}
    else perAuthor[author := perAuthor[author] - 1]
  }

  function RegisterOf(providers: Registers, hash: BlobHash): Providers.Register {
    if hash in providers then providers[hash] else Providers.NOBODY
  }

  predicate HasQuota(t: Table, author: PeerId) {
    CountAt(t.perAuthor, author) < MAX_OFFERS_PER_AUTHOR
  }

  predicate Accepts(t: Table, from: PeerId, offer: Offer) {
    offer.hash in t.offers || HasQuota(t, from)
  }

  /** The least recently seen offer leaves, with all that hangs on it. */
  function Popped(t: Table): Table
    requires t.order != []
  {
    var oldest := t.order[0];
    if oldest in t.offers then
      Table(t.offers - {oldest}, t.order[1..], Debited(t.perAuthor, t.offers[oldest].from), t.providers - {oldest})
    else t.(order := t.order[1..])
  }

  predicate Overfull(t: Table) {
    |t.offers| > MAX_OFFERS && t.order != []
  }

  function Fitted(t: Table): Table
    decreases |t.order|
  {
    if Overfull(t) then Fitted(Popped(t)) else t
  }

  /** The hashes fitting forgets, least recently seen first. */
  function Forgotten(t: Table): seq<BlobHash>
    decreases |t.order|
  {
    if !Overfull(t) then []
    else if t.order[0] in t.offers then [t.order[0]] + Forgotten(Popped(t))
    else Forgotten(Popped(t))
  }

  /** A sighting: the author is taken to serve the hash, the hash is now the
      most recently seen. */
  function Sighted(t: Table, from: PeerId, hash: BlobHash): Table {
    t.(order := Touched(t.order, hash),
       providers := t.providers[hash := Providers.Added(RegisterOf(t.providers, hash), from, true)])
  }

  function Renamed(r: Record, name: string): Record {
    if |r.aliases| < MAX_ALIASES_PER_OFFER then r.(aliases := r.aliases + {name}) else r
  }

  function Inserted(t: Table, from: PeerId, offer: Offer): Table {
    t.(offers := t.offers[offer.hash := Record(offer, from, {offer.name})],
       perAuthor := t.perAuthor[from := CountAt(t.perAuthor, from) + 1])
  }

  function Offered(t: Table, from: PeerId, offer: Offer): Table {
    if !Accepts(t, from, offer) then t
    else if offer.hash in t.offers then
      Sighted(t, from, offer.hash).(offers := t.offers[offer.hash := Renamed(t.offers[offer.hash], offer.name)])
    else Fitted(Inserted(Sighted(t, from, offer.hash), from, offer))
  }

  function OutcomeOf(t: Table, from: PeerId, offer: Offer): Outcome {
    if !Accepts(t, from, offer) then QuotaExceeded
    else if offer.hash in t.offers then Known
    else New(Forgotten(Inserted(Sighted(t, from, offer.hash), from, offer)))
  }

  /** A peer's assertion about itself reaches the register of its hash. */
  ghost function Claimed(t: Table, hash: BlobHash, op: Providers.Op): Table {
    t.(providers := t.providers[hash := Providers.Apply(RegisterOf(t.providers, hash), op)])
  }

  // ----- The peers known, on values -----

  datatype Peers = Peers(known: set<PeerId>, order: seq<PeerId>)

  function Bounded(p: Peers): Peers
    decreases |p.order|
  {
    if |p.order| <= MAX_KNOWN_PEERS then p else Bounded(Peers(p.known - {p.order[0]}, p.order[1..]))
  }

  function Noted(p: Peers, peer: PeerId): Peers {
    if peer in p.known then p else Bounded(Peers(p.known + {peer}, p.order + [peer]))
  }

  function Met(p: Peers, peer: PeerId): Peers {
    p.(known := p.known + {peer})
  }

  class OfferTable {
    var offers: Records
    var offerOrder: seq<BlobHash>
    var offersPerAuthor: map<PeerId, nat>
    var providers: Registers
    var knownPeers: set<PeerId>
    var peerOrder: seq<PeerId>

    ghost function Value(): Table
      reads this
    {
      Table(offers, offerOrder, offersPerAuthor, providers)
    }

    ghost function Known(): Peers
      reads this
    {
      Peers(knownPeers, peerOrder)
    }

    constructor ()
      ensures Value() == EMPTY && Known() == Peers({}, [])
    {
      offers, offerOrder, offersPerAuthor, providers := map[], [], map[], map[];
      knownPeers, peerOrder := {}, [];
    }

    method NotePeer(peer: PeerId)
      modifies this`knownPeers, this`peerOrder
      ensures Known() == Noted(old(Known()), peer)
      ensures Value() == old(Value())
    {
      if peer in knownPeers {
        return;
      }
      knownPeers := knownPeers + {peer};
      peerOrder := peerOrder + [peer];
      ghost var noted := Known();
      while |peerOrder| > MAX_KNOWN_PEERS
        invariant Bounded(Known()) == Bounded(noted)
      {
        var oldest := peerOrder[0];
        peerOrder := peerOrder[1..];
        knownPeers := knownPeers - {oldest};
      }
    }

    /** A neighbor came up: it is known, but queued for nothing. */
    method NeighborUp(peer: PeerId)
      modifies this`knownPeers
      ensures Known() == Met(old(Known()), peer)
      ensures knownPeers == old(knownPeers) + {peer} && peerOrder == old(peerOrder)
    {
      knownPeers := knownPeers + {peer};
    }

    method TouchOffer(hash: BlobHash)
      modifies this`offerOrder
      ensures offerOrder == Touched(old(offerOrder), hash)
    {
      var pos := 0;
      while pos < |offerOrder| && offerOrder[pos] != hash
        invariant pos <= |offerOrder|
        invariant forall j :: 0 <= j < pos ==> offerOrder[j] != hash
      {
        pos := pos + 1;
      }
      if pos < |offerOrder| {
        WithoutFirst(offerOrder, hash, pos);
        offerOrder := offerOrder[..pos] + offerOrder[pos + 1..];
      } else {
        WithoutAbsent(offerOrder, hash);
      }
      offerOrder := offerOrder + [hash];
    }

    method AuthorHasQuota(author: PeerId) returns (ok: bool)
      ensures ok == HasQuota(Value(), author)
    {
      var count := 0;
      if author in offersPerAuthor {
        count := offersPerAuthor[author];
      }
      ok := count < MAX_OFFERS_PER_AUTHOR;
    }

    /** One offer fewer for `author`; nobody stays counted at zero. */
    method Debit(author: PeerId)
      modifies this`offersPerAuthor
      ensures offersPerAuthor == Debited(old(offersPerAuthor), author)
    {
      if author in offersPerAuthor {
        var count: int := offersPerAuthor[author];
        count := Max(count - 1, 0);
        if count == 0 {
          offersPerAuthor := offersPerAuthor - {author};
        } else {
          offersPerAuthor := offersPerAuthor[author := count];
        }
      }
    }

    method EnforceOfferCap() returns (evicted: seq<BlobHash>)
      modifies this`offers, this`offerOrder, this`offersPerAuthor, this`providers
      ensures Value() == Fitted(old(Value()))
      ensures evicted == Forgotten(old(Value()))
    {
      evicted := [];
      while |offers| > MAX_OFFERS && offerOrder != []
        invariant Fitted(Value()) == Fitted(old(Value()))
        invariant Forgotten(old(Value())) == evicted + Forgotten(Value())
        decreases |offerOrder|
      {
        ForgottenNext(Value(), evicted);
        var oldest := offerOrder[0];
        offerOrder := offerOrder[1..];
        if oldest in offers {
          var author := offers[oldest].from;
          offers := offers - {oldest};
          Debit(author);
          providers := providers - {oldest};
          evicted := evicted + [oldest];
        }
      }
    }

    method RecordOfferInner(from: PeerId, offer: Offer) returns (outcome: Outcome)
      modifies this`offers, this`offerOrder, this`offersPerAuthor, this`providers
      ensures Value() == Offered(old(Value()), from, offer)
      ensures outcome == OutcomeOf(old(Value()), from, offer)
      ensures Known() == old(Known())
    {
      var hash := offer.hash;
      var known := hash in offers;
      var quota := AuthorHasQuota(from);
      if !known && !quota {
        return QuotaExceeded;
      }
      providers := providers[hash := Providers.Added(RegisterOf(providers, hash), from, true)];
      TouchOffer(hash);
      if known {
        offers := offers[hash := Renamed(offers[hash], offer.name)];
        return Outcome.Known;
      }
      offers := offers[hash := Record(offer, from, {offer.name})];
      offersPerAuthor := offersPerAuthor[from := CountAt(offersPerAuthor, from) + 1];
      var evicted := EnforceOfferCap();
      return New(evicted);
    }

    /** A peer says of itself that it serves the hash, or no longer does. */
    method RecordProvider(hash: BlobHash, peer: PeerId, at: nat, frame: FrameId, withdrawn: bool)
                          returns (changed: bool)
      modifies this`providers
      ensures Value() == Claimed(old(Value()), hash, Providers.Assert(peer, at, frame, withdrawn))
      ensures changed <==> Providers.Changes(RegisterOf(old(providers), hash), peer, at, frame, withdrawn)
      ensures Known() == old(Known())
      ensures providers.Keys == old(providers).Keys + {hash}
      ensures forall other :: other in old(providers) && other != hash ==> providers[other] == old(providers)[other]
    {
      var known := new Providers.ProviderSet.Of(RegisterOf(providers, hash));
      changed := known.Record(peer, at, frame, withdrawn);
      providers := providers[hash := Providers.Register(known.original, known.providers)];
    }

    method RecordOfferBounded(from: PeerId, offer: Offer) returns (outcome: Outcome)
      modifies this
      ensures Value() == Offered(old(Value()), from, offer)
      ensures outcome == OutcomeOf(old(Value()), from, offer)
      ensures Known() == Noted(old(Known()), from)
    {
      NotePeer(from);
      outcome := RecordOfferInner(from, offer);
    }
  }

  lemma {:induction false} ForgottenNext(t: Table, before: seq<BlobHash>)
    requires Overfull(t)
    ensures Fitted(t) == Fitted(Popped(t))
    ensures before + Forgotten(t) ==
            (if t.order[0] in t.offers then before + [t.order[0]] else before) + Forgotten(Popped(t))
  {
    var rest := Forgotten(Popped(t));
    assert before + ([t.order[0]] + rest) == (before + [t.order[0]]) + rest;
  }

  // ----- Taking one element out of a sequence -----

  ghost predicate NoRepeat<T>(s: seq<T>) {
    forall i, j :: 0 <= i < j < |s| ==> s[i] != s[j]
  }

  lemma {:induction false} WithoutAbsent<T>(s: seq<T>, x: T)
    requires x !in s
    ensures Without(s, x) == s
  {
    if s != [] {
      WithoutAbsent(s[1..], x);
    }
  }

  lemma {:induction false} WithoutFirst<T>(s: seq<T>, x: T, i: nat)
    requires i < |s| && s[i] == x
    requires forall j :: 0 <= j < i ==> s[j] != x
    ensures Without(s, x) == s[..i] + s[i + 1..]
  {
    if i > 0 {
      WithoutFirst(s[1..], x, i - 1);
      assert s[..i] == [s[0]] + s[1..][..i - 1];
      assert s[1..][i..] == s[i + 1..];
    }
  }

  lemma {:induction false} ElementsPush<T>(s: seq<T>, x: T)
    ensures Elements(s + [x]) == Elements(s) + {x}
  {
  }

  lemma {:induction false} ElementsCut<T>(s: seq<T>, i: nat)
    requires i < |s|
    ensures Elements(s[..i] + s[i + 1..]) + {s[i]} == Elements(s)
  {
    assert s == s[..i] + [s[i]] + s[i + 1..];
  }

  lemma {:induction false} PushedApart<T>(s: seq<T>, x: T)
    requires NoRepeat(s) && x !in s
    ensures NoRepeat(s + [x])
  {
  }

  lemma {:induction false} CutApart<T>(s: seq<T>, i: nat)
    requires NoRepeat(s) && i < |s|
    ensures NoRepeat(s[..i] + s[i + 1..]) && s[i] !in s[..i] + s[i + 1..]
  {
  }

  lemma {:induction false} TouchedKeeps<T>(s: seq<T>, x: T)
    requires NoRepeat(s)
    ensures NoRepeat(Touched(s, x))
    ensures Elements(Touched(s, x)) == Elements(s) + {x}
    ensures |Touched(s, x)| == if x in s then |s| else |s| + 1
  {
    ElementsPush(Without(s, x), x);
    if x in s {
      var i :| 0 <= i < |s| && s[i] == x;
      WithoutFirst(s, x, i);
      CutApart(s, i);
      ElementsCut(s, i);
    } else {
      WithoutAbsent(s, x);
    }
    PushedApart(Without(s, x), x);
  }

  /** A touch adds the touched element behind every other one. */
  lemma {:induction false} TouchedTail<T>(s: seq<T>, x: T, i: nat) returns (j: nat)
    requires NoRepeat(s) && i + 1 < |Touched(s, x)|
    ensures j < |s| && s[j] == Touched(s, x)[i] && s[j] != x
    ensures Elements(Touched(s, x)[i + 1..]) == Elements(s[j + 1..]) + {x}
  {
    if x in s {
      var p :| 0 <= p < |s| && s[p] == x;
      WithoutFirst(s, x, p);
      j := MovedTail(s, p, i);
    } else {
      j := i;
      WithoutAbsent(s, x);
      PushToTail(s, x, i + 1);
      ElementsPush(s[i + 1..], x);
    }
  }

  lemma {:induction false} MovedTail<T>(s: seq<T>, p: nat, i: nat) returns (j: nat)
    requires NoRepeat(s) && p < |s| && i + 1 < |s|
    ensures j < |s| && j != p && s[j] == (s[..p] + s[p + 1..] + [s[p]])[i]
    ensures Elements((s[..p] + s[p + 1..] + [s[p]])[i + 1..]) == Elements(s[j + 1..]) + {s[p]}
  {
    j := if i < p then i else i + 1;
    if i < p {
      TailAcross(s, p, i + 1);
    } else {
      CutBefore(s, p, i + 1, s[p]);
      ElementsPush(s[i + 2..], s[p]);
    }
  }

  lemma {:induction false} TailAcross<T>(s: seq<T>, p: nat, k: nat)
    requires k <= p < |s|
    ensures Elements((s[..p] + s[p + 1..] + [s[p]])[k..]) == Elements(s[k..]) + {s[p]}
  {
    CutAfter(s, p, k, s[p]);
    ElementsPush(s[k..][..p - k] + s[k..][p - k + 1..], s[p]);
    ElementsCut(s[k..], p - k);
  }

  lemma {:induction false} CutBefore<T>(s: seq<T>, i: nat, k: nat, x: T)
    requires i < k < |s|
    ensures (s[..i] + s[i + 1..] + [x])[k..] == s[k + 1..] + [x]
  {
  }

  lemma {:induction false} CutAfter<T>(s: seq<T>, i: nat, k: nat, x: T)
    requires k <= i < |s|
    ensures (s[..i] + s[i + 1..] + [x])[k..] == s[k..][..i - k] + s[k..][i - k + 1..] + [x]
  {
  }

  // ----- What every operation keeps -----

  /** The hashes first seen from authors in `authors`. */
  function From(offers: Records, authors: set<PeerId>): set<BlobHash> {
    set hash | hash in offers && offers[hash].from in authors
  }

  ghost predicate QueueMatches(t: Table) {
    NoRepeat(t.order) && Elements(t.order) == t.offers.Keys
  }

  /** Every author's count is exact, and nobody is counted at zero. */
  ghost predicate CountsExact(t: Table) {
    && (forall author :: CountAt(t.perAuthor, author) == |From(t.offers, {author})|)
    && (forall author :: author in t.perAuthor ==> t.perAuthor[author] > 0)
  }

  ghost predicate WithinQuota(t: Table) {
    forall author :: CountAt(t.perAuthor, author) <= MAX_OFFERS_PER_AUTHOR
  }

  ghost predicate Covered(t: Table) {
    forall hash :: hash in t.offers ==> hash in t.providers
  }

  ghost predicate NamesKept(t: Table) {
    forall hash :: hash in t.offers ==> WellNamed(hash, t.offers[hash])
  }

  ghost predicate WellNamed(hash: BlobHash, r: Record) {
    r.offer.hash == hash && r.offer.name in r.aliases && |r.aliases| <= MAX_ALIASES_PER_OFFER
  }

  /** What holds of the table even while it is one over its cap. */
  ghost predicate Coherent(t: Table) {
    QueueMatches(t) && CountsExact(t) && WithinQuota(t) && Covered(t) && NamesKept(t)
  }

  ghost predicate Sound(t: Table) {
    Coherent(t) && |t.offers| <= MAX_OFFERS
  }

  /** In plain terms: the queue lists the hashes of the table once each, every
      author's count is the number of its offers, at least one and at most 512,
      every hash has a register, and every record has its own hash and name and at
      most 16 names; and there are at most 4096. */
  lemma {:induction false} SoundExactly(t: Table)
    ensures Sound(t) <==>
            && (forall i, j :: 0 <= i < j < |t.order| ==> t.order[i] != t.order[j])
            && (forall hash :: hash in t.order <==> hash in t.offers) && |t.offers| <= 4096
            && (forall author ::
                  && (if author in t.perAuthor then t.perAuthor[author] else 0) == |From(t.offers, {author})|
                  && (author in t.perAuthor ==> 0 < t.perAuthor[author] <= 512))
            && (forall hash :: hash in t.offers ==>
                  var r := t.offers[hash];
                  hash in t.providers && r.offer.hash == hash && r.offer.name in r.aliases && |r.aliases| <= 16)
  {
    assert Elements(t.order) == t.offers.Keys <==> forall hash :: hash in t.order <==> hash in t.offers by {
      assert forall hash :: hash in Elements(t.order) <==> hash in t.order;
      assert forall hash :: hash in t.offers.Keys <==> hash in t.offers;
    }
  }

  lemma {:induction false} QueueLength(t: Table)
    requires QueueMatches(t)
    ensures |t.order| == |t.offers|
  {
    DistinctCount(t.order);
  }

  lemma {:induction false} FromRemoved(offers: Records, gone: BlobHash, authors: set<PeerId>)
    requires gone in offers
    ensures |From(offers - {gone}, authors)| ==
            |From(offers, authors)| - (if offers[gone].from in authors then 1 else 0)
  {
    if offers[gone].from in authors {
      assert From(offers, authors) == From(offers - {gone}, authors) + {gone};
    } else {
      assert From(offers, authors) == From(offers - {gone}, authors);
    }
  }

  lemma {:induction false} FromInserted(offers: Records, hash: BlobHash, r: Record, authors: set<PeerId>)
    requires hash !in offers
    ensures |From(offers[hash := r], authors)| == |From(offers, authors)| + (if r.from in authors then 1 else 0)
  {
    if r.from in authors {
      assert From(offers[hash := r], authors) == From(offers, authors) + {hash};
    } else {
      assert From(offers[hash := r], authors) == From(offers, authors);
    }
  }

  lemma {:induction false} PoppedQueue(t: Table)
    requires QueueMatches(t) && t.order != []
    ensures QueueMatches(Popped(t))
    ensures t.order[0] in t.offers && |Popped(t).offers| == |t.offers| - 1
  {
    assert t.order == [t.order[0]] + t.order[1..];
    assert t.order[0] in t.order;
    assert Popped(t).offers.Keys == t.offers.Keys - {t.order[0]};
  }

  lemma {:induction false} PoppedCounts(t: Table)
    requires CountsExact(t) && WithinQuota(t) && t.order != [] && t.order[0] in t.offers
    ensures CountsExact(Popped(t)) && WithinQuota(Popped(t))
  {
    var p := Popped(t);
    var oldest := t.order[0];
    assert oldest in From(t.offers, {t.offers[oldest].from});
    forall author
      ensures CountAt(p.perAuthor, author) == |From(p.offers, {author})|
      ensures CountAt(p.perAuthor, author) <= MAX_OFFERS_PER_AUTHOR
    {
      FromRemoved(t.offers, oldest, {author});
      assert CountAt(t.perAuthor, author) <= MAX_OFFERS_PER_AUTHOR;
      assert CountAt(t.perAuthor, author) == |From(t.offers, {author})|;
    }
  }

  lemma {:induction false} PoppedIsCoherent(t: Table)
    requires Coherent(t) && t.order != []
    ensures Coherent(Popped(t)) && t.order[0] in t.offers && |Popped(t).offers| == |t.offers| - 1
  {
    PoppedQueue(t);
    PoppedCounts(t);
  }

  /** Fitting a table one over its cap drops the least recently seen offer. */
  lemma {:induction false} FittedDropsOne(t: Table)
    requires QueueMatches(t) && |t.offers| <= MAX_OFFERS + 1
    ensures |t.offers| <= MAX_OFFERS ==> Fitted(t) == t && Forgotten(t) == []
    ensures |t.offers| > MAX_OFFERS ==> t.order != [] && Fitted(t) == Popped(t) && Forgotten(t) == [t.order[0]]
  {
    if |t.offers| > MAX_OFFERS {
      QueueLength(t);
      PoppedQueue(t);
      assert !Overfull(Popped(t));
    }
  }

  lemma {:induction false} FittedIsSound(t: Table)
    requires Coherent(t) && |t.offers| <= MAX_OFFERS + 1
    ensures Sound(Fitted(t))
  {
    FittedDropsOne(t);
    if |t.offers| > MAX_OFFERS {
      PoppedIsCoherent(t);
    }
  }

  lemma {:induction false} InsertedCounts(t: Table, from: PeerId, offer: Offer)
    requires CountsExact(t) && WithinQuota(t) && offer.hash !in t.offers && HasQuota(t, from)
    ensures CountsExact(Inserted(t, from, offer)) && WithinQuota(Inserted(t, from, offer))
  {
    var n := Inserted(t, from, offer);
    forall author
      ensures CountAt(n.perAuthor, author) == |From(n.offers, {author})|
      ensures CountAt(n.perAuthor, author) <= MAX_OFFERS_PER_AUTHOR
    {
      FromInserted(t.offers, offer.hash, Record(offer, from, {offer.name}), {author});
      assert CountAt(t.perAuthor, author) <= MAX_OFFERS_PER_AUTHOR;
      assert CountAt(t.perAuthor, author) == |From(t.offers, {author})|;
    }
  }

  lemma {:induction false} InsertedIsCoherent(t: Table, from: PeerId, offer: Offer)
    requires Coherent(t) && offer.hash !in t.offers && HasQuota(t, from)
    ensures Coherent(Inserted(Sighted(t, from, offer.hash), from, offer))
    ensures |Inserted(Sighted(t, from, offer.hash), from, offer).offers| == |t.offers| + 1
  {
    var seen := Sighted(t, from, offer.hash);
    var n := Inserted(seen, from, offer);
    InsertedCounts(seen, from, offer);
    InsertedQueue(t, from, offer);
    InsertedNames(seen, from, offer);
  }

  lemma {:induction false} InsertedQueue(t: Table, from: PeerId, offer: Offer)
    requires QueueMatches(t) && Covered(t) && offer.hash !in t.offers
    ensures QueueMatches(Inserted(Sighted(t, from, offer.hash), from, offer))
    ensures Covered(Inserted(Sighted(t, from, offer.hash), from, offer))
    ensures |Inserted(Sighted(t, from, offer.hash), from, offer).offers| == |t.offers| + 1
  {
    TouchedKeeps(t.order, offer.hash);
    assert t.offers[offer.hash := Record(offer, from, {offer.name})].Keys == t.offers.Keys + {offer.hash};
  }

  lemma {:induction false} InsertedNames(t: Table, from: PeerId, offer: Offer)
    requires NamesKept(t)
    ensures NamesKept(Inserted(t, from, offer))
  {
    assert |{offer.name}| == 1;
  }

  lemma {:induction false} RenamedIsCoherent(t: Table, from: PeerId, offer: Offer)
    requires Coherent(t) && offer.hash in t.offers
    ensures Coherent(Offered(t, from, offer))
    ensures Offered(t, from, offer).offers.Keys == t.offers.Keys
  {
    var n := Offered(t, from, offer);
    RenamedQueue(t, from, offer);
    RenamedCounts(t, n);
    RenamedKeepsName(offer.hash, t.offers[offer.hash], offer.name);
    assert NamesKept(n);
  }

  lemma {:induction false} RenamedQueue(t: Table, from: PeerId, offer: Offer)
    requires QueueMatches(t) && Covered(t) && offer.hash in t.offers
    ensures QueueMatches(Offered(t, from, offer)) && Covered(Offered(t, from, offer))
    ensures Offered(t, from, offer).offers.Keys == t.offers.Keys
  {
    TouchedKeeps(t.order, offer.hash);
    var n := Offered(t, from, offer);
    assert n.offers.Keys == t.offers.Keys;
    assert Elements(n.order) == t.offers.Keys + {offer.hash} == t.offers.Keys;
  }

  lemma {:induction false} RenamedCounts(t: Table, n: Table)
    requires CountsExact(t) && WithinQuota(t) && n.perAuthor == t.perAuthor
    requires n.offers.Keys == t.offers.Keys
    requires forall hash :: hash in t.offers ==> n.offers[hash].from == t.offers[hash].from
    ensures CountsExact(n) && WithinQuota(n)
  {
    forall author
      ensures From(n.offers, {author}) == From(t.offers, {author})
    {
    }
  }

  lemma {:induction false} RenamedKeepsName(hash: BlobHash, r: Record, name: string)
    requires WellNamed(hash, r)
    ensures WellNamed(hash, Renamed(r, name))
  {
    if name !in r.aliases {
      assert |r.aliases + {name}| == |r.aliases| + 1;
    } else {
      assert r.aliases + {name} == r.aliases;
    }
  }

  /** An offer keeps the table sound; a new one forgets at most the least
      recently seen offer, and never itself. */
  lemma {:induction false} OfferedIsSound(t: Table, from: PeerId, offer: Offer)
    requires Sound(t)
    ensures Sound(Offered(t, from, offer))
    ensures Accepts(t, from, offer) ==> offer.hash in Offered(t, from, offer).offers
    ensures OutcomeOf(t, from, offer).New? ==>
              OutcomeOf(t, from, offer).evicted == if |t.offers| == MAX_OFFERS then [t.order[0]] else []
    ensures Offered(t, from, offer).order ==
            if Accepts(t, from, offer) then Latest(Touched(t.order, offer.hash), MAX_OFFERS) else t.order
  {
    if Accepts(t, from, offer) {
      if offer.hash in t.offers {
        KnownIsSound(t, from, offer);
      } else {
        NewIsSound(t, from, offer);
      }
    }
    QueueLength(t);
  }

  lemma {:induction false} KnownIsSound(t: Table, from: PeerId, offer: Offer)
    requires Sound(t) && offer.hash in t.offers
    ensures Sound(Offered(t, from, offer)) && offer.hash in Offered(t, from, offer).offers
    ensures Offered(t, from, offer).order == Latest(Touched(t.order, offer.hash), MAX_OFFERS)
  {
    RenamedIsCoherent(t, from, offer);
    QueueLength(Offered(t, from, offer));
    assert |Offered(t, from, offer).offers| == |Offered(t, from, offer).offers.Keys| == |t.offers.Keys|;
  }

  lemma {:induction false} NewIsSound(t: Table, from: PeerId, offer: Offer)
    requires Sound(t) && offer.hash !in t.offers && HasQuota(t, from)
    ensures Sound(Offered(t, from, offer)) && offer.hash in Offered(t, from, offer).offers
    ensures OutcomeOf(t, from, offer) == New(if |t.offers| == MAX_OFFERS then [t.order[0]] else [])
    ensures Offered(t, from, offer).order == Latest(Touched(t.order, offer.hash), MAX_OFFERS)
  {
    InsertedIsCoherent(t, from, offer);
    FittedIsSound(Inserted(Sighted(t, from, offer.hash), from, offer));
    NewIsLast(t, from, offer);
  }

  lemma {:induction false} NewIsLast(t: Table, from: PeerId, offer: Offer)
    requires QueueMatches(t) && Covered(t) && |t.offers| <= MAX_OFFERS && offer.hash !in t.offers && HasQuota(t, from)
    ensures offer.hash in Offered(t, from, offer).offers
    ensures OutcomeOf(t, from, offer) == New(if |t.offers| == MAX_OFFERS then [t.order[0]] else [])
    ensures Offered(t, from, offer).order == Latest(Touched(t.order, offer.hash), MAX_OFFERS)
  {
    var n := Inserted(Sighted(t, from, offer.hash), from, offer);
    InsertedQueue(t, from, offer);
    FittedDropsOne(n);
    QueueLength(t);
    NewOrder(t, offer.hash);
    PushLatest(t.order, offer.hash, MAX_OFFERS);
    OldestIsOld(t, offer.hash);
    QueueMoves(t.order, offer.hash);
    assert n.order == t.order + [offer.hash];
    if |t.offers| == MAX_OFFERS {
      assert Offered(t, from, offer) == Popped(n);
    } else {
      assert Offered(t, from, offer) == n;
    }
  }

  lemma {:induction false} QueueMoves(order: seq<BlobHash>, hash: BlobHash)
    ensures order != [] ==> (order + [hash])[0] == order[0] && (order + [hash])[1..] == order[1..] + [hash]
  {
  }

  lemma {:induction false} OldestIsOld(t: Table, hash: BlobHash)
    requires QueueMatches(t) && hash !in t.offers
    ensures t.order != [] ==> t.order[0] != hash
  {
    assert t.order != [] ==> t.order[0] in Elements(t.order);
  }

  lemma {:induction false} NewOrder(t: Table, hash: BlobHash)
    requires QueueMatches(t) && hash !in t.offers
    ensures Touched(t.order, hash) == t.order + [hash]
  {
    assert hash !in Elements(t.order);
    WithoutAbsent(t.order, hash);
  }

  lemma {:induction false} PushLatest<T>(s: seq<T>, x: T, n: nat)
    requires |s| <= n
    ensures Latest(s + [x], n) == if |s| < n then s + [x] else (s + [x])[1..]
    ensures s != [] ==> (s + [x])[0] == s[0]
  {
  }

  function Latest<T>(s: seq<T>, n: nat): seq<T> {
    if |s| <= n then s else s[|s| - n..]
  }

  // ----- One offer, case by case -----

  /** What a sighting makes of the registers: the author joins the one of the hash,
      as the original if there is none, and no other register changes. */
  ghost predicate SightedAs(before: Registers, after: Registers, from: PeerId, hash: BlobHash)
  {
    var was := if hash in before then before[hash] else Providers.Register(None, map[]);
    && hash in after
    && after[hash].original == (if was.original.None? then Some(from) else was.original)
    && after[hash].providers.Keys == was.providers.Keys + {from}
    && (forall p :: p in was.providers ==> after[hash].providers[p] == was.providers[p])
    && (from !in was.providers ==> after[hash].providers[from] == Providers.Info(0, false, 0, 0, false))
    && (forall other :: other in after && other != hash ==> other in before && after[other] == before[other])
  }

  /** An offer is refused, and changes nothing, if and only if its hash is unknown
      and its author already has 512 offers in the table. */
  lemma {:induction false} RefusedOverQuota(t: Table, from: PeerId, offer: Offer)
    requires Sound(t)
    ensures OutcomeOf(t, from, offer) == QuotaExceeded <==>
            offer.hash !in t.offers && |set hash | hash in t.offers && t.offers[hash].from == from| >= 512
    ensures OutcomeOf(t, from, offer) == QuotaExceeded ==> Offered(t, from, offer) == t
  {
    assert (set hash | hash in t.offers && t.offers[hash].from == from) == From(t.offers, {from});
    assert CountAt(t.perAuthor, from) == |From(t.offers, {from})|;
  }

  /** An offer of a known hash moves the hash to the back of the queue and adds
      its name while there are fewer than 16; the first offer stays. */
  lemma {:induction false} KnownOfferIs(t: Table, from: PeerId, offer: Offer)
    requires offer.hash in t.offers
    ensures OutcomeOf(t, from, offer) == Outcome.Known
    ensures var n, was := Offered(t, from, offer), t.offers[offer.hash];
            && n.offers.Keys == t.offers.Keys && n.perAuthor == t.perAuthor
            && (forall hash :: hash in t.offers && hash != offer.hash ==> n.offers[hash] == t.offers[hash])
            && n.offers[offer.hash].offer == was.offer && n.offers[offer.hash].from == was.from
            && n.offers[offer.hash].aliases == (if |was.aliases| < 16 then was.aliases + {offer.name} else was.aliases)
    ensures var n := Offered(t, from, offer);
            SightedAs(t.providers, n.providers, from, offer.hash) &&
            n.providers.Keys == t.providers.Keys + {offer.hash}
    ensures forall i :: 0 <= i < |t.order| && t.order[i] == offer.hash && offer.hash !in t.order[..i] ==>
              Offered(t, from, offer).order == t.order[..i] + t.order[i + 1..] + [offer.hash]
  {
    AddedAs(t.providers, from, offer.hash);
    forall i | 0 <= i < |t.order| && t.order[i] == offer.hash && offer.hash !in t.order[..i]
      ensures Offered(t, from, offer).order == t.order[..i] + t.order[i + 1..] + [offer.hash]
    {
      assert forall j :: 0 <= j < i ==> t.order[j] == t.order[..i][j];
      WithoutFirst(t.order, offer.hash, i);
    }
  }

  lemma {:induction false} AddedAs(registers: Registers, from: PeerId, hash: BlobHash)
    ensures var after := registers[hash := Providers.Added(RegisterOf(registers, hash), from, true)];
            SightedAs(registers, after, from, hash) && after.Keys == registers.Keys + {hash}
  {
    var was := if hash in registers then registers[hash] else Providers.Register(None, map[]);
    assert RegisterOf(registers, hash) == was;
  }

  /** Between sighting and fitting: recorded under one name, and queued last. */
  lemma {:induction false} InsertedIs(t: Table, from: PeerId, offer: Offer)
    requires QueueMatches(t) && offer.hash !in t.offers
    ensures var n := Inserted(Sighted(t, from, offer.hash), from, offer);
            && n.offers == t.offers[offer.hash := Record(offer, from, {offer.name})] && |n.offers| == |t.offers| + 1
            && n.order == t.order + [offer.hash]
            && n.providers ==
               t.providers[offer.hash := Providers.Added(RegisterOf(t.providers, offer.hash), from, true)]
  {
    NewIsQueued(t, from, offer);
    assert t.offers[offer.hash := Record(offer, from, {offer.name})].Keys == t.offers.Keys + {offer.hash};
  }

  /** What leaves with the offer seen longest ago. */
  lemma {:induction false} PoppedExactly(t: Table)
    requires t.order != [] && t.order[0] in t.offers
    ensures var n := Popped(t);
            && n.order == t.order[1..]
            && n.offers == (map hash | hash in t.offers && hash != t.order[0] :: t.offers[hash])
            && n.providers == (map hash | hash in t.providers && hash != t.order[0] :: t.providers[hash])
  {
  }

  /** A new offer is recorded under its one name and queued last; while the table
      is not full, nothing leaves. */
  lemma {:induction false} NewOfferIs(t: Table, from: PeerId, offer: Offer)
    requires Sound(t) && offer.hash !in t.offers && CountAt(t.perAuthor, from) < 512 && |t.offers| < 4096
    ensures var n := Offered(t, from, offer);
            && OutcomeOf(t, from, offer) == New([])
            && n.offers == t.offers[offer.hash := Record(offer, from, {offer.name})]
            && n.order == t.order + [offer.hash] && n.providers.Keys == t.providers.Keys + {offer.hash}
            && SightedAs(t.providers, n.providers, from, offer.hash)
  {
    InsertedIs(t, from, offer);
    InsertedQueue(t, from, offer);
    AddedAs(t.providers, from, offer.hash);
    FittedDropsOne(Inserted(Sighted(t, from, offer.hash), from, offer));
  }

  lemma {:induction false} LeavesSighted(before: Registers, after: Registers, from: PeerId, hash: BlobHash,
                                         gone: BlobHash)
    requires SightedAs(before, after, from, hash) && after.Keys == before.Keys + {hash} && gone != hash
    ensures var left := map other | other in after && other != gone :: after[other];
            SightedAs(before, left, from, hash) && left.Keys == before.Keys + {hash} - {gone}
  {
  }

  lemma {:induction false} FullTablePops(t: Table, from: PeerId, offer: Offer)
    requires Sound(t) && offer.hash !in t.offers && CountAt(t.perAuthor, from) < 512 && |t.offers| == 4096
    ensures t.order != [] && t.order[0] != offer.hash && t.order[0] in t.offers
    ensures Offered(t, from, offer) == Popped(Inserted(Sighted(t, from, offer.hash), from, offer))
    ensures OutcomeOf(t, from, offer) == New([t.order[0]])
  {
    QueueLength(t);
    NewIsQueued(t, from, offer);
    InsertedQueue(t, from, offer);
    FittedDropsOne(Inserted(Sighted(t, from, offer.hash), from, offer));
  }

  lemma {:induction false} ReplacedOffers(t: Table, from: PeerId, offer: Offer)
    requires QueueMatches(t) && offer.hash !in t.offers && t.order != [] && t.order[0] in t.offers
    ensures var n, oldest := Popped(Inserted(Sighted(t, from, offer.hash), from, offer)), t.order[0];
            && n.offers ==
               (map hash | hash in t.offers && hash != oldest :: t.offers[hash])
                   [offer.hash := Record(offer, from, {offer.name})]
            && n.order == t.order[1..] + [offer.hash]
  {
    InsertedIs(t, from, offer);
    QueueMoves(t.order, offer.hash);
    PoppedExactly(Inserted(Sighted(t, from, offer.hash), from, offer));
  }

  lemma {:induction false} ReplacedRegisters(t: Table, from: PeerId, offer: Offer)
    requires QueueMatches(t) && offer.hash !in t.offers && t.order != [] && t.order[0] in t.offers
    ensures var n, oldest := Popped(Inserted(Sighted(t, from, offer.hash), from, offer)), t.order[0];
            && n.providers.Keys == t.providers.Keys + {offer.hash} - {oldest}
            && SightedAs(t.providers, n.providers, from, offer.hash)
  {
    var n := Inserted(Sighted(t, from, offer.hash), from, offer);
    InsertedIs(t, from, offer);
    QueueMoves(t.order, offer.hash);
    PoppedExactly(n);
    AddedAs(t.providers, from, offer.hash);
    LeavesSighted(t.providers, n.providers, from, offer.hash, t.order[0]);
  }

  /** A new offer in a full table takes the place of the offer seen longest ago,
      which leaves with its register, and only it. */
  lemma {:induction false} NewOfferReplaces(t: Table, from: PeerId, offer: Offer)
    requires Sound(t) && offer.hash !in t.offers && CountAt(t.perAuthor, from) < 512 && |t.offers| == 4096
    ensures t.order != [] && t.order[0] != offer.hash
    ensures var n, oldest := Offered(t, from, offer), t.order[0];
            && OutcomeOf(t, from, offer) == New([oldest])
            && n.offers ==
               (map hash | hash in t.offers && hash != oldest :: t.offers[hash])
                   [offer.hash := Record(offer, from, {offer.name})]
            && n.order == t.order[1..] + [offer.hash]
            && n.providers.Keys == t.providers.Keys + {offer.hash} - {oldest}
            && SightedAs(t.providers, n.providers, from, offer.hash)
  {
    FullTablePops(t, from, offer);
    ReplacedOffers(t, from, offer);
    ReplacedRegisters(t, from, offer);
  }

  lemma {:induction false} NewIsQueued(t: Table, from: PeerId, offer: Offer)
    requires QueueMatches(t) && offer.hash !in t.offers
    ensures Inserted(Sighted(t, from, offer.hash), from, offer).order == t.order + [offer.hash]
    ensures t.order != [] ==> t.order[0] != offer.hash && t.order[0] in t.offers
  {
    assert offer.hash !in t.order;
    WithoutAbsent(t.order, offer.hash);
    if t.order != [] {
      assert t.order[0] in Elements(t.order);
    }
  }

  /** A new peer is queued last, and if the queue was full the one queued longest
      is forgotten. */
  lemma {:induction false} NotedExactly(p: Peers, peer: PeerId)
    requires |p.order| <= 1024
    ensures Noted(p, peer) ==
            if peer in p.known then p
            else if |p.order| < 1024 then Peers(p.known + {peer}, p.order + [peer])
            else Peers(p.known + {peer} - {p.order[0]}, p.order[1..] + [peer])
  {
    var queued := Peers(p.known + {peer}, p.order + [peer]);
    if peer !in p.known && |p.order| == 1024 {
      assert queued.order[0] == p.order[0] && queued.order[1..] == p.order[1..] + [peer];
      assert Bounded(queued) == Bounded(Peers(queued.known - {queued.order[0]}, queued.order[1..]));
    }
  }

  // ----- Runs: an exact least-recently-seen table -----

  datatype Op =
    | Offering(from: PeerId, offer: Offer)
    | Claiming(hash: BlobHash, claim: Providers.Op)

  ghost function Apply(t: Table, op: Op): Table {
    match op
    case Offering(from, offer) => Offered(t, from, offer)
    case Claiming(hash, claim) => Claimed(t, hash, claim)
  }

  ghost function Run(t: Table, ops: seq<Op>): Table {
    if ops == [] then t else Apply(Run(t, ops[..|ops| - 1]), ops[|ops| - 1])
  }

  lemma {:induction false} RunIsSound(t: Table, ops: seq<Op>)
    requires Sound(t)
    ensures Sound(Run(t, ops))
  {
    if ops != [] {
      RunIsSound(t, ops[..|ops| - 1]);
      ApplyIsSound(Run(t, ops[..|ops| - 1]), ops[|ops| - 1]);
    }
  }

  lemma {:induction false} ApplyIsSound(t: Table, op: Op)
    requires Sound(t)
    ensures Sound(Apply(t, op))
  {
    if op.Offering? {
      OfferedIsSound(t, op.from, op.offer);
    }
  }

  /** The hashes of the offers accepted along the run, in order. */
  ghost function Sightings(t: Table, ops: seq<Op>): seq<BlobHash> {
    if ops == [] then []
    else
      var before, op := Sightings(t, ops[..|ops| - 1]), ops[|ops| - 1];
      if op.Offering? && Accepts(Run(t, ops[..|ops| - 1]), op.from, op.offer) then before + [op.offer.hash] else before
  }

  /** The distinct elements of a history, by their last occurrence. */
  ghost function Recent<T>(history: seq<T>): seq<T> {
    if history == [] then [] else Touched(Recent(history[..|history| - 1]), history[|history| - 1])
  }

  /** What occurred in a history after the last `x`. */
  ghost function After<T>(history: seq<T>, x: T): set<T> {
    if history == [] || history[|history| - 1] == x then {}
    else After(history[..|history| - 1], x) + {history[|history| - 1]}
  }

  /** The queue is the tail of all sightings by recency: what it forgot changes
      nothing about what it keeps. */
  lemma {:induction false} QueueIsRecent(ops: seq<Op>)
    ensures Run(EMPTY, ops).order == Latest(Recent(Sightings(EMPTY, ops)), MAX_OFFERS)
  {
    if ops != [] {
      var front, op := ops[..|ops| - 1], ops[|ops| - 1];
      QueueIsRecent(front);
      EmptyIsSound();
      RunIsSound(EMPTY, front);
      if op.Offering? {
        var t, seen := Run(EMPTY, front), Sightings(EMPTY, front);
        OfferedIsSound(t, op.from, op.offer);
        if Accepts(t, op.from, op.offer) {
          RecentKeeps(seen);
          TouchedLatest(Recent(seen), MAX_OFFERS, op.offer.hash);
          assert (seen + [op.offer.hash])[..|seen|] == seen;
        }
      }
    }
  }

  lemma {:induction false} EmptyIsSound()
    ensures Sound(EMPTY)
  {
    assert forall author :: From(EMPTY.offers, {author}) == {};
  }

  lemma {:induction false} RecentKeeps<T>(history: seq<T>)
    ensures NoRepeat(Recent(history))
    ensures Elements(Recent(history)) == Elements(history)
  {
    if history != [] {
      var front, last := history[..|history| - 1], history[|history| - 1];
      RecentKeeps(front);
      TouchedKeeps(Recent(front), last);
      ElementsPush(front, last);
      assert history == front + [last];
    }
  }

  /** Forgetting before a touch or after it comes to the same. */
  lemma {:induction false} TouchedLatest<T>(s: seq<T>, n: nat, x: T)
    requires NoRepeat(s) && n > 0
    ensures Latest(Touched(Latest(s, n), x), n) == Latest(Touched(s, x), n)
  {
    if |s| > n {
      if x in s {
        var i :| 0 <= i < |s| && s[i] == x;
        TouchedInside(s, n, i);
      } else {
        TouchedOutside(s, n, x);
      }
    }
  }

  lemma {:induction false} TouchedOutside<T>(s: seq<T>, n: nat, x: T)
    requires 0 < n < |s| && x !in s
    ensures Latest(Touched(Latest(s, n), x), n) == Latest(Touched(s, x), n)
  {
    var k := |s| - n;
    WithoutAbsent(s, x);
    WithoutAbsent(s[k..], x);
    PushPop(s, k, x);
    PushToTail(s, x, k + 1);
  }

  lemma {:induction false} TouchedInside<T>(s: seq<T>, n: nat, i: nat)
    requires NoRepeat(s) && 0 < n < |s| && i < |s|
    ensures Latest(Touched(Latest(s, n), s[i]), n) == Latest(Touched(s, s[i]), n)
  {
    WithoutFirst(s, s[i], i);
    if i < |s| - n {
      TouchedForgotten(s, n, i);
    } else {
      TouchedKept(s, n, i);
    }
  }

  lemma {:induction false} TouchedForgotten<T>(s: seq<T>, n: nat, i: nat)
    requires NoRepeat(s) && 0 < n < |s| && i < |s| - n
    requires Without(s, s[i]) == s[..i] + s[i + 1..]
    ensures Latest(Touched(Latest(s, n), s[i]), n) == Latest(Touched(s, s[i]), n)
  {
    TailLacks(s, |s| - n, i);
    TouchedAnew(s, |s| - n, s[i]);
    TouchedCut(s, |s| - n, i);
  }

  lemma {:induction false} TouchedCut<T>(s: seq<T>, k: nat, i: nat)
    requires i < k < |s| && Without(s, s[i]) == s[..i] + s[i + 1..]
    ensures Latest(Touched(s, s[i]), |s| - k) == s[k + 1..] + [s[i]]
  {
    CutBefore(s, i, k, s[i]);
  }

  lemma {:induction false} TouchedAnew<T>(s: seq<T>, k: nat, x: T)
    requires 0 < k < |s| && x !in s[k..]
    ensures Latest(Touched(Latest(s, |s| - k), x), |s| - k) == s[k + 1..] + [x]
  {
    WithoutAbsent(s[k..], x);
    PushPop(s, k, x);
  }

  lemma {:induction false} TailLacks<T>(s: seq<T>, k: nat, i: nat)
    requires NoRepeat(s) && i < k <= |s|
    ensures s[i] !in s[k..]
  {
  }

  lemma {:induction false} PushPop<T>(s: seq<T>, k: nat, x: T)
    requires k < |s|
    ensures (s[k..] + [x])[1..] == s[k + 1..] + [x]
  {
  }

  lemma {:induction false} TouchedKept<T>(s: seq<T>, n: nat, i: nat)
    requires NoRepeat(s) && 0 < n < |s| && |s| - n <= i < |s|
    requires Without(s, s[i]) == s[..i] + s[i + 1..]
    ensures Latest(Touched(Latest(s, n), s[i]), n) == Latest(Touched(s, s[i]), n)
  {
    KeptAlike(s, |s| - n, i);
  }

  lemma {:induction false} KeptAlike<T>(s: seq<T>, k: nat, i: nat)
    requires NoRepeat(s) && 0 < k <= i < |s|
    requires Without(s, s[i]) == s[..i] + s[i + 1..]
    ensures Touched(s[k..], s[i]) == Touched(s, s[i])[k..]
    ensures |Touched(s[k..], s[i])| == |s| - k && |Touched(s, s[i])| == |s|
  {
    WithoutFirst(s[k..], s[i], i - k);
    CutAfter(s, i, k, s[i]);
  }

  /** What stands behind an element in the recency order occurred after it. */
  lemma {:induction false} RecentTail<T>(history: seq<T>, i: nat)
    requires i < |Recent(history)|
    ensures Elements(Recent(history)[i + 1..]) == After(history, Recent(history)[i])
  {
    var front, last := history[..|history| - 1], history[|history| - 1];
    var before := Recent(front);
    RecentKeeps(front);
    TouchedKeeps(before, last);
    if i == |Recent(history)| - 1 {
      assert Recent(history)[i + 1..] == [];
    } else {
      var j := TouchedTail(before, last, i);
      RecentTail(front, j);
    }
  }

  lemma {:induction false} InLatest<T>(s: seq<T>, n: nat, i: nat)
    requires NoRepeat(s) && i < |s|
    ensures s[i] in Latest(s, n) <==> |s| - i - 1 < n
  {
    var k := |s| - |Latest(s, n)|;
    assert i >= k ==> Latest(s, n)[i - k] == s[i];
    if s[i] in Latest(s, n) {
      var j :| 0 <= j < |Latest(s, n)| && Latest(s, n)[j] == s[i];
      assert s[k + j] == s[i];
    }
  }

  lemma {:induction false} LatestWithin<T>(s: seq<T>, n: nat, x: T)
    requires x !in s
    ensures x !in Latest(s, n)
  {
  }

  /** An offer is in the table exactly while fewer than MAX_OFFERS other hashes
      were sighted since its own last accepted sighting. */
  lemma {:induction false} TableIsLeastRecentlySeen(ops: seq<Op>, hash: BlobHash)
    ensures hash in Run(EMPTY, ops).offers <==>
            hash in Sightings(EMPTY, ops) && |After(Sightings(EMPTY, ops), hash)| < MAX_OFFERS
  {
    var seen := Sightings(EMPTY, ops);
    QueueIsRecent(ops);
    EmptyIsSound();
    RunIsSound(EMPTY, ops);
    assert hash in Run(EMPTY, ops).offers <==> hash in Run(EMPTY, ops).order;
    RecencyOf(seen, MAX_OFFERS, hash);
  }

  lemma {:induction false} RecencyOf<T>(history: seq<T>, n: nat, x: T)
    ensures x in Latest(Recent(history), n) <==> x in history && |After(history, x)| < n
  {
    var recent := Recent(history);
    RecentKeeps(history);
    assert x in Elements(recent) <==> x in Elements(history);
    if x in recent {
      var i :| 0 <= i < |recent| && recent[i] == x;
      RecencyAt(history, n, i);
    } else {
      LatestWithin(recent, n, x);
    }
  }

  lemma {:induction false} RecencyAt<T>(history: seq<T>, n: nat, i: nat)
    requires i < |Recent(history)|
    ensures Recent(history)[i] in Latest(Recent(history), n) <==> |After(history, Recent(history)[i])| < n
  {
    var recent := Recent(history);
    RecentKeeps(history);
    RecentTail(history, i);
    DistinctCount(recent[i + 1..]);
    InLatest(recent, n, i);
  }

  // ----- Runs: what a set of authors can push out -----

  /** Only authors in `authors` make offers along the run. */
  ghost predicate OnlyFrom(ops: seq<Op>, authors: set<PeerId>) {
    forall i :: 0 <= i < |ops| && ops[i].Offering? ==> ops[i].from in authors
  }

  ghost function Others(offers: Records, authors: set<PeerId>): set<BlobHash> {
    set hash | hash in offers && offers[hash].from !in authors
  }

  /** How often the run evicts an offer first seen from outside `authors`. */
  ghost function Displaced(t: Table, ops: seq<Op>, authors: set<PeerId>): nat {
    if ops == [] then 0
    else
      var front, op := ops[..|ops| - 1], ops[|ops| - 1];
      var before := Run(t, front);
      Displaced(t, front, authors) + |Lost(before.offers, Apply(before, op).offers, authors)|
  }

  ghost function Lost(before: Records, after: Records, authors: set<PeerId>): set<BlobHash> {
    Others(before, authors) - after.Keys
  }

  lemma {:induction false} SplitByAuthor(offers: Records, authors: set<PeerId>)
    ensures |offers| == |From(offers, authors)| + |Others(offers, authors)|
  {
    assert offers.Keys == From(offers, authors) + Others(offers, authors);
  }

  lemma {:induction false} QuotaOfAll(t: Table, authors: set<PeerId>)
    requires CountsExact(t) && WithinQuota(t)
    ensures |From(t.offers, authors)| <= MAX_OFFERS_PER_AUTHOR * |authors|
  {
    if authors == {} {
      assert From(t.offers, authors) == {};
    } else {
      var author :| author in authors;
      QuotaOfAll(t, authors - {author});
      assert From(t.offers, authors) == From(t.offers, authors - {author}) + From(t.offers, {author});
      assert CountAt(t.perAuthor, author) == |From(t.offers, {author})|;
    }
  }

  /** What a step does to the offers of others: it may lose some, adds none,
      and leaves the table no smaller. */
  ghost predicate Spares(before: Records, after: Records, authors: set<PeerId>) {
    && |after| >= |before|
    && Others(after, authors) <= Others(before, authors)
    && (forall hash :: hash in Others(before, authors) && hash in after ==> hash in Others(after, authors))
  }

  lemma {:induction false} StepSpares(t: Table, op: Op, authors: set<PeerId>)
    requires Sound(t) && (op.Offering? ==> op.from in authors)
    ensures Spares(t.offers, Apply(t, op).offers, authors)
  {
    if op.Offering? && Accepts(t, op.from, op.offer) {
      if op.offer.hash in t.offers {
        var r := Renamed(t.offers[op.offer.hash], op.offer.name);
        assert t.offers[op.offer.hash := r].Keys == t.offers.Keys;
      } else {
        NewSpares(t, op.from, op.offer, authors);
      }
    }
  }

  lemma {:induction false} NewSpares(t: Table, from: PeerId, offer: Offer, authors: set<PeerId>)
    requires Sound(t) && from in authors && offer.hash !in t.offers && HasQuota(t, from)
    ensures Spares(t.offers, Offered(t, from, offer).offers, authors)
  {
    var n := Inserted(Sighted(t, from, offer.hash), from, offer);
    InsertedQueue(t, from, offer);
    FittedDropsOne(n);
    InsertSpares(t.offers, offer.hash, Record(offer, from, {offer.name}), authors);
    if |n.offers| > MAX_OFFERS {
      PoppedQueue(n);
      InsertPopSpares(t.offers, offer.hash, Record(offer, from, {offer.name}), n.order[0], authors);
    }
  }

  lemma {:induction false} InsertSpares(offers: Records, hash: BlobHash, r: Record, authors: set<PeerId>)
    requires hash !in offers && r.from in authors
    ensures Spares(offers, offers[hash := r], authors)
  {
    assert offers[hash := r].Keys == offers.Keys + {hash};
  }

  lemma {:induction false} InsertPopSpares(offers: Records, hash: BlobHash, r: Record, gone: BlobHash,
                                           authors: set<PeerId>)
    requires hash !in offers && r.from in authors && gone in offers[hash := r]
    ensures Spares(offers, offers[hash := r] - {gone}, authors)
  {
    assert (offers[hash := r] - {gone}).Keys == offers.Keys + {hash} - {gone};
  }

  /** However many offers the authors in `authors` make, they displace no more
      offers of others than their own quotas hold, less what they held before. */
  lemma {:induction false} DamageIsBounded(t: Table, ops: seq<Op>, authors: set<PeerId>)
    requires Sound(t) && OnlyFrom(ops, authors)
    ensures Displaced(t, ops, authors) + |From(t.offers, authors)| <= MAX_OFFERS_PER_AUTHOR * |authors|
  {
    DisplacedAccount(t, ops, authors);
    RunIsSound(t, ops);
    QuotaOfAll(Run(t, ops), authors);
    SplitByAuthor(t.offers, authors);
    SplitByAuthor(Run(t, ops).offers, authors);
  }

  lemma {:induction false} DisplacedAccount(t: Table, ops: seq<Op>, authors: set<PeerId>)
    requires Sound(t) && OnlyFrom(ops, authors)
    ensures Displaced(t, ops, authors) == |Others(t.offers, authors)| - |Others(Run(t, ops).offers, authors)|
    ensures |Run(t, ops).offers| >= |t.offers|
  {
    if ops != [] {
      var front, op := ops[..|ops| - 1], ops[|ops| - 1];
      DisplacedAccount(t, front, authors);
      RunIsSound(t, front);
      StepSpares(Run(t, front), op, authors);
      LostCount(Run(t, front).offers, Run(t, ops).offers, authors);
    }
  }

  lemma {:induction false} LostCount(before: Records, after: Records, authors: set<PeerId>)
    requires Spares(before, after, authors)
    ensures |Lost(before, after, authors)| == |Others(before, authors)| - |Others(after, authors)|
  {
    assert Others(before, authors) == Others(after, authors) + Lost(before, after, authors);
  }

  // ----- Runs: the peers known -----

  datatype PeerOp = Note(peer: PeerId) | Up(peer: PeerId)

  ghost function Meetings(ops: seq<PeerOp>): Peers {
    if ops == [] then Peers({}, [])
    else
      var before, op := Meetings(ops[..|ops| - 1]), ops[|ops| - 1];
      if op.Note? then Noted(before, op.peer) else Met(before, op.peer)
  }

  /** The neighbors that came up while unknown: nothing ever forgets them. */
  ghost function Stuck(ops: seq<PeerOp>): set<PeerId> {
    if ops == [] then {}
    else
      var before, op := ops[..|ops| - 1], ops[|ops| - 1];
      if op.Up? && op.peer !in Meetings(before).known then Stuck(before) + {op.peer} else Stuck(before)
  }

  ghost predicate Accounted(p: Peers, stuck: set<PeerId>) {
    && NoRepeat(p.order) && |p.order| <= MAX_KNOWN_PEERS
    && p.known == Elements(p.order) + stuck && Elements(p.order) !! stuck
  }

  lemma {:induction false} NotedIsAccounted(p: Peers, stuck: set<PeerId>, peer: PeerId)
    requires Accounted(p, stuck) && peer !in p.known
    ensures Accounted(Noted(p, peer), stuck)
  {
    var queued := p.order + [peer];
    ElementsPush(p.order, peer);
    PushedApart(p.order, peer);
    if |queued| > MAX_KNOWN_PEERS {
      var next := Peers(p.known + {peer} - {queued[0]}, queued[1..]);
      assert Bounded(next) == next;
      FrontApart(queued);
    }
  }

  lemma {:induction false} FrontApart<T>(s: seq<T>)
    requires NoRepeat(s) && s != []
    ensures NoRepeat(s[1..]) && Elements(s[1..]) == Elements(s) - {s[0]}
  {
    assert s == [s[0]] + s[1..];
  }

  lemma {:induction false} PeersAccounted(ops: seq<PeerOp>)
    ensures Accounted(Meetings(ops), Stuck(ops))
  {
    if ops != [] {
      var front, op := ops[..|ops| - 1], ops[|ops| - 1];
      PeersAccounted(front);
      if op.Note? && op.peer !in Meetings(front).known {
        NotedIsAccounted(Meetings(front), Stuck(front), op.peer);
      }
    }
  }

  lemma {:induction false} KnownCount(p: Peers, stuck: set<PeerId>)
    requires Accounted(p, stuck)
    ensures |p.known| == |p.order| + |stuck|
  {
    DistinctCount(p.order);
  }

  lemma {:induction false} NotedLength(p: Peers, peer: PeerId)
    requires |p.order| <= MAX_KNOWN_PEERS && peer !in p.known
    ensures |Noted(p, peer).order| == Min(|p.order| + 1, MAX_KNOWN_PEERS)
  {
    var queued := Peers(p.known + {peer}, p.order + [peer]);
    if |queued.order| > MAX_KNOWN_PEERS {
      var next := Peers(queued.known - {queued.order[0]}, queued.order[1..]);
      assert Bounded(next) == next;
    }
  }

  /** An event takes the known peers over their bound exactly if it brings an
      unknown peer when the bound is reached, as a neighbor that came up, or as
      a noted peer while the queue has room, because neighbors fill the set. */
  lemma {:induction false} BoundBreaksExactly(ops: seq<PeerOp>, op: PeerOp)
    requires |Meetings(ops).known| <= MAX_KNOWN_PEERS
    ensures var p := Meetings(ops);
            |Meetings(ops + [op]).known| > MAX_KNOWN_PEERS <==>
            op.peer !in p.known && |p.known| == MAX_KNOWN_PEERS && (op.Up? || |p.order| < MAX_KNOWN_PEERS)
  {
    var p := Meetings(ops);
    assert (ops + [op])[..|ops|] == ops;
    PeersAccounted(ops);
    PeersAccounted(ops + [op]);
    KnownCount(p, Stuck(ops));
    KnownCount(Meetings(ops + [op]), Stuck(ops + [op]));
    if op.Note? && op.peer !in p.known {
      NotedLength(p, op.peer);
    }
  }

  /** How many notes, or neighbors, brought a peer unknown until then. */
  ghost function Newcomers(ops: seq<PeerOp>, up: bool): nat {
    if ops == [] then 0
    else
      var front, op := ops[..|ops| - 1], ops[|ops| - 1];
      Newcomers(front, up) + (if op.Up? == up && op.peer !in Meetings(front).known then 1 else 0)
  }

  /** Over a run the known peers are as many as the neighbors that came up
      unknown, and the unknown peers noted, counted up to the size of the queue:
      what has to stay within the bound. */
  lemma {:induction false} KnownPeersBound(ops: seq<PeerOp>)
    ensures |Meetings(ops).known| == Min(Newcomers(ops, false), MAX_KNOWN_PEERS) + Newcomers(ops, true)
  {
    PeersAccounted(ops);
    KnownCount(Meetings(ops), Stuck(ops));
    NewcomersCounted(ops);
  }

  lemma {:induction false} NewcomersCounted(ops: seq<PeerOp>)
    ensures |Meetings(ops).order| == Min(Newcomers(ops, false), MAX_KNOWN_PEERS)
    ensures |Stuck(ops)| == Newcomers(ops, true)
  {
    if ops != [] {
      var front, op := ops[..|ops| - 1], ops[|ops| - 1];
      NewcomersCounted(front);
      PeersAccounted(front);
      if op.Note? && op.peer !in Meetings(front).known {
        NotedLength(Meetings(front), op.peer);
      }
    }
  }

  ghost function Ups(n: nat): seq<PeerOp> {
    if n == 0 then [] else Ups(n - 1) + [Up(n)]
  }

  lemma {:induction false} UpsMeet(n: nat)
    ensures Meetings(Ups(n)).order == [] && forall peer :: peer in Meetings(Ups(n)).known <==> 1 <= peer <= n
    ensures Newcomers(Ups(n), true) == n && Newcomers(Ups(n), false) == 0
  {
    if n > 0 {
      UpsMeet(n - 1);
      assert Ups(n)[..|Ups(n)| - 1] == Ups(n - 1);
    }
  }

  /** One neighbor more than the bound, and the bound is broken. */
  lemma {:induction false} NeighborsBreakTheBound()
    ensures |Meetings(Ups(MAX_KNOWN_PEERS + 1)).known| == MAX_KNOWN_PEERS + 1
  {
    UpsMeet(MAX_KNOWN_PEERS + 1);
    KnownPeersBound(Ups(MAX_KNOWN_PEERS + 1));
  }
}
