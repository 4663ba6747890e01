/** One session: what it makes of the frames it is handed, announces itself or
    restores, and why sessions end up agreeing. */
module Session {
  import opened Common
  import opened Convergence
  import Dedup
  import Offers
  import SyncLog

  /** How a frame reaches the session: relayed by a peer, announced by the
      session itself, or read back from persisted history. */
  datatype Way = Relayed | Announced | Restored

  /** A frame handed to the session, as bytes and as what they decode to, with
      the clock readings of its dedup check. */
  datatype Delivery = Delivery(way: Way, frame: Frame, raw: Bytes, now: int, later: int)

  function KeyOf(f: Frame): Dedup.Key {
    (f.author, f.id)
  }

  ghost function Calls(ds: seq<Delivery>): seq<Dedup.Call> {
    if ds == [] then []
    else
      var d := ds[|ds| - 1];
      Calls(ds[..|ds| - 1]) + [Dedup.Call(KeyOf(d.frame), d.now, d.later)]
  }

  ghost function Accepted(ds: seq<Delivery>, room: nat, ttl: nat): Dedup.History {
    Dedup.Accepted(Calls(ds), room, ttl)
  }

  ghost predicate IsFresh(before: seq<Delivery>, d: Delivery, room: nat, ttl: nat) {
    !Dedup.SeenRecently(Accepted(before, room, ttl), KeyOf(d.frame), d.now, room, ttl)
  }

  /** A session records its own offers when it makes them and never its own
      claims; all else it applies when the id is new. */
  ghost predicate Applies(before: seq<Delivery>, d: Delivery, room: nat, ttl: nat) {
    if d.way.Announced? then d.frame.body.Offer?
    else IsCore(d.frame) && IsFresh(before, d, room, ttl)
  }

  /** The frames the session applies, in order. */
  ghost function Applied(ds: seq<Delivery>, room: nat, ttl: nat): seq<Frame> {
    if ds == [] then []
    else
      var front, d := ds[..|ds| - 1], ds[|ds| - 1];
      if Applies(front, d, room, ttl) then Applied(front, room, ttl) + [d.frame] else Applied(front, room, ttl)
  }

  /** Is the frame put into the log? History always, extensions on relay duty
      only, requests never. */
  predicate IsKept(d: Delivery) {
    IsCore(d.frame) || (d.frame.body.Extension? && !d.way.Restored?)
  }

  /** What arrives at the sync log. */
  ghost function Logged(ds: seq<Delivery>, room: nat, ttl: nat): SyncLog.Entries {
    if ds == [] then []
    else
      var front, d := ds[..|ds| - 1], ds[|ds| - 1];
      if IsKept(d) && (d.way.Announced? || IsFresh(front, d, room, ttl)) then
        Logged(front, room, ttl) + [SyncLog.Entry(d.raw, IsCore(d.frame))]
      else Logged(front, room, ttl)
  }

  // ----- The same, one delivery at a time -----

  /** What deliveries come to: the dedup check's calls and acceptances, and
      what the sync log was given. */
  datatype Picture = Picture(calls: seq<Dedup.Call>, accepted: Dedup.History, arrivals: SyncLog.Entries)

  ghost predicate Unseen(accepted: Dedup.History, f: Frame, now: int, room: nat, ttl: nat) {
    !Dedup.SeenRecently(accepted, KeyOf(f), now, room, ttl)
  }

  ghost predicate IsNew(p: Picture, d: Delivery, room: nat, ttl: nat) {
    Unseen(p.accepted, d.frame, d.now, room, ttl)
  }

  ghost function Taken(p: Picture, d: Delivery, room: nat, ttl: nat): Picture {
    var isNew := IsNew(p, d, room, ttl);
    Picture(
      p.calls + [Dedup.Call(KeyOf(d.frame), d.now, d.later)],
      if isNew then p.accepted + [Dedup.Acceptance(KeyOf(d.frame), d.later)] else p.accepted,
      if IsKept(d) && (d.way.Announced? || isNew)
          then p.arrivals + [SyncLog.Entry(d.raw, IsCore(d.frame))] else p.arrivals)
  }

  ghost function Expected(ds: seq<Delivery>, room: nat, ttl: nat): Picture {
    if ds == [] then Picture([], [], [])
    else Taken(Expected(ds[..|ds| - 1], room, ttl), ds[|ds| - 1], room, ttl)
  }

  /** Does the delivery make its frame due to be applied? */
  ghost predicate MakesDue(p: Picture, d: Delivery, room: nat, ttl: nat) {
    if d.way.Announced? then d.frame.body.Offer? else IsCore(d.frame) && IsNew(p, d, room, ttl)
  }

  ghost function Due(ds: seq<Delivery>, room: nat, ttl: nat): set<Frame> {
    if ds == [] then {}
    else
      var front, d := ds[..|ds| - 1], ds[|ds| - 1];
      if MakesDue(Expected(front, room, ttl), d, room, ttl)
          then Due(front, room, ttl) + {d.frame} else Due(front, room, ttl)
  }

  /** The deliverer of an allowed frame is noted as a peer. */
  ghost function Greeted(known: Offers.Peers, from: PeerId, allowed: bool): Offers.Peers {
    if allowed then Offers.Noted(known, from) else known
  }

  /** The author of a live offer is noted as a peer. */
  ghost function Credited(known: Offers.Peers, f: Frame): Offers.Peers {
    if f.body.Offer? then Offers.Noted(known, f.author) else known
  }

  class Session {
    const self: PeerId
    const seen: Dedup.DedupCache
    const table: Offers.OfferTable
    const log: SyncLog.FrameLog

    /** Every frame that got past decoding and the rate limit, the frames
        applied to the tables, in order, and those a handler has still to apply. */
    ghost var deliveries: seq<Delivery>
    ghost var applied: seq<Frame>
    ghost var inFlight: seq<Frame>

    ghost function Room(): nat
    {
      Dedup.Room(seen.capacity)
    }

    ghost function LogEntry(f: Frame, raw: Bytes): SyncLog.Entries {
      if IsCore(f) || f.body.Extension? then [SyncLog.Entry(raw, IsCore(f))] else []
    }

    /** The dedup cache and the log hold what the deliveries come to. */
    ghost predicate Recorded()
      reads this, seen, log
    {
      seen.Valid() && log.Valid() && Shown() == Expected(deliveries, Room(), seen.ttl)
    }

    /** The tables hold what was applied; a frame due is applied or in flight. */
    ghost predicate Settled()
      reads this, seen, table
    {
      table.Value() == Heard(applied) && Elements(applied) + Elements(inFlight) == Due(deliveries, Room(), seen.ttl)
    }

    ghost predicate Valid()
      reads this, seen, table, log
    {
      Recorded() && Settled()
    }

    ghost function Shown(): Picture
      reads this, seen, log
    {
      Picture(seen.calls, seen.state.accepted, log.arrivals)
    }

    constructor (self: PeerId, capacity: nat, ttl: nat, ghost epoch: int)
      ensures Valid() && deliveries == [] && inFlight == [] && this.self == self
      ensures fresh(seen) && fresh(table) && fresh(log)
      ensures seen.capacity == capacity && seen.ttl == ttl && seen.epoch == epoch
    {
      this.self := self;
      seen := new Dedup.DedupCache(capacity, ttl, epoch);
      table := new Offers.OfferTable();
      log := new SyncLog.FrameLog();
      deliveries, applied, inFlight := [], [], [];
      new;
      StartsEmpty(seen);
      assert Elements(applied) + Elements(inFlight) == {};
    }

    /** Apply the tables' share of a frame. The author of a live offer is noted
        as a peer; a signature from the past is not a connection. */
    method ApplyFrame(f: Frame, live: bool)
      requires IsCore(f) && table.Value() == Heard(applied)
      modifies table, this`applied
      ensures table.Value() == Heard(applied) && applied == old(applied) + [f]
      ensures table.Known() == if live then Credited(old(table.Known()), f) else old(table.Known())
    {
      match f.body {
        case Offer(offer) =>
          if live {
            var _ := table.RecordOfferBounded(f.author, offer);
          } else {
            var _ := table.RecordOfferInner(f.author, offer);
          }
        case Provider(hash, withdrawn, at) =>
          var _ := table.RecordProvider(hash, f.author, at, f.id, withdrawn);
      }
      HeardNext(applied, f);
      applied := applied + [f];
    }

    method Retain(f: Frame, raw: Bytes)
      requires log.Valid()
      modifies log
      ensures log.Valid()
      ensures log.arrivals == old(log.arrivals) + LogEntry(f, raw)
    {
      if f.body.Offer? || f.body.Provider? {
        log.RetainFrame(raw);
      } else if f.body.Extension? {
        log.RetainUnknownFrame(raw);
      }
    }

    /** Ask the dedup cache. */
    method Check(f: Frame, now: int, later: int) returns (isNew: bool)
      requires seen.Valid() && seen.state.clock <= now <= later
      modifies seen
      ensures seen.Valid() && seen.state.clock <= later
      ensures seen.calls == old(seen.calls) + [Dedup.Call(KeyOf(f), now, later)]
      ensures isNew == Unseen(old(seen.state.accepted), f, now, Room(), seen.ttl)
      ensures seen.state.accepted ==
              old(seen.state.accepted) + (if isNew then [Dedup.Acceptance(KeyOf(f), later)] else [])
    {
      isNew := seen.CheckAndInsert(KeyOf(f), now, later);
    }

    /** Deduplicate a frame and retain it: own frames always, relayed ones when
        new, restored ones when new and history. */
    method Register(way: Way, f: Frame, raw: Bytes, now: int, later: int) returns (isNew: bool)
      requires Recorded() && seen.state.clock <= now <= later
      modifies this`deliveries, seen, log
      ensures Recorded() && seen.state.clock <= later
      ensures deliveries == old(deliveries) + [Delivery(way, f, raw, now, later)]
      ensures isNew == IsNew(old(Shown()), Delivery(way, f, raw, now, later), Room(), seen.ttl)
    {
      ghost var d := Delivery(way, f, raw, now, later);
      ExpectedNext(deliveries, d, Room(), seen.ttl);
      deliveries := deliveries + [d];
      isNew := Check(f, now, later);
      if way.Announced? || (isNew && (way.Relayed? || IsCore(f))) {
        Retain(f, raw);
      }
    }

    /** The first lock section for a verified frame from a peer: note the peer,
        deduplicate, retain. `allowed` is the rate limiter's answer; `mine` says
        whether the frame is this handler's to apply. */
    method Admit(f: Frame, raw: Bytes, from: PeerId, allowed: bool, now: int, later: int) returns (mine: bool)
      requires Valid() && seen.state.clock <= now <= later
      modifies this`deliveries, this`inFlight, seen, table, log
      ensures Valid() && seen.state.clock <= later
      ensures deliveries == old(deliveries) + (if allowed then [Delivery(Relayed, f, raw, now, later)] else [])
      ensures mine <==> allowed && MakesDue(old(Shown()), Delivery(Relayed, f, raw, now, later), Room(), seen.ttl)
      ensures inFlight == if mine then old(inFlight) + [f] else old(inFlight)
      ensures table.Known() == Greeted(old(table.Known()), from, allowed)
      ensures table.Known() == if allowed then Offers.Noted(old(table.Known()), from) else old(table.Known())
    {
      if !allowed {
        return false;
      }
      DueNext(deliveries, Delivery(Relayed, f, raw, now, later), Room(), seen.ttl);
      OneMore(applied, inFlight, f);
      table.NotePeer(from);
      var isNew := Register(Relayed, f, raw, now, later);
      mine := isNew && IsCore(f);
      if mine {
        inFlight := inFlight + [f];
      }
    }

    /** The second lock section: some handler applies the frame it admitted, in
        whatever order handlers get there. */
    method Finish(f: Frame)
      requires Valid() && f in inFlight && IsCore(f)
      modifies this`applied, this`inFlight, table
      ensures Valid() && deliveries == old(deliveries) && applied == old(applied) + [f]
      ensures table.Known() == Credited(old(table.Known()), f)
      ensures f.body.Offer? ==> table.Known() == Offers.Noted(old(table.Known()), f.author)
      ensures !f.body.Offer? ==> table.Known() == old(table.Known())
      ensures multiset(inFlight) == multiset(old(inFlight)) - multiset{f}
    {
      ghost var i :| 0 <= i < |inFlight| && inFlight[i] == f;
      TakenOut(inFlight, i);
      MovesOver(applied, inFlight, i);
      inFlight := inFlight[..i] + inFlight[i + 1..];
      ApplyFrame(f, true);
    }

    /** A handler that runs undisturbed: the deliverer is noted if it is allowed,
        and the author with an offer that is new. */
    method HandleMessage(f: Frame, raw: Bytes, from: PeerId, allowed: bool, now: int, later: int)
      requires Valid() && seen.state.clock <= now <= later
      modifies this, seen, table, log
      ensures Valid() && seen.state.clock <= later && (inFlight == [] <==> old(inFlight) == [])
      ensures deliveries == old(deliveries) + (if allowed then [Delivery(Relayed, f, raw, now, later)] else [])
      ensures var noted := Greeted(old(table.Known()), from, allowed);
              var mine := allowed && MakesDue(old(Shown()), Delivery(Relayed, f, raw, now, later), Room(), seen.ttl);
              table.Known() == if mine then Credited(noted, f) else noted
    {
      ghost var waiting := inFlight;
      var mine := Admit(f, raw, from, allowed, now, later);
      if mine {
        Finish(f);
        TakenBack(waiting, inFlight, f);
      }
    }

    /** The session makes an offer, a claim, a request or an extension frame of
        its own: its echo will not be new. */
    method Broadcast(f: Frame, raw: Bytes, now: int, later: int)
      requires Valid() && seen.state.clock <= now <= later && f.author == self
      modifies this, seen, table, log
      ensures Valid() && deliveries == old(deliveries) + [Delivery(Announced, f, raw, now, later)]
      ensures inFlight == old(inFlight)
    {
      DueNext(deliveries, Delivery(Announced, f, raw, now, later), Room(), seen.ttl);
      OneMore(applied, inFlight, f);
      if f.body.Offer? {
        ApplyFrame(f, true);
      }
      ghost var held := Elements(applied) + Elements(inFlight);
      assert held == Due(deliveries + [Delivery(Announced, f, raw, now, later)], Room(), seen.ttl);
      var _ := Register(Announced, f, raw, now, later);
    }

    /** One frame of persisted history: no peer is credited for it. */
    method RestoreFrame(f: Frame, raw: Bytes, now: int, later: int) returns (restored: bool)
      requires Valid() && seen.state.clock <= now <= later
      modifies this, seen, table, log
      ensures Valid() && deliveries == old(deliveries) + [Delivery(Restored, f, raw, now, later)]
      ensures restored <==> MakesDue(old(Shown()), Delivery(Restored, f, raw, now, later), Room(), seen.ttl)
      ensures seen.state.clock <= later && inFlight == old(inFlight) && table.Known() == old(table.Known())
    {
      DueNext(deliveries, Delivery(Restored, f, raw, now, later), Room(), seen.ttl);
      OneMore(applied, inFlight, f);
      var isNew := Register(Restored, f, raw, now, later);
      restored := isNew && IsCore(f);
      if restored {
        ApplyFrame(f, false);
      }
    }
  }

  lemma {:induction false} HeardNext(frames: seq<Frame>, f: Frame)
    ensures Heard(frames + [f]) == Affected(Heard(frames), f)
  {
    assert (frames + [f])[..|frames|] == frames;
  }

  lemma {:induction false} TakenBack(before: seq<Frame>, after: seq<Frame>, f: Frame)
    requires multiset(after) == multiset(before + [f]) - multiset{f}
    ensures after == [] <==> before == []
  {
    assert multiset(before + [f]) == multiset(before) + multiset{f};
    assert |multiset(after)| == |after| && |multiset(before)| == |before|;
  }

  /** One frame more is applied, or one more is in flight. */
  lemma {:induction false} OneMore(applied: seq<Frame>, inFlight: seq<Frame>, f: Frame)
    ensures Elements(applied + [f]) + Elements(inFlight) == (Elements(applied) + Elements(inFlight)) + {f}
    ensures Elements(applied) + Elements(inFlight + [f]) == (Elements(applied) + Elements(inFlight)) + {f}
  {
    Offers.ElementsPush(applied, f);
    Offers.ElementsPush(inFlight, f);
  }

  /** A frame in flight moves to the applied ones. */
  lemma {:induction false} MovesOver(applied: seq<Frame>, inFlight: seq<Frame>, i: nat)
    requires i < |inFlight|
    ensures Elements(applied + [inFlight[i]]) + Elements(inFlight[..i] + inFlight[i + 1..]) ==
            Elements(applied) + Elements(inFlight)
  {
    Offers.ElementsPush(applied, inFlight[i]);
    TakenOut(inFlight, i);
  }

  lemma {:induction false} TakenOut(frames: seq<Frame>, i: nat)
    requires i < |frames|
    ensures Elements(frames[..i] + frames[i + 1..]) + {frames[i]} == Elements(frames)
    ensures multiset(frames[..i] + frames[i + 1..]) == multiset(frames) - multiset{frames[i]}
  {
    Offers.ElementsCut(frames, i);
    assert frames == frames[..i] + [frames[i]] + frames[i + 1..];
  }

  /** One item of the history, after those before it. */
  method RestoreItem(session: Session, ghost before: seq<Delivery>, items: seq<Delivery>, i: nat) returns (took: bool)
    requires i < |items| && items[i].way == Restored && session.deliveries == before + items[..i]
    requires session.Valid() && session.seen.state.clock <= items[i].now <= items[i].later
    modifies session, session.seen, session.table, session.log
    ensures session.Valid() && session.deliveries == before + items[..i + 1]
    ensures took <==> Applies(before + items[..i], items[i], session.Room(), session.seen.ttl)
    ensures session.seen.state.clock <= items[i].later
    ensures session.inFlight == old(session.inFlight) && session.table.Known() == old(session.table.Known())
  {
    var d := items[i];
    RestoreApplies(session.deliveries, d, session.Room(), session.seen.ttl);
    SliceNext(before, items, i);
    took := session.RestoreFrame(d.frame, d.raw, d.now, d.later);
  }

  /** Replay persisted history; answers how many frames applied. */
  method RestoreHistory(session: Session, items: seq<Delivery>) returns (applied: nat)
    requires session.Valid() && SteadyFrom(items, 0, session.seen.state.clock)
    requires forall i :: 0 <= i < |items| ==> items[i].way == Restored
    modifies session, session.seen, session.table, session.log
    ensures session.Valid() && session.deliveries == old(session.deliveries) + items
    ensures session.inFlight == old(session.inFlight) && session.table.Known() == old(session.table.Known())
    ensures applied == GainedFrom(old(session.deliveries), items, 0, session.Room(), session.seen.ttl)
  {
    applied := 0;
    var i := 0;
    ghost var before := session.deliveries;
    ghost var inFlight, known := session.inFlight, session.table.Known();
    while i < |items|
      invariant i <= |items| && session.Valid()
      invariant SteadyFrom(items, i, session.seen.state.clock)
      invariant session.deliveries == before + items[..i]
      invariant session.inFlight == inFlight && session.table.Known() == known
      invariant applied + GainedFrom(before, items, i, session.Room(), session.seen.ttl)
             == GainedFrom(before, items, 0, session.Room(), session.seen.ttl)
    {
      var took := RestoreItem(session, before, items, i);
      if took {
        applied := applied + 1;
      }
      i := i + 1;
    }
    assert items[..i] == items;
  }

  lemma {:induction false} RestoreApplies(ds: seq<Delivery>, d: Delivery, room: nat, ttl: nat)
    requires d.way == Restored
    ensures Applies(ds, d, room, ttl) <==> MakesDue(Expected(ds, room, ttl), d, room, ttl)
  {
    ExpectedIs(ds, room, ttl);
  }

  /** Read one after the other, the clock never goes back. */
  lemma {:induction false} SteadyExactly(items: seq<Delivery>, i: nat, clock: int)
    requires i <= |items|
    ensures SteadyFrom(items, i, clock) <==>
            && (forall j :: i <= j < |items| ==> items[j].now <= items[j].later)
            && (forall j :: i < j < |items| ==> items[j - 1].later <= items[j].now)
            && (i < |items| ==> clock <= items[i].now)
    decreases |items| - i
  {
    if i < |items| {
      SteadyExactly(items, i + 1, items[i].later);
    }
  }

  /** Clock readings that never go back. */
  ghost predicate SteadyFrom(items: seq<Delivery>, i: nat, clock: int)
    requires i <= |items|
    decreases |items| - i
  {
    i == |items| || (clock <= items[i].now <= items[i].later && SteadyFrom(items, i + 1, items[i].later))
  }

  /** How many of `items` from the i-th on a session applies after `before` and
      the items so far. */
  ghost function GainedFrom(before: seq<Delivery>, items: seq<Delivery>, i: nat, room: nat, ttl: nat): nat
    requires i <= |items|
    decreases |items| - i
  {
    if i == |items| then 0
    else
      (if Applies(before + items[..i], items[i], room, ttl) then 1 else 0) + GainedFrom(before, items, i + 1, room, ttl)
  }

  /** The number restoring answers with is how many more frames are applied than
      before. */
  lemma {:induction false} GainedIsApplied(before: seq<Delivery>, items: seq<Delivery>, i: nat, room: nat, ttl: nat)
    requires i <= |items|
    ensures |Applied(before + items[..i], room, ttl)| + GainedFrom(before, items, i, room, ttl) ==
            |Applied(before + items, room, ttl)|
    decreases |items| - i
  {
    if i == |items| {
      assert items[..i] == items;
    } else {
      GainedIsApplied(before, items, i + 1, room, ttl);
      SliceNext(before, items, i);
      assert (before + items[..i] + [items[i]])[..|before + items[..i]|] == before + items[..i];
    }
  }

  lemma {:induction false} SliceNext(before: seq<Delivery>, items: seq<Delivery>, i: nat)
    requires i < |items|
    ensures before + items[..i] + [items[i]] == before + items[..i + 1]
  {
  }

  lemma {:induction false} ExpectedNext(ds: seq<Delivery>, d: Delivery, room: nat, ttl: nat)
    ensures Expected(ds + [d], room, ttl) == Taken(Expected(ds, room, ttl), d, room, ttl)
  {
    assert (ds + [d])[..|ds|] == ds;
  }

  lemma {:induction false} DueNext(ds: seq<Delivery>, d: Delivery, room: nat, ttl: nat)
    ensures Due(ds + [d], room, ttl) ==
            if MakesDue(Expected(ds, room, ttl), d, room, ttl)
                then Due(ds, room, ttl) + {d.frame} else Due(ds, room, ttl)
  {
    assert (ds + [d])[..|ds|] == ds;
  }

  /** The state a session keeps up to date, read off everything it was handed. */
  lemma {:induction false} ExpectedIs(ds: seq<Delivery>, room: nat, ttl: nat)
    ensures Expected(ds, room, ttl) ==
            Picture(Calls(ds), Accepted(ds, room, ttl), Logged(ds, room, ttl))
    ensures Due(ds, room, ttl) == Elements(Applied(ds, room, ttl))
  {
    if ds != [] {
      var front, d := ds[..|ds| - 1], ds[|ds| - 1];
      ExpectedIs(front, room, ttl);
      var calls, call := Calls(front), Dedup.Call(KeyOf(d.frame), d.now, d.later);
      assert (calls + [call])[..|calls|] == calls;
      Offers.ElementsPush(Applied(front, room, ttl), d.frame);
    }
  }

  lemma {:induction false} StartsEmpty(seen: Dedup.DedupCache)
    requires seen.Valid() && seen.calls == []
    ensures seen.state.accepted == []
  {
  }

  /** What one more delivery puts into the log: offers and claims if the session
      announces them itself or their id is new, extensions likewise unless they
      are restored, and requests never. */
  lemma {:induction false} LoggedExactly(ds: seq<Delivery>, d: Delivery, room: nat, ttl: nat)
    ensures var isNew := !Dedup.SeenRecently(Accepted(ds, room, ttl), (d.frame.author, d.frame.id), d.now, room, ttl);
            var before, after := Logged(ds, room, ttl), Logged(ds + [d], room, ttl);
            match d.frame.body
            case Offer(_) =>
              after == if d.way == Announced || isNew then before + [SyncLog.Entry(d.raw, true)] else before
            case Provider(_, _, _) =>
              after == if d.way == Announced || isNew then before + [SyncLog.Entry(d.raw, true)] else before
            case Extension =>
              after == if d.way == Announced || (d.way == Relayed && isNew) then before + [SyncLog.Entry(d.raw, false)]
                       else before
            case Request => after == before
  {
    assert (ds + [d])[..|ds|] == ds;
  }

  /** And what it gives the tables: own offers always, others' offers and claims if
      their id is new, and nothing else. */
  lemma {:induction false} AppliedExactly(ds: seq<Delivery>, d: Delivery, room: nat, ttl: nat)
    ensures var isNew := !Dedup.SeenRecently(Accepted(ds, room, ttl), (d.frame.author, d.frame.id), d.now, room, ttl);
            var before, after := Applied(ds, room, ttl), Applied(ds + [d], room, ttl);
            match d.frame.body
            case Offer(_) => after == if d.way == Announced || isNew then before + [d.frame] else before
            case Provider(_, _, _) => after == if d.way != Announced && isNew then before + [d.frame] else before
            case Extension => after == before
            case Request => after == before
  {
    assert (ds + [d])[..|ds|] == ds;
  }

  // ----- Deduplication loses nothing -----

  ghost function Delivered(ds: seq<Delivery>): seq<Frame> {
    if ds == [] then [] else Delivered(ds[..|ds| - 1]) + [ds[|ds| - 1].frame]
  }

  /** Only the session itself announces, and only its own frames. */
  ghost predicate AnnouncesOwn(ds: seq<Delivery>, self: PeerId) {
    forall d :: d in ds && d.way.Announced? ==> d.frame.author == self
  }

  lemma {:induction false} OwnAnnouncements(ds: seq<Delivery>, self: PeerId)
    requires forall i :: 0 <= i < |ds| && ds[i].way == Announced ==> ds[i].frame.author == self
    ensures AnnouncesOwn(ds, self)
  {
  }

  lemma {:induction false} CallsNext(ds: seq<Delivery>)
    requires ds != []
    ensures Calls(ds)[..|Calls(ds)| - 1] == Calls(ds[..|ds| - 1])
    ensures Elements(Delivered(ds)) == Elements(Delivered(ds[..|ds| - 1])) + {ds[|ds| - 1].frame}
  {
    Offers.ElementsPush(Delivered(ds[..|ds| - 1]), ds[|ds| - 1].frame);
  }

  /** A key the cache accepted belongs to a frame that was delivered. */
  lemma {:induction false} AcceptedWasDelivered(ds: seq<Delivery>, room: nat, ttl: nat, key: Dedup.Key)
                                                returns (f: Frame)
    requires Dedup.HasKey(Accepted(ds, room, ttl), key)
    ensures f in Elements(Delivered(ds)) && KeyOf(f) == key
  {
    var front, d := ds[..|ds| - 1], ds[|ds| - 1];
    CallsNext(ds);
    if KeyOf(d.frame) == key {
      f := d.frame;
    } else {
      var after, before := Accepted(ds, room, ttl), Accepted(front, room, ttl);
      var i :| 0 <= i < |after| && after[i].key == key;
      assert before[i].key == key;
      f := AcceptedWasDelivered(front, room, ttl, key);
    }
  }

  /** What was delivered is applied, once or more, in whatever order: only the
      session's own provider claims are not. */
  lemma {:induction false} DeliveredIsApplied(ds: seq<Delivery>, room: nat, ttl: nat, self: PeerId)
    requires UniqueIds(Elements(Delivered(ds))) && AnnouncesOwn(ds, self)
    ensures SameNews(Applied(ds, room, ttl), Delivered(ds), {self})
    ensures Elements(Applied(ds, room, ttl)) <= Elements(Delivered(ds))
  {
    if ds != [] {
      var front, d := ds[..|ds| - 1], ds[|ds| - 1];
      CallsNext(ds);
      DeliveredIsApplied(front, room, ttl, self);
      Offers.ElementsPush(Applied(front, room, ttl), d.frame);
      if !IsFresh(front, d, room, ttl) && !d.way.Announced? {
        assert Dedup.HasKey(Accepted(front, room, ttl), KeyOf(d.frame));
        var f := AcceptedWasDelivered(front, room, ttl, KeyOf(d.frame));
        assert f == d.frame;
      }
      NewsNext(Applied(front, room, ttl), Delivered(front), {self}, d.frame, Applies(front, d, room, ttl));
    }
  }

  lemma {:induction false} NewsNext(x: seq<Frame>, y: seq<Frame>, selves: set<PeerId>, f: Frame, applied: bool)
    requires SameNews(x, y, selves) && (applied || f in y || !IsNews(f, selves))
    ensures SameNews(if applied then x + [f] else x, y + [f], selves)
  {
  }

  /** Two sessions handed the same news, reordered, delayed, repeated, relayed
      or restored at will, that applied what was due in whatever order, agree on
      the offers and, of everyone but themselves, on the live providers. */
  lemma {:induction false} DeliveriesConverge(x: seq<Delivery>, ax: seq<Frame>, y: seq<Delivery>, ay: seq<Frame>,
                                              a: PeerId, b: PeerId, room: nat, ttl: nat)
    requires SameNews(Delivered(x), Delivered(y), {a, b})
    requires UniqueIds(Elements(Delivered(x)) + Elements(Delivered(y)))
    requires Roomy(Elements(Delivered(x))) && Roomy(Elements(Delivered(y)))
    requires AnnouncesOwn(x, a) && AnnouncesOwn(y, b)
    requires Elements(ax) == Due(x, room, ttl) && Elements(ay) == Due(y, room, ttl)
    ensures Agree(Heard(ax), Heard(ay), {a, b})
  {
    DueIsDelivered(x, ax, room, ttl, a);
    DueIsDelivered(y, ay, room, ttl, b);
    RoomyWithin(Elements(ax), Elements(Delivered(x)));
    RoomyWithin(Elements(ay), Elements(Delivered(y)));
    NewsThrough(ax, Delivered(x), Delivered(y), {a}, {a, b});
    NewsThrough(ay, Delivered(y), ax, {b}, {a, b});
    SessionsConverge(ax, ay, {a, b});
  }

  lemma {:induction false} DueIsDelivered(ds: seq<Delivery>, applied: seq<Frame>, room: nat, ttl: nat, self: PeerId)
    requires UniqueIds(Elements(Delivered(ds))) && AnnouncesOwn(ds, self)
    requires Elements(applied) == Due(ds, room, ttl)
    ensures SameNews(applied, Delivered(ds), {self}) && Elements(applied) <= Elements(Delivered(ds))
  {
    DeliveredIsApplied(ds, room, ttl, self);
    ExpectedIs(ds, room, ttl);
    SameElements(applied, Applied(ds, room, ttl));
  }

  lemma {:induction false} SameElements(x: seq<Frame>, y: seq<Frame>)
    requires Elements(x) == Elements(y)
    ensures forall f :: f in x <==> f in y
  {
    forall f
      ensures f in x <==> f in y
    {
      assert f in Elements(x) <==> f in Elements(y);
    }
  }

  /** Two running sessions with nothing in flight agree on the news they were
      both handed. */
  lemma {:induction false} QuietSessionsAgree(s: Session, t: Session)
    requires s.Valid() && t.Valid() && s.inFlight == [] && t.inFlight == []
    requires s.Room() == t.Room() && s.seen.ttl == t.seen.ttl
    requires AnnouncesOwn(s.deliveries, s.self) && AnnouncesOwn(t.deliveries, t.self)
    requires SameNews(Delivered(s.deliveries), Delivered(t.deliveries), {s.self, t.self})
    requires UniqueIds(Elements(Delivered(s.deliveries)) + Elements(Delivered(t.deliveries)))
    requires Roomy(Elements(Delivered(s.deliveries))) && Roomy(Elements(Delivered(t.deliveries)))
    ensures Agree(s.table.Value(), t.table.Value(), {s.self, t.self})
  {
    assert Elements(s.applied) + Elements(s.inFlight) == Elements(s.applied);
    assert Elements(t.applied) + Elements(t.inFlight) == Elements(t.applied);
    DeliveriesConverge(s.deliveries, s.applied, t.deliveries, t.applied, s.self, t.self, s.Room(), s.seen.ttl);
  }

  /** What a running session with nothing in flight shows: exactly the hashes that
      were offered, and of everyone but itself exactly the providers that offered
      or claimed the blob and whose last word, of all that was delivered, is not a
      withdrawal. */
  lemma {:induction false} ShownExactly(s: Session, hash: BlobHash, peer: PeerId)
    requires s.Valid() && s.inFlight == [] && AnnouncesOwn(s.deliveries, s.self) && peer != s.self
    requires UniqueIds(Elements(Delivered(s.deliveries))) && Roomy(Elements(Delivered(s.deliveries)))
    ensures hash in s.table.offers <==>
            exists f :: f in Delivered(s.deliveries) && f.body.Offer? && f.body.offer.hash == hash
    ensures var frames := Delivered(s.deliveries);
            hash in s.table.providers && peer in s.table.providers[hash].providers &&
                !s.table.providers[hash].providers[peer].withdrawn <==>
            && (exists f :: f in frames && f.author == peer &&
                  ((f.body.Offer? && f.body.offer.hash == hash) || (f.body.Provider? && f.body.hash == hash)))
            && (forall f :: IsLastWord(frames, f, hash, peer) ==> !f.body.withdrawn)
  {
    var frames := Delivered(s.deliveries);
    assert Elements(s.applied) + Elements(s.inFlight) == Elements(s.applied);
    DueIsDelivered(s.deliveries, s.applied, s.Room(), s.seen.ttl, s.self);
    RoomyWithin(Elements(s.applied), Elements(frames));
    HeardIs(s.applied);
    OfferedAlike(s.applied, frames, s.self, hash);
    LiveExactly(s.applied, hash, peer);
    SpokenAlike(s.applied, frames, s.self, hash, peer);
  }

  lemma {:induction false} OfferedAlike(x: seq<Frame>, y: seq<Frame>, self: PeerId, hash: BlobHash)
    requires SameNews(x, y, {self})
    ensures hash in Hashes(Elements(x)) <==> exists f :: f in y && f.body.Offer? && f.body.offer.hash == hash
  {
    if hash in Hashes(Elements(x)) {
      var f :| f in Elements(x) && f.body.Offer? && f.body.offer.hash == hash;
      assert f in x && IsNews(f, {self});
    }
    if f :| f in y && f.body.Offer? && f.body.offer.hash == hash {
      assert IsNews(f, {self});
      assert f in Elements(x);
    }
  }

  lemma {:induction false} SpokenAlike(x: seq<Frame>, y: seq<Frame>, self: PeerId, hash: BlobHash, peer: PeerId)
    requires SameNews(x, y, {self}) && peer != self
    ensures forall f: Frame :: f.author == peer && IsCore(f) ==> (f in x <==> f in y)
    ensures forall f :: IsLastWord(x, f, hash, peer) <==> IsLastWord(y, f, hash, peer)
  {
    forall f: Frame | f.author == peer && IsCore(f)
      ensures f in x <==> f in y
    {
      assert IsNews(f, {self});
    }
  }

  lemma {:induction false} NewsThrough(x: seq<Frame>, y: seq<Frame>, z: seq<Frame>, few: set<PeerId>, many: set<PeerId>)
    requires SameNews(x, y, few) && few <= many && (SameNews(y, z, many) || SameNews(z, y, many))
    ensures SameNews(x, z, many) && SameNews(z, x, many)
  {
    assert forall f :: IsNews(f, many) ==> IsNews(f, few);
  }

  /** Restoring the same history again, while the cache still remembers it,
      applies nothing. */
  lemma {:induction false} RestoringAgainIsSilent(ds: seq<Delivery>, again: seq<Delivery>, start: int, room: nat,
                                                  ttl: nat)
    requires |ds| <= room
    requires forall i :: 0 <= i < |ds| ==> start <= ds[i].later
    requires forall r :: 0 <= r < |again| ==>
            again[r].way == Restored && again[r].frame in Delivered(ds) && again[r].now - start <= ttl
    ensures GainedFrom(ds, again, 0, room, ttl) == 0
  {
    SilentFrom(ds, again, 0, start, room, ttl);
  }

  /** With the cache a session has, that covers a whole exported log for ten
      minutes. */
  lemma {:induction false} RestoredLogIsRemembered(ds: seq<Delivery>, again: seq<Delivery>, start: int)
    requires |ds| <= SyncLog.SYNC_LOG_CAP
    requires forall i :: 0 <= i < |ds| ==> start <= ds[i].later
    requires forall r :: 0 <= r < |again| ==>
               again[r].way == Restored && again[r].frame in Delivered(ds) && again[r].now - start <= Dedup.DEDUP_TTL
    ensures GainedFrom(ds, again, 0, Dedup.Room(Dedup.DEDUP_CAPACITY), Dedup.DEDUP_TTL) == 0
  {
    RestoringAgainIsSilent(ds, again, start, Dedup.Room(Dedup.DEDUP_CAPACITY), Dedup.DEDUP_TTL);
  }

  lemma {:induction false} SilentFrom(ds: seq<Delivery>, again: seq<Delivery>, i: nat, start: int, room: nat, ttl: nat)
    requires |ds| <= room && i <= |again|
    requires forall i :: 0 <= i < |ds| ==> start <= ds[i].later
    requires forall r :: 0 <= r < |again| ==>
            again[r].way == Restored && again[r].frame in Delivered(ds) && again[r].now - start <= ttl
    ensures GainedFrom(ds, again, i, room, ttl) == 0
    decreases |again| - i
  {
    if i < |again| {
      SilentFrom(ds, again, i + 1, start, room, ttl);
      RefusedAgain(ds, again[..i], again[i], start, room, ttl);
    }
  }

  lemma {:induction false} CallsAre(ds: seq<Delivery>)
    ensures |Calls(ds)| == |ds| == |Delivered(ds)|
    ensures forall i :: 0 <= i < |ds| ==> Calls(ds)[i] == Dedup.Call(KeyOf(ds[i].frame), ds[i].now, ds[i].later)
    ensures forall i :: 0 <= i < |ds| ==> Delivered(ds)[i] == ds[i].frame
  {
    if ds != [] {
      CallsAre(ds[..|ds| - 1]);
    }
  }

  lemma {:induction false} RefusedAgain(ds: seq<Delivery>, before: seq<Delivery>, d: Delivery, start: int, room: nat,
                                        ttl: nat)
    requires |ds| <= room
    requires forall i :: 0 <= i < |ds| ==> start <= ds[i].later
    requires forall r :: 0 <= r < |before| ==> before[r].frame in Delivered(ds) && before[r].now - start <= ttl
    requires d.frame in Delivered(ds) && d.now - start <= ttl
    ensures !IsFresh(ds + before, d, room, ttl)
  {
    CallsConcat(ds, before);
    CallsAre(ds);
    CallsAre(before);
    forall r | 0 <= r < |before|
      ensures exists i :: 0 <= i < |Calls(ds)| && Calls(ds)[i].key == Calls(before)[r].key
    {
      var i := CallOf(ds, before[r].frame);
    }
    Dedup.ReplayIsSilent(Calls(ds), Calls(before), start, room, ttl);
    StillRemembered(ds, d, start, room, ttl);
  }

  lemma {:induction false} CallsConcat(x: seq<Delivery>, y: seq<Delivery>)
    ensures Calls(x + y) == Calls(x) + Calls(y)
  {
    CallsAre(x);
    CallsAre(y);
    CallsAre(x + y);
  }

  lemma {:induction false} CallOf(ds: seq<Delivery>, f: Frame) returns (i: nat)
    requires f in Delivered(ds)
    ensures i < |Calls(ds)| && Calls(ds)[i].key == KeyOf(f)
  {
    CallsAre(ds);
    i :| 0 <= i < |ds| && Delivered(ds)[i] == f;
  }

  lemma {:induction false} StillRemembered(ds: seq<Delivery>, d: Delivery, start: int, room: nat, ttl: nat)
    requires |ds| <= room
    requires forall i :: 0 <= i < |ds| ==> start <= ds[i].later
    requires d.frame in Delivered(ds) && d.now - start <= ttl
    ensures Dedup.SeenRecently(Accepted(ds, room, ttl), KeyOf(d.frame), d.now, room, ttl)
  {
    CallsAre(ds);
    var i := CallOf(ds, d.frame);
    Dedup.BatchIsRemembered(Calls(ds), i, d.now, start, room, ttl);
  }
}
