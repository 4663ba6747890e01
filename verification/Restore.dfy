/** A session that got another's whole history agrees with it. */
module Restore {
  import opened Common
  import opened Convergence
  import Dedup
  import Session
  import SyncLog

  /** The bytes of every delivery are those of its frame. */
  ghost predicate Honest(ds: seq<Session.Delivery>, decode: Decoder) {
    forall d :: d in ds ==> decode(d.raw) == Some(d.frame)
  }

  /** Exported frames, decoded and handed to a session by whoever got them: by
      the persisted history or by a peer, but not as the session's own. */
  ghost predicate IsReplay(items: seq<Session.Delivery>, exported: seq<Bytes>, decode: Decoder) {
    && |items| == |exported|
    && (forall i :: 0 <= i < |items| ==>
          !items[i].way.Announced? && items[i].raw == exported[i] && decode(exported[i]) == Some(items[i].frame))
  }

  /** Some core entry of the log decodes to the frame. */
  ghost predicate Logs(entries: SyncLog.Entries, f: Frame, decode: Decoder) {
    exists e :: e in entries && e.core && decode(e.frame) == Some(f)
  }

  /** Every history frame delivered has gone into the log. */
  lemma {:induction false} NewsIsLogged(ds: seq<Session.Delivery>, f: Frame, decode: Decoder, room: nat, ttl: nat)
    requires Honest(ds, decode) && UniqueIds(Elements(Session.Delivered(ds)))
    requires f in Session.Delivered(ds) && IsCore(f)
    ensures Logs(Session.Logged(ds, room, ttl), f, decode)
  {
    var front, d := ds[..|ds| - 1], ds[|ds| - 1];
    Session.CallsNext(ds);
    assert d in ds && f in Elements(Session.Delivered(ds));
    if d.frame == f && (d.way.Announced? || Session.IsFresh(front, d, room, ttl)) {
      var e := SyncLog.Entry(d.raw, true);
      assert e in Session.Logged(ds, room, ttl);
    } else {
      if d.frame == f {
        assert Dedup.HasKey(Session.Accepted(front, room, ttl), Session.KeyOf(f));
        var earlier := Session.AcceptedWasDelivered(front, room, ttl, Session.KeyOf(f));
        assert earlier == f;
      }
      assert f in Elements(Session.Delivered(front));
      NewsIsLogged(front, f, decode, room, ttl);
      StillLogged(ds, f, decode, room, ttl);
    }
  }

  lemma {:induction false} StillLogged(ds: seq<Session.Delivery>, f: Frame, decode: Decoder, room: nat, ttl: nat)
    requires ds != [] && Logs(Session.Logged(ds[..|ds| - 1], room, ttl), f, decode)
    ensures Logs(Session.Logged(ds, room, ttl), f, decode)
  {
    var e :| e in Session.Logged(ds[..|ds| - 1], room, ttl) && e.core && decode(e.frame) == Some(f);
    assert e in Session.Logged(ds, room, ttl);
  }

  /** The log holds only what was delivered. */
  lemma {:induction false} LoggedWasDelivered(ds: seq<Session.Delivery>, e: SyncLog.Entry, decode: Decoder, room: nat,
                                              ttl: nat)
    requires Honest(ds, decode) && e in Session.Logged(ds, room, ttl)
    ensures decode(e.frame).Some? && decode(e.frame).value in Elements(Session.Delivered(ds))
  {
    var front, d := ds[..|ds| - 1], ds[|ds| - 1];
    Session.CallsNext(ds);
    assert d in ds;
    if e != SyncLog.Entry(d.raw, IsCore(d.frame)) {
      LoggedWasDelivered(front, e, decode, room, ttl);
    }
  }

  lemma {:induction false} CoreIsRetained(arrivals: SyncLog.Entries, e: SyncLog.Entry)
    requires e in arrivals && e.core
    ensures e in SyncLog.Retained(arrivals)
  {
    var front, last := arrivals[..|arrivals| - 1], arrivals[|arrivals| - 1];
    SplitLast(arrivals);
    if e in front {
      CoreIsRetained(front, e);
    }
  }

  lemma {:induction false} RetainedArrived(arrivals: SyncLog.Entries, e: SyncLog.Entry)
    requires e in SyncLog.Retained(arrivals)
    ensures e in arrivals
  {
    var front, last := arrivals[..|arrivals| - 1], arrivals[|arrivals| - 1];
    if e != last {
      RetainedArrived(front, e);
    }
  }

  /** While nothing was evicted, the exported log carries all the news there was
      and nothing else. */
  lemma {:induction false} ExportCarriesNews(ds: seq<Session.Delivery>, history: SyncLog.Entries,
                                             items: seq<Session.Delivery>, decode: Decoder, room: nat, ttl: nat)
    requires Honest(ds, decode) && UniqueIds(Elements(Session.Delivered(ds)))
    requires history == SyncLog.Retained(Session.Logged(ds, room, ttl))
    requires IsReplay(items, SyncLog.Frames(history), decode)
    ensures SameNews(Session.Delivered(ds), Session.Delivered(items), {})
    ensures Elements(Session.Delivered(items)) <= Elements(Session.Delivered(ds))
  {
    Session.CallsAre(items);
    forall f | f in Session.Delivered(ds) && IsNews(f, {})
      ensures f in Session.Delivered(items)
    {
      NewsIsLogged(ds, f, decode, room, ttl);
      var e :| e in Session.Logged(ds, room, ttl) && e.core && decode(e.frame) == Some(f);
      CoreIsRetained(Session.Logged(ds, room, ttl), e);
      var i :| 0 <= i < |history| && history[i] == e;
      SyncLog.FramesAt(history, i);
      assert Session.Delivered(items)[i] == f;
    }
    forall f | f in Session.Delivered(items)
      ensures f in Elements(Session.Delivered(ds))
    {
      var i :| 0 <= i < |items| && Session.Delivered(items)[i] == f;
      SyncLog.FramesAt(history, i);
      RetainedArrived(Session.Logged(ds, room, ttl), history[i]);
      LoggedWasDelivered(ds, history[i], decode, room, ttl);
    }
  }

  /** A session whose log has evicted nothing, and an empty session the exported
      log was restored or relayed into, agree on the offers and, of everyone but
      themselves, on the live providers. */
  lemma {:induction false} RestoredAgrees(s: Session.Session, t: Session.Session, exported: seq<Bytes>, decode: Decoder)
    requires s.Valid() && s.inFlight == [] && AnnouncesOwn(s)
    requires Honest(s.deliveries, decode)
    requires UniqueIds(Elements(Session.Delivered(s.deliveries))) && Roomy(Elements(Session.Delivered(s.deliveries)))
    requires SyncLog.Start(s.log.history) == 0 && exported == SyncLog.Frames(SyncLog.Kept(s.log.history))
    requires t.Valid() && t.inFlight == [] && IsReplay(t.deliveries, exported, decode)
    requires s.Room() == t.Room() && s.seen.ttl == t.seen.ttl
    ensures Agree(s.table.Value(), t.table.Value(), {s.self, t.self})
  {
    Session.ExpectedIs(s.deliveries, s.Room(), s.seen.ttl);
    NothingEvicted(s.log.history);
    ExportCarriesNews(s.deliveries, s.log.history, t.deliveries, decode, s.Room(), s.seen.ttl);
    FewerSelves(Session.Delivered(s.deliveries), Session.Delivered(t.deliveries), {}, {s.self, t.self});
    RoomyWithin(Elements(Session.Delivered(t.deliveries)), Elements(Session.Delivered(s.deliveries)));
    assert Elements(Session.Delivered(s.deliveries)) + Elements(Session.Delivered(t.deliveries)) ==
           Elements(Session.Delivered(s.deliveries));
    Session.QuietSessionsAgree(s, t);
  }

  ghost predicate AnnouncesOwn(s: Session.Session)
    reads s
  {
    Session.AnnouncesOwn(s.deliveries, s.self)
  }

  lemma {:induction false} NothingEvicted(history: SyncLog.Entries)
    requires SyncLog.Start(history) == 0
    ensures SyncLog.Kept(history) == history
  {
    SyncLog.KeptIsTail(history);
    assert history[0..] == history;
  }

  lemma {:induction false} FewerSelves(x: seq<Frame>, y: seq<Frame>, few: set<PeerId>, many: set<PeerId>)
    requires SameNews(x, y, few) && few <= many
    ensures SameNews(x, y, many)
  {
    assert forall f :: IsNews(f, many) ==> IsNews(f, few);
  }
}
