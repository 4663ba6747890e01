/** Catching up makes sessions agree: what a pull in full is worth to the one
    who joins, and to two neighbors who pull from each other. */
module Joining {
  import opened Common
  import opened Convergence
  import CatchUp
  import Postcard
  import RateLimiter
  import Replay
  import Restore
  import Session
  import SyncLog
  import Transfer

  /** One attempt against a peer whose log does not change meanwhile: the
      connection, when it asks, and what its frames arrive as. */
  datatype Attempt = Attempt(line: Transfer.Line, prior: RateLimiter.Calls, hello: real, times: seq<real>,
                             charged: RateLimiter.Calls, arrivals: seq<Replay.Arrival>)

  ghost function Handed(a: Attempt, history: SyncLog.Entries): seq<Bytes> {
    Transfer.Run(a.line, Transfer.Opened(a.line, history, a.prior, a.hello),
                 Transfer.Asks(a.times, |a.times|)).system.client.handed
  }

  /** The hello and every page get through, what is handed over arrives, and
      every arrival finds a token. */
  ghost predicate GetsThrough(a: Attempt, history: SyncLog.Entries, decode: Decoder) {
    && CatchUp.PageCount(history) <= |a.times|
    && Transfer.FirstPass(a.line, history, a.prior, a.hello, a.times, CatchUp.PageCount(history))
    && Replay.Decodes(a.arrivals, Handed(a, history), decode)
    && Replay.Passed(Replay.MESSAGES, a.charged, a.arrivals) == Replay.All(a.arrivals)
  }

  /** The log of a session delivered `ds` has evicted nothing, and the attempt
      against it gets through. */
  ghost predicate IsPulled(ds: seq<Session.Delivery>, a: Attempt, decode: Decoder, room: nat, ttl: nat) {
    var history := SyncLog.Retained(Session.Logged(ds, room, ttl));
    CatchUp.Small(history) && SyncLog.Start(history) == 0 && GetsThrough(a, history, decode)
  }

  /** A log that never evicted, of frames no longer than frames are, all of which
      decode. */
  ghost predicate IsWhole(history: SyncLog.Entries, decode: Decoder) {
    && CatchUp.Small(history) && SyncLog.Start(history) == 0
    && forall i :: 0 <= i < |history| ==> decode(history[i].frame).Some?
  }

  lemma {:induction false} DecodedAt(arrivals: seq<Replay.Arrival>, handed: seq<Bytes>, decode: Decoder)
    requires Replay.Decodes(arrivals, handed, decode)
    requires forall i :: 0 <= i < |handed| ==> decode(handed[i]).Some?
    ensures |arrivals| == |handed|
    ensures forall i :: 0 <= i < |handed| ==>
              arrivals[i].raw == handed[i] && decode(handed[i]) == Some(arrivals[i].frame)
  {
    if handed != [] {
      DecodedAt(arrivals[..|arrivals| - 1], handed[..|handed| - 1], decode);
    }
  }

  lemma {:induction false} AllAre(arrivals: seq<Replay.Arrival>)
    ensures |Replay.All(arrivals)| == |arrivals|
    ensures forall i :: 0 <= i < |arrivals| ==> Replay.All(arrivals)[i] == Replay.Delivered(arrivals[i])
  {
    if arrivals != [] {
      AllAre(arrivals[..|arrivals| - 1]);
    }
  }

  /** An attempt that gets through delivers exactly the peer's log. */
  lemma {:induction false} PullCarriesLog(a: Attempt, history: SyncLog.Entries, decode: Decoder)
    requires IsWhole(history, decode) && GetsThrough(a, history, decode)
    ensures Restore.IsReplay(Replay.Passed(Replay.MESSAGES, a.charged, a.arrivals), SyncLog.Frames(history), decode)
  {
    Transfer.QuietPullExactly(a.line, history, a.prior, a.hello, a.times);
    Restore.NothingEvicted(history);
    forall i | 0 <= i < |history|
      ensures SyncLog.Frames(history)[i] == history[i].frame
    {
      SyncLog.FramesAt(history, i);
    }
    DecodedAt(a.arrivals, SyncLog.Frames(history), decode);
    AllAre(a.arrivals);
  }

  lemma {:induction false} LogDecodes(ds: seq<Session.Delivery>, history: SyncLog.Entries, decode: Decoder, room: nat,
                                      ttl: nat)
    requires Restore.Honest(ds, decode) && history == SyncLog.Retained(Session.Logged(ds, room, ttl))
    ensures forall i :: 0 <= i < |history| ==> decode(history[i].frame).Some?
  {
    forall i | 0 <= i < |history|
      ensures decode(history[i].frame).Some?
    {
      Restore.RetainedArrived(Session.Logged(ds, room, ttl), history[i]);
      Restore.LoggedWasDelivered(ds, history[i], decode, room, ttl);
    }
  }

  /** An empty session whose attempt against a session gets through agrees with
      it on the offers and, of everyone but the two, on the live providers. */
  lemma {:induction false} JoinerAgrees(s: Session.Session, t: Session.Session, a: Attempt, decode: Decoder)
    requires s.Valid() && s.inFlight == [] && Restore.AnnouncesOwn(s)
    requires Restore.Honest(s.deliveries, decode)
    requires UniqueIds(Elements(Session.Delivered(s.deliveries))) && Roomy(Elements(Session.Delivered(s.deliveries)))
    requires CatchUp.Small(s.log.history) && SyncLog.Start(s.log.history) == 0
    requires GetsThrough(a, s.log.history, decode)
    requires t.Valid() && t.inFlight == [] && t.deliveries == Replay.Passed(Replay.MESSAGES, a.charged, a.arrivals)
    requires s.Room() == t.Room() && s.seen.ttl == t.seen.ttl
    ensures Agree(s.table.Value(), t.table.Value(), {s.self, t.self})
  {
    Session.ExpectedIs(s.deliveries, s.Room(), s.seen.ttl);
    LogDecodes(s.deliveries, s.log.history, decode, s.Room(), s.seen.ttl);
    PullCarriesLog(a, s.log.history, decode);
    Restore.NothingEvicted(s.log.history);
    Restore.RestoredAgrees(s, t, SyncLog.Frames(s.log.history), decode);
  }

  /** At one instant and on fresh buckets at both ends, an attempt gets through
      if and only if the log takes at most 31 pages, each of them fits, and at
      most 64 of its frames decode. */
  lemma {:induction false} InstantAttemptExactly(history: SyncLog.Entries, n: nat, arrivals: seq<Replay.Arrival>,
                                                 at: real, decode: Decoder)
    requires CatchUp.Small(history) && |history| < Postcard.Limit(10, 1) && CatchUp.PageCount(history) <= n
    requires Replay.AllAt(arrivals, at)
    requires Replay.Decodes(arrivals, Replay.Attempt(history, at, n).handed, decode)
    ensures GetsThrough(Attempt(Transfer.SERVER, [], at, Transfer.AtOnce(at, n), [], arrivals), history, decode) <==>
            && CatchUp.PageCount(history) <= 31 && Transfer.AllFit(history)
            && Replay.Decodable(SyncLog.Frames(SyncLog.Kept(history)), decode) <= 64
  {
    Transfer.PassAtOnce(history, at, Transfer.AtOnce(at, n), CatchUp.PageCount(history));
    Replay.InstantCatchUpExactly(history, n, decode, arrivals, at);
    Transfer.InstantPullExactly(history, at, n);
  }

  // ----- Pulling in both directions -----

  lemma {:induction false} DeliveredConcat(x: seq<Session.Delivery>, y: seq<Session.Delivery>)
    ensures Session.Delivered(x + y) == Session.Delivered(x) + Session.Delivered(y)
  {
    Session.CallsAre(x);
    Session.CallsAre(y);
    Session.CallsAre(x + y);
  }

  /** What is handed over of the log of a session as it once was, `early`, is
      part of what that session was delivered, and carries all of its news. */
  lemma {:induction false} PrefixIsCarried(ds: seq<Session.Delivery>, early: seq<Session.Delivery>, a: Attempt,
                                           decode: Decoder, room: nat, ttl: nat)
    requires early <= ds && Restore.Honest(ds, decode) && UniqueIds(Elements(Session.Delivered(ds)))
    requires IsPulled(early, a, decode, room, ttl)
    ensures var got := Replay.Passed(Replay.MESSAGES, a.charged, a.arrivals);
            && SameNews(Session.Delivered(early), Session.Delivered(got), {})
            && Elements(Session.Delivered(got)) <= Elements(Session.Delivered(ds))
  {
    var history := SyncLog.Retained(Session.Logged(early, room, ttl));
    assert ds == early + ds[|early|..];
    DeliveredConcat(early, ds[|early|..]);
    assert forall f :: f in Session.Delivered(early) ==> f in Elements(Session.Delivered(ds));
    assert Restore.Honest(early, decode);
    LogDecodes(early, history, decode, room, ttl);
    PullCarriesLog(a, history, decode);
    Restore.ExportCarriesNews(early, history, Replay.Passed(Replay.MESSAGES, a.charged, a.arrivals), decode, room, ttl);
  }

  /** Frame by frame: what `x` holds besides what it got, the other one got. */
  lemma {:induction false} NewsIsShared(x: seq<Frame>, own: seq<Frame>, fromY: seq<Frame>, early: seq<Frame>,
                                        y: seq<Frame>, fromX: seq<Frame>, selves: set<PeerId>)
    requires x == own + fromY && Elements(own) <= Elements(early) && SameNews(early, fromX, {})
    requires Elements(fromX) <= Elements(y) && Elements(fromY) <= Elements(y)
    ensures forall f :: f in x && IsNews(f, selves) ==> f in y
  {
    forall f | f in x && IsNews(f, selves)
      ensures f in y
    {
      assert f in Elements(own) || f in Elements(fromY);
      if f in own {
        assert f in Elements(early) && IsNews(f, {});
        assert f in Elements(fromX);
      }
    }
  }

  /** Two sessions that pull each other's log, one after the other or at the same
      time, agree: one was delivered `x` and then what it pulled, the other `y`
      and then what it pulled, and each was pulled from when it had been delivered
      at least its own part. */
  lemma {:induction false} BothDirectionsConverge(s: Session.Session, t: Session.Session,
                                                  x: seq<Session.Delivery>, x': seq<Session.Delivery>, fromS: Attempt,
                                                  y: seq<Session.Delivery>, y': seq<Session.Delivery>, fromT: Attempt,
                                                  decode: Decoder)
    requires s.Valid() && t.Valid() && s.inFlight == [] && t.inFlight == []
    requires s.Room() == t.Room() && s.seen.ttl == t.seen.ttl
    requires Restore.AnnouncesOwn(s) && Restore.AnnouncesOwn(t)
    requires Restore.Honest(s.deliveries, decode) && Restore.Honest(t.deliveries, decode)
    requires UniqueIds(Elements(Session.Delivered(s.deliveries)) + Elements(Session.Delivered(t.deliveries)))
    requires Roomy(Elements(Session.Delivered(s.deliveries))) && Roomy(Elements(Session.Delivered(t.deliveries)))
    requires s.deliveries == x + Replay.Passed(Replay.MESSAGES, fromT.charged, fromT.arrivals)
    requires t.deliveries == y + Replay.Passed(Replay.MESSAGES, fromS.charged, fromS.arrivals)
    requires x <= x' <= s.deliveries && y <= y' <= t.deliveries
    requires IsPulled(x', fromS, decode, s.Room(), s.seen.ttl) && IsPulled(y', fromT, decode, t.Room(), t.seen.ttl)
    ensures Agree(s.table.Value(), t.table.Value(), {s.self, t.self})
  {
    var gotS := Replay.Passed(Replay.MESSAGES, fromS.charged, fromS.arrivals);
    var gotT := Replay.Passed(Replay.MESSAGES, fromT.charged, fromT.arrivals);
    PrefixIsCarried(s.deliveries, x', fromS, decode, s.Room(), s.seen.ttl);
    PrefixIsCarried(t.deliveries, y', fromT, decode, t.Room(), t.seen.ttl);
    SharedBothWays(s.deliveries, x, x', gotS, t.deliveries, y, y', gotT, {s.self, t.self});
    Session.QuietSessionsAgree(s, t);
  }

  lemma {:induction false} PartDelivered(x: seq<Session.Delivery>, early: seq<Session.Delivery>)
    requires x <= early
    ensures Elements(Session.Delivered(x)) <= Elements(Session.Delivered(early))
  {
    assert early == x + early[|x|..];
    DeliveredConcat(x, early[|x|..]);
  }

  lemma {:induction false} SharedBothWays(ds: seq<Session.Delivery>, x: seq<Session.Delivery>,
                                          x': seq<Session.Delivery>, gotS: seq<Session.Delivery>,
                                          es: seq<Session.Delivery>, y: seq<Session.Delivery>,
                                          y': seq<Session.Delivery>, gotT: seq<Session.Delivery>, selves: set<PeerId>)
    requires ds == x + gotT && es == y + gotS && x <= x' && y <= y'
    requires SameNews(Session.Delivered(x'), Session.Delivered(gotS), {})
    requires SameNews(Session.Delivered(y'), Session.Delivered(gotT), {})
    requires Elements(Session.Delivered(gotS)) <= Elements(Session.Delivered(ds))
    requires Elements(Session.Delivered(gotT)) <= Elements(Session.Delivered(es))
    ensures SameNews(Session.Delivered(ds), Session.Delivered(es), selves)
  {
    DeliveredConcat(x, gotT);
    DeliveredConcat(y, gotS);
    PartDelivered(x, x');
    PartDelivered(y, y');
    assert Elements(Session.Delivered(gotS)) <= Elements(Session.Delivered(es));
    assert Elements(Session.Delivered(gotT)) <= Elements(Session.Delivered(ds));
    NewsIsShared(Session.Delivered(ds), Session.Delivered(x), Session.Delivered(gotT), Session.Delivered(x'),
                 Session.Delivered(es), Session.Delivered(gotS), selves);
    NewsIsShared(Session.Delivered(es), Session.Delivered(y), Session.Delivered(gotS), Session.Delivered(y'),
                 Session.Delivered(ds), Session.Delivered(gotT), selves);
  }
}
