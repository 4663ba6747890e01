/** Replaying what a catch-up attempt handed over: every frame is charged to
    the peer it came from, so what was handed over is not always applied. */
module Replay {
  import opened Common
  import Convergence
  import RateLimiter
  import Session
  import SyncLog
  import CatchUp
  import Transfer
  import Postcard

  const MESSAGES := RateLimiter.Rate(64.0, 16.0)

  /** A decoded frame about to be handled, with the clock readings of the limiter
      and of the dedup check. */
  datatype Arrival = Arrival(frame: Convergence.Frame, raw: Bytes, at: real, now: int, later: int)

  function Delivered(a: Arrival): Session.Delivery {
    Session.Delivery(Session.Relayed, a.frame, a.raw, a.now, a.later)
  }

  /** The peer's calls on record after the arrivals. */
  ghost function Charged(rate: RateLimiter.Rate, calls: RateLimiter.Calls,
                         arrivals: seq<Arrival>): (after: RateLimiter.Calls)
    ensures |after| == |calls| + |arrivals|
  {
    if arrivals == [] then calls
    else
      var before, at := Charged(rate, calls, arrivals[..|arrivals| - 1]), arrivals[|arrivals| - 1].at;
      before + [RateLimiter.Call(at, RateLimiter.HasToken(rate, before, at))]
  }

  /** Does arrival number `j` find a token? */
  ghost predicate Passes(rate: RateLimiter.Rate, calls: RateLimiter.Calls, arrivals: seq<Arrival>, j: nat)
    requires j < |arrivals|
  {
    RateLimiter.HasToken(rate, Charged(rate, calls, arrivals[..j]), arrivals[j].at)
  }

  /** What reaches the session. */
  ghost function Passed(rate: RateLimiter.Rate, calls: RateLimiter.Calls,
                        arrivals: seq<Arrival>): (ds: seq<Session.Delivery>)
    ensures |ds| <= |arrivals|
  {
    if arrivals == [] then []
    else
      var front, last := arrivals[..|arrivals| - 1], arrivals[|arrivals| - 1];
      if Passes(rate, calls, arrivals, |front|) then Passed(rate, calls, front) + [Delivered(last)]
      else Passed(rate, calls, front)
  }

  /** Clock readings that never go back. */
  ghost predicate SteadyFrom(arrivals: seq<Arrival>, i: nat, clock: int)
    requires i <= |arrivals|
    decreases |arrivals| - i
  {
    i == |arrivals| ||
    (clock <= arrivals[i].now <= arrivals[i].later && SteadyFrom(arrivals, i + 1, arrivals[i].later))
  }

  /** The session and the peer's bucket after some arrivals. */
  ghost predicate Replayed(session: Session.Session, limiter: RateLimiter.PeerRateLimiter, from: PeerId,
                           before: seq<Session.Delivery>, calls: RateLimiter.Calls, arrivals: seq<Arrival>)
    reads session, limiter
  {
    && session.deliveries == before + Passed(limiter.rate, calls, arrivals)
    && RateLimiter.CallsOf(limiter.calls, from) == Charged(limiter.rate, calls, arrivals)
  }

  /** Every frame handed over goes through the peer's bucket first, and exactly
      those that find a token reach the session. */
  method ReplayAttempt(session: Session.Session, limiter: RateLimiter.PeerRateLimiter, from: PeerId,
                       arrivals: seq<Arrival>)
    requires session.Valid() && limiter.Valid() && SteadyFrom(arrivals, 0, session.seen.state.clock)
    modifies session, session.seen, session.table, session.log, limiter
    ensures session.Valid() && limiter.Valid()
    ensures session.deliveries ==
            old(session.deliveries) + Passed(limiter.rate, RateLimiter.CallsOf(old(limiter.calls), from), arrivals)
  {
    var i := 0;
    ghost var before, calls := session.deliveries, RateLimiter.CallsOf(limiter.calls, from);
    while i < |arrivals|
      invariant i <= |arrivals|
      invariant session.Valid() && limiter.Valid() && SteadyFrom(arrivals, i, session.seen.state.clock)
      invariant Replayed(session, limiter, from, before, calls, arrivals[..i])
    {
      ReplayItem(session, limiter, from, before, calls, arrivals, i);
      i := i + 1;
    }
    assert arrivals[..i] == arrivals;
  }

  method ReplayItem(session: Session.Session, limiter: RateLimiter.PeerRateLimiter, from: PeerId,
                    ghost before: seq<Session.Delivery>, ghost calls: RateLimiter.Calls, arrivals: seq<Arrival>, i: nat)
    requires i < |arrivals| && session.Valid() && limiter.Valid()
    requires session.seen.state.clock <= arrivals[i].now <= arrivals[i].later
    requires Replayed(session, limiter, from, before, calls, arrivals[..i])
    modifies session, session.seen, session.table, session.log, limiter
    ensures session.Valid() && limiter.Valid() && session.seen.state.clock <= arrivals[i].later
    ensures Replayed(session, limiter, from, before, calls, arrivals[..i + 1])
  {
    StepOne(limiter.rate, before, calls, arrivals, i);
    ReplayOne(session, limiter, from, arrivals[i]);
  }

  /** One frame: the peer is charged, and the frame handled if that is allowed. */
  method ReplayOne(session: Session.Session, limiter: RateLimiter.PeerRateLimiter, from: PeerId, a: Arrival)
    requires session.Valid() && limiter.Valid() && session.seen.state.clock <= a.now <= a.later
    modifies session, session.seen, session.table, session.log, limiter
    ensures session.Valid() && limiter.Valid() && session.seen.state.clock <= a.later
    ensures var calls := RateLimiter.CallsOf(old(limiter.calls), from);
            var allowed := RateLimiter.HasToken(limiter.rate, calls, a.at);
            && RateLimiter.CallsOf(limiter.calls, from) == calls + [RateLimiter.Call(a.at, allowed)]
            && session.deliveries ==
               (if allowed then old(session.deliveries) + [Delivered(a)] else old(session.deliveries))
  {
    var allowed := Charge(limiter, from, a.at);
    Handle(session, from, a, allowed);
  }

  method Handle(session: Session.Session, from: PeerId, a: Arrival, allowed: bool)
    requires session.Valid() && session.seen.state.clock <= a.now <= a.later
    modifies session, session.seen, session.table, session.log
    ensures session.Valid() && session.seen.state.clock <= a.later
    ensures session.deliveries == if allowed then old(session.deliveries) + [Delivered(a)] else old(session.deliveries)
  {
    session.HandleMessage(a.frame, a.raw, from, allowed, a.now, a.later);
  }

  /** One call of the limiter, as it concerns the peer itself. */
  method Charge(limiter: RateLimiter.PeerRateLimiter, from: PeerId, at: real) returns (allowed: bool)
    requires limiter.Valid()
    modifies limiter
    ensures limiter.Valid()
    ensures allowed == RateLimiter.HasToken(limiter.rate, RateLimiter.CallsOf(old(limiter.calls), from), at)
    ensures RateLimiter.CallsOf(limiter.calls, from) ==
            RateLimiter.CallsOf(old(limiter.calls), from) + [RateLimiter.Call(at, allowed)]
  {
    ghost var order := limiter.order;
    RateLimiter.ListedHold(order, if order == [] then 0 else order[0]);
    allowed := limiter.AllowAt(from, at);
  }

  lemma {:induction false} StepOne(rate: RateLimiter.Rate, before: seq<Session.Delivery>, calls: RateLimiter.Calls,
                                   arrivals: seq<Arrival>, i: nat)
    requires i < |arrivals|
    ensures var charged := Charged(rate, calls, arrivals[..i]);
            Charged(rate, calls, arrivals[..i + 1]) ==
            charged + [RateLimiter.Call(arrivals[i].at, RateLimiter.HasToken(rate, charged, arrivals[i].at))]
    ensures var charged, so := Charged(rate, calls, arrivals[..i]), before + Passed(rate, calls, arrivals[..i]);
            before + Passed(rate, calls, arrivals[..i + 1]) ==
            if RateLimiter.HasToken(rate, charged, arrivals[i].at) then so + [Delivered(arrivals[i])] else so
  {
    assert arrivals[..i + 1][..i] == arrivals[..i];
    ConcatPush(before, Passed(rate, calls, arrivals[..i]), Delivered(arrivals[i]));
  }

  /** An arrival is dropped if and only if some window of calls ending with it
      would exceed the burst plus what flowed in. */
  lemma {:induction false} DroppedExactly(rate: RateLimiter.Rate, calls: RateLimiter.Calls, arrivals: seq<Arrival>,
                                          j: nat)
    requires j < |arrivals|
    ensures var before, at := Charged(rate, calls, arrivals[..j]), arrivals[j].at;
            !Passes(rate, calls, arrivals, j) <==>
            exists i :: 0 <= i <= |before| &&
              RateLimiter.Allowed(before, i) as real + 1.0 > rate.burst + RateLimiter.Refill(rate, before, i, at)
  {
    RateLimiter.RefusedExactly(rate, Charged(rate, calls, arrivals[..j]), arrivals[j].at);
  }

  lemma {:induction false} ChargedIsAnswered(rate: RateLimiter.Rate, calls: RateLimiter.Calls, arrivals: seq<Arrival>)
    requires RateLimiter.Answered(rate, calls)
    ensures RateLimiter.Answered(rate, Charged(rate, calls, arrivals))
  {
    if arrivals != [] {
      var front := arrivals[..|arrivals| - 1];
      ChargedIsAnswered(rate, calls, front);
      FrontCharged(rate, calls, arrivals);
    }
  }

  lemma {:induction false} FrontCharged(rate: RateLimiter.Rate, calls: RateLimiter.Calls, arrivals: seq<Arrival>)
    requires arrivals != []
    ensures var before, after := Charged(rate, calls, arrivals[..|arrivals| - 1]), Charged(rate, calls, arrivals);
            && after[..|after| - 1] == before && after[|after| - 1].at == arrivals[|arrivals| - 1].at
            && (after[|after| - 1].allowed <==> Passes(rate, calls, arrivals, |arrivals| - 1))
            && (after[|after| - 1].allowed <==> RateLimiter.HasToken(rate, before, arrivals[|arrivals| - 1].at))
  {
  }

  lemma {:induction false} ChargedCounts(rate: RateLimiter.Rate, calls: RateLimiter.Calls, arrivals: seq<Arrival>)
    ensures RateLimiter.Allowed(Charged(rate, calls, arrivals), |calls|) == |Passed(rate, calls, arrivals)|
  {
    if arrivals != [] {
      ChargedCounts(rate, calls, arrivals[..|arrivals| - 1]);
      FrontCharged(rate, calls, arrivals);
    }
  }

  lemma {:induction false} ChargedAt(rate: RateLimiter.Rate, calls: RateLimiter.Calls, arrivals: seq<Arrival>, k: nat)
    requires k < |arrivals|
    ensures Charged(rate, calls, arrivals)[|calls| + k].at == arrivals[k].at
  {
    FrontCharged(rate, calls, arrivals);
    if k < |arrivals| - 1 {
      var after := Charged(rate, calls, arrivals);
      ChargedAt(rate, calls, arrivals[..|arrivals| - 1], k);
      assert after[..|after| - 1][|calls| + k] == after[|calls| + k];
    }
  }

  lemma {:induction false} ReplayWithinFlow(rate: RateLimiter.Rate, calls: RateLimiter.Calls, arrivals: seq<Arrival>)
    requires arrivals != [] && RateLimiter.Answered(rate, calls) && rate.burst >= 0.0 && rate.perSecond >= 0.0
    requires RateLimiter.Monotone(Charged(rate, calls, arrivals), arrivals[|arrivals| - 1].at)
    ensures |Passed(rate, calls, arrivals)| as real <=
            rate.burst + RateLimiter.Flow(rate, arrivals[|arrivals| - 1].at - arrivals[0].at)
  {
    ChargedIsAnswered(rate, calls, arrivals);
    ChargedCounts(rate, calls, arrivals);
    ChargedAt(rate, calls, arrivals, 0);
    ChargedAt(rate, calls, arrivals, |arrivals| - 1);
    RateLimiter.WindowWithinFlow(rate, Charged(rate, calls, arrivals), |calls|);
  }

  /** However many frames one replay hands over, no more reach the session than
      the burst and the time the replay took allow. */
  lemma {:induction false} ReplayIsBounded(rate: RateLimiter.Rate, calls: RateLimiter.Calls, arrivals: seq<Arrival>,
                                           took: real)
    requires arrivals != [] && RateLimiter.Answered(rate, calls) && rate.burst >= 0.0 && rate.perSecond >= 0.0
    requires RateLimiter.Monotone(Charged(rate, calls, arrivals), arrivals[|arrivals| - 1].at)
    requires took == arrivals[|arrivals| - 1].at - arrivals[0].at
    ensures |Passed(rate, calls, arrivals)| as real <= rate.burst + took * rate.perSecond
  {
    ReplayWithinFlow(rate, calls, arrivals);
    RateLimiter.FlowIs(rate, took);
  }

  // ----- At one instant, on a fresh bucket -----

  ghost predicate AllAt(arrivals: seq<Arrival>, at: real) {
    forall i :: 0 <= i < |arrivals| ==> arrivals[i].at == at
  }

  ghost function All(arrivals: seq<Arrival>): (ds: seq<Session.Delivery>)
    ensures |ds| == |arrivals|
  {
    if arrivals == [] then [] else All(arrivals[..|arrivals| - 1]) + [Delivered(arrivals[|arrivals| - 1])]
  }

  lemma {:induction false} TokensLeft(arrivals: seq<Arrival>, at: real)
    requires AllAt(arrivals, at)
    ensures RateLimiter.Before(MESSAGES, Charged(MESSAGES, [], arrivals), at) == (64 - Min(|arrivals|, 64)) as real
  {
    if arrivals != [] {
      var front := arrivals[..|arrivals| - 1];
      TokensLeft(front, at);
      RateLimiter.Spent(MESSAGES, Charged(MESSAGES, [], front), at);
    }
  }

  lemma {:induction false} FirstSixtyFour(arrivals: seq<Arrival>, at: real)
    requires AllAt(arrivals, at)
    ensures Passed(MESSAGES, [], arrivals) == All(arrivals[..Min(|arrivals|, 64)])
  {
    if arrivals != [] {
      var front := arrivals[..|arrivals| - 1];
      FirstSixtyFour(front, at);
      TokensLeft(front, at);
      if |arrivals| <= 64 {
        assert arrivals[..|arrivals|] == arrivals && front[..|front|] == front;
      } else {
        assert front[..64] == arrivals[..64];
      }
    }
  }

  /** Replayed at one instant on a fresh bucket, everything is delivered if and
      only if at most 64 frames were handed over. */
  lemma {:induction false} InstantReplayExactly(arrivals: seq<Arrival>, at: real)
    requires AllAt(arrivals, at)
    ensures Passed(MESSAGES, [], arrivals) == All(arrivals) <==> |arrivals| <= 64
    ensures |Passed(MESSAGES, [], arrivals)| == Min(|arrivals|, 64)
  {
    FirstSixtyFour(arrivals, at);
    if |arrivals| <= 64 {
      assert arrivals[..|arrivals|] == arrivals;
    }
  }

  // ----- From a peer's log to the session -----

  /** The arrivals are what decodes of the bytes handed over, in order. The rest
      is skipped before anyone is charged for it. */
  ghost predicate Decodes(arrivals: seq<Arrival>, handed: seq<Bytes>, decode: Convergence.Decoder) {
    if handed == [] then arrivals == []
    else
      var front, last := handed[..|handed| - 1], handed[|handed| - 1];
      if decode(last).None? then Decodes(arrivals, front, decode)
      else
        && arrivals != [] && arrivals[|arrivals| - 1].raw == last
        && decode(last) == Some(arrivals[|arrivals| - 1].frame)
        && Decodes(arrivals[..|arrivals| - 1], front, decode)
  }

  /** How many of the bytes decode. */
  ghost function Decodable(handed: seq<Bytes>, decode: Convergence.Decoder): (n: nat)
    ensures n <= |handed|
  {
    if handed == [] then 0
    else Decodable(handed[..|handed| - 1], decode) + (if decode(handed[|handed| - 1]).Some? then 1 else 0)
  }

  lemma {:induction false} DecodedCount(arrivals: seq<Arrival>, handed: seq<Bytes>, decode: Convergence.Decoder)
    requires Decodes(arrivals, handed, decode)
    ensures |arrivals| == Decodable(handed, decode)
  {
    if handed != [] {
      var front, last := handed[..|handed| - 1], handed[|handed| - 1];
      DecodedCount(if decode(last).None? then arrivals else arrivals[..|arrivals| - 1], front, decode);
    }
  }

  /** What was handed over, arriving at one instant. */
  ghost function Arriving(handed: seq<Bytes>, decode: Convergence.Decoder, at: real, now: int): (arrivals: seq<Arrival>)
  {
    if handed == [] then []
    else
      var front, last := Arriving(handed[..|handed| - 1], decode, at, now), handed[|handed| - 1];
      if decode(last).None? then front else front + [Arrival(decode(last).value, last, at, now, now)]
  }

  lemma {:induction false} ArrivingDecodes(handed: seq<Bytes>, decode: Convergence.Decoder, at: real, now: int)
    ensures Decodes(Arriving(handed, decode, at, now), handed, decode)
    ensures AllAt(Arriving(handed, decode, at, now), at)
  {
    if handed != [] {
      var front, last := handed[..|handed| - 1], handed[|handed| - 1];
      ArrivingDecodes(front, decode, at, now);
      var before, after := Arriving(front, decode, at, now), Arriving(handed, decode, at, now);
      assert decode(last).Some? ==> after[..|after| - 1] == before;
    }
  }

  lemma {:induction false} AllDecodable(handed: seq<Bytes>, decode: Convergence.Decoder)
    requires forall i :: 0 <= i < |handed| ==> decode(handed[i]).Some?
    ensures Decodable(handed, decode) == |handed|
  {
    if handed != [] {
      AllDecodable(handed[..|handed| - 1], decode);
    }
  }

  /** What one attempt against a log that does not change comes to, asked for at
      one instant and on a fresh bucket. */
  ghost function Attempt(history: SyncLog.Entries, at: real, n: nat): CatchUp.Client {
    Transfer.Run(Transfer.SERVER, Transfer.Opened(Transfer.SERVER, history, [], at),
                 Transfer.Asks(Transfer.AtOnce(at, n), n)).system.client
  }

  /** Pulled and replayed at one instant, on fresh buckets at both ends, a log is
      caught up with and all of it that decodes reaches the session, if and only
      if it takes at most 31 pages, each of them fits, and at most 64 of its
      frames decode. */
  lemma {:induction false} InstantCatchUpExactly(history: SyncLog.Entries, n: nat, decode: Convergence.Decoder,
                                                 arrivals: seq<Arrival>, at: real)
    requires CatchUp.Small(history) && |history| < Postcard.Limit(10, 1) && CatchUp.PageCount(history) <= n
    requires Decodes(arrivals, Attempt(history, at, n).handed, decode) && AllAt(arrivals, at)
    ensures Attempt(history, at, n).end == Some(CatchUp.CaughtUp) && Passed(MESSAGES, [], arrivals) == All(arrivals)
            <==>
            && CatchUp.PageCount(history) <= 31 && Transfer.AllFit(history)
            && Decodable(SyncLog.Frames(SyncLog.Kept(history)), decode) <= 64
  {
    Transfer.InstantPullExactly(history, at, n);
    DecodedCount(arrivals, Attempt(history, at, n).handed, decode);
    InstantReplayExactly(arrivals, at);
  }

  /** A log of up to 256 frames that leaves a page's overhead free is handed over
      whole by one page; when all its frames decode, the session gets all of them
      if and only if there are at most 64, and otherwise the first 64. */
  lemma {:induction false} OnePageIsCutAt64(history: SyncLog.Entries, decode: Convergence.Decoder,
                                            arrivals: seq<Arrival>, at: real)
    requires var kept := SyncLog.Kept(history);
             && |kept| <= CatchUp.MAX_FRAMES_PER_PAGE
             && SyncLog.Size(kept) + Transfer.OVERHEAD <= CatchUp.MAX_RESPONSE_BYTES
             && forall i :: 0 <= i < |kept| ==> decode(SyncLog.Frames(kept)[i]).Some?
    requires CatchUp.Small(history) && |history| < Postcard.Limit(10, 1)
    requires Decodes(arrivals, Attempt(history, at, 1).handed, decode) && AllAt(arrivals, at)
    ensures Attempt(history, at, 1).end == Some(CatchUp.CaughtUp)
    ensures Attempt(history, at, 1).handed == SyncLog.Frames(SyncLog.Kept(history))
    ensures Passed(MESSAGES, [], arrivals) == All(arrivals) <==> |SyncLog.Kept(history)| <= 64
    ensures Passed(MESSAGES, [], arrivals) == All(arrivals[..Min(|arrivals|, 64)])
  {
    OnePage(history);
    Transfer.InstantPullExactly(history, at, 1);
    DecodedCount(arrivals, Attempt(history, at, 1).handed, decode);
    AllDecodable(SyncLog.Frames(SyncLog.Kept(history)), decode);
    InstantReplayExactly(arrivals, at);
    FirstSixtyFour(arrivals, at);
  }

  lemma {:induction false} OnePage(history: SyncLog.Entries)
    requires CatchUp.Small(history) && |history| < Postcard.Limit(10, 1)
    requires |SyncLog.Kept(history)| <= CatchUp.MAX_FRAMES_PER_PAGE
    requires SyncLog.Size(SyncLog.Kept(history)) + Transfer.OVERHEAD <= CatchUp.MAX_RESPONSE_BYTES
    ensures CatchUp.PageCount(history) == 1 && Transfer.AllFit(history)
  {
    PageTakesAll(history);
    assert CatchUp.CursorAt(history, 1) == CatchUp.PageEnd(history, 0, CatchUp.MAX_FRAMES_PER_PAGE);
    assert CatchUp.IsLast(history, 0);
    Transfer.LightLogFits(history);
  }

  lemma {:induction false} PageTakesAll(history: SyncLog.Entries)
    requires CatchUp.Small(history) && |SyncLog.Kept(history)| <= CatchUp.MAX_FRAMES_PER_PAGE
    requires SyncLog.Size(SyncLog.Kept(history)) <= CatchUp.MAX_RESPONSE_BYTES
    ensures CatchUp.PageEnd(history, 0, CatchUp.MAX_FRAMES_PER_PAGE) >= |history|
  {
    var start, to := SyncLog.Start(history), CatchUp.PageEnd(history, 0, CatchUp.MAX_FRAMES_PER_PAGE);
    SyncLog.KeptIsTail(history);
    CatchUp.KeptIsWhole(history);
    CatchUp.PageMeaning(history, 0, CatchUp.MAX_FRAMES_PER_PAGE);
    if start <= to < |history| {
      Transfer.PartIsLighter(history, start, to + 1);
    }
  }
}
