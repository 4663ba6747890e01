/** Flood control: one token bucket per peer, in a table that is itself
    bounded. Token counts and clock readings are exact reals. */
module RateLimiter {
  import opened Common

  const MAX_TRACKED_PEERS: nat := 4096

  /** `burst` tokens at once, refilled at `perSecond`. */
  datatype Rate = Rate(burst: real, perSecond: real)

  datatype Bucket = Bucket(tokens: real, last: real)

  /** One call, at a clock reading, and whether it was let through. */
  datatype Call = Call(at: real, allowed: bool)

  type Calls = seq<Call>

  function MinReal(a: real, b: real): real {
    if a <= b then a else b
  }

  /** A clock that went back counts as standing still. */
  function Since(earlier: real, now: real): (elapsed: real)
    ensures elapsed >= 0.0
  {
    if now <= earlier then 0.0 else now - earlier
  }

  /** What flows into a bucket during `elapsed` seconds. */
  function Flow(rate: Rate, elapsed: real): real {
    elapsed * rate.perSecond
  }

  lemma {:induction false} FlowIs(rate: Rate, elapsed: real)
    ensures Flow(rate, elapsed) == elapsed * rate.perSecond
  {
  }

  lemma {:induction false} FlowAdds(rate: Rate, a: real, b: real)
    ensures Flow(rate, a) + Flow(rate, b) == Flow(rate, a + b)
  {
  }

  lemma {:induction false} FlowGrows(rate: Rate, elapsed: real)
    requires rate.perSecond >= 0.0 && elapsed >= 0.0
    ensures Flow(rate, elapsed) >= 0.0
  {
  }

  lemma {:induction false} NoFlow(rate: Rate, elapsed: real)
    requires elapsed == 0.0
    ensures Flow(rate, elapsed) == 0.0
  {
  }

  /** A bucket's tokens at `now`: refilled, and capped at the burst. */
  function Refilled(rate: Rate, bucket: Bucket, now: real): real {
    MinReal(bucket.tokens + Flow(rate, Since(bucket.last, now)), rate.burst)
  }

  /** In numbers: what was left, and the rate for every second that passed, but
      never more than the burst. */
  lemma {:induction false} RefilledExactly(rate: Rate, bucket: Bucket, now: real)
    ensures var elapsed := if now > bucket.last then now - bucket.last else 0.0;
            var tokens := bucket.tokens + elapsed * rate.perSecond;
            Refilled(rate, bucket, now) == if tokens <= rate.burst then tokens else rate.burst
  {
  }

  // ----- What the bucket holds, step by step -----

  ghost function Before(rate: Rate, calls: Calls, now: real): real
    decreases |calls|, 1
  {
    if calls == [] then rate.burst
    else Refilled(rate, Bucket(After(rate, calls), calls[|calls| - 1].at), now)
  }

  ghost function After(rate: Rate, calls: Calls): real
    requires calls != []
    decreases |calls|, 0
  {
    var last := calls[|calls| - 1];
    Before(rate, calls[..|calls| - 1], last.at) - (if last.allowed then 1.0 else 0.0)
  }

  ghost predicate HasToken(rate: Rate, calls: Calls, now: real) {
    Before(rate, calls, now) >= 1.0
  }

  /** Every call was let through exactly when a whole token was there. */
  ghost predicate Answered(rate: Rate, calls: Calls) {
    calls == [] ||
    (var last := calls[|calls| - 1];
     Answered(rate, calls[..|calls| - 1]) &&
     last.allowed == HasToken(rate, calls[..|calls| - 1], last.at))
  }

  ghost function CallsOf(calls: map<PeerId, Calls>, peer: PeerId): Calls {
    if peer in calls then calls[peer] else []
  }

  /** A tracked peer's bucket sums up its own calls since it is tracked. */
  ghost predicate Sums(rate: Rate, bucket: Bucket, calls: Calls) {
    && calls != []
    && bucket == Bucket(After(rate, calls), calls[|calls| - 1].at)
    && Answered(rate, calls)
  }

  /** The calls on record after one more: a new peer may push out the peer
      that has been tracked longest. */
  ghost function Recorded(calls: map<PeerId, Calls>, order: seq<PeerId>, peer: PeerId, call: Call): map<PeerId, Calls> {
    var added := calls[peer := CallsOf(calls, peer) + [call]];
    if peer !in calls && order != [] && |order| >= MAX_TRACKED_PEERS then added - {order[0]} else added
  }

  ghost function Ordered(calls: map<PeerId, Calls>, order: seq<PeerId>, peer: PeerId): seq<PeerId> {
    if peer in calls then order
    else if order != [] && |order| >= MAX_TRACKED_PEERS then order[1..] + [peer]
    else order + [peer]
  }

  class PeerRateLimiter {
    const rate: Rate
    var buckets: map<PeerId, Bucket>
    var order: seq<PeerId>

    /** The calls of every tracked peer, since it is tracked. */
    ghost var calls: map<PeerId, Calls>

    ghost predicate Consistent()
      reads this
    {
      && buckets.Keys == calls.Keys == Listed(order)
      && Distinct(order)
      && (forall p :: p in calls ==> Sums(rate, buckets[p], calls[p]))
    }

    ghost predicate Valid()
      reads this
    {
      Consistent() && |order| <= MAX_TRACKED_PEERS
    }

    constructor (rate: Rate)
      ensures Valid() && this.rate == rate && calls == map[]
    {
      this.rate := rate;
      buckets, order, calls := map[], [], map[];
    }

    /** Take one token for `peer`. */
    method AllowAt(peer: PeerId, now: real) returns (allowed: bool)
      requires Valid()
      modifies this
      ensures Valid()
      ensures allowed <==> HasToken(rate, CallsOf(old(calls), peer), now)
      ensures var tokens := if peer in old(buckets) then Refilled(rate, old(buckets)[peer], now) else rate.burst;
              && (allowed <==> tokens >= 1.0)
              && (peer in buckets ==> buckets[peer] == Bucket(if allowed then tokens - 1.0 else tokens, now))
      ensures forall p :: p in buckets && p != peer ==> p in old(buckets) && buckets[p] == old(buckets)[p]
      ensures calls == Recorded(old(calls), old(order), peer, Call(now, allowed))
      ensures order == Ordered(old(calls), old(order), peer)
    {
      ghost var own := CallsOf(calls, peer);
      var isNew := peer !in buckets;
      var bucket := if isNew then Bucket(rate.burst, now) else buckets[peer];
      if !isNew {
        bucket := bucket.(tokens := Refilled(rate, bucket, now));
      }
      bucket := bucket.(last := now);
      allowed := bucket.tokens >= 1.0;
      if allowed {
        bucket := bucket.(tokens := bucket.tokens - 1.0);
      }
      OneMore(rate, own, now, allowed);
      Store(peer, bucket, Call(now, allowed));
    }

    /** Put a peer's bucket back, or into the table for the first time. */
    method Store(peer: PeerId, bucket: Bucket, ghost call: Call)
      requires Valid() && Sums(rate, bucket, CallsOf(calls, peer) + [call])
      modifies this
      ensures Valid()
      ensures calls == Recorded(old(calls), old(order), peer, call)
      ensures order == Ordered(old(calls), old(order), peer)
      ensures peer in buckets ==> buckets[peer] == bucket
      ensures forall p :: p in buckets && p != peer ==> p in old(buckets) && buckets[p] == old(buckets)[p]
    {
      if peer in buckets {
        PutBack(peer, bucket, call);
      } else {
        PutIn(peer, bucket, call);
      }
    }

    method PutBack(peer: PeerId, bucket: Bucket, ghost call: Call)
      requires Valid() && peer in calls && Sums(rate, bucket, calls[peer] + [call])
      modifies this`buckets, this`calls
      ensures Valid() && calls == old(calls)[peer := old(calls)[peer] + [call]]
      ensures buckets == old(buckets)[peer := bucket]
    {
      buckets := buckets[peer := bucket];
      calls := calls[peer := calls[peer] + [call]];
    }

    method PutIn(peer: PeerId, bucket: Bucket, ghost call: Call)
      requires Valid() && peer !in calls && Sums(rate, bucket, [] + [call])
      modifies this
      ensures Valid()
      ensures calls == Recorded(old(calls), old(order), peer, call)
      ensures order == Ordered(old(calls), old(order), peer)
      ensures peer in buckets ==> buckets[peer] == bucket
      ensures forall p :: p in buckets && p != peer ==> p in old(buckets) && buckets[p] == old(buckets)[p]
    {
      TailOfPush(order, peer);
      Track(peer, bucket, call);
      Evict();
    }

    /** Start tracking a peer. */
    method Track(peer: PeerId, bucket: Bucket, ghost call: Call)
      requires Consistent() && peer !in calls && Sums(rate, bucket, [] + [call])
      modifies this
      ensures Consistent() && order == old(order) + [peer]
      ensures calls == old(calls)[peer := [] + [call]] && buckets == old(buckets)[peer := bucket]
    {
      DistinctPush(order, peer);
      buckets := buckets[peer := bucket];
      calls := calls[peer := [] + [call]];
      order := order + [peer];
    }

    /** Forget the peers tracked longest, past the cap. */
    method Evict()
      requires Consistent() && |order| <= MAX_TRACKED_PEERS + 1
      modifies this
      ensures Valid()
      ensures forall p :: p in buckets ==> p in old(buckets) && buckets[p] == old(buckets)[p]
      ensures if |old(order)| <= MAX_TRACKED_PEERS then order == old(order) && calls == old(calls)
              else order == old(order)[1..] && calls == old(calls) - {old(order)[0]}
    {
      while |order| > MAX_TRACKED_PEERS
        invariant Consistent() && |order| <= MAX_TRACKED_PEERS + 1
        invariant forall p :: p in buckets ==> p in old(buckets) && buckets[p] == old(buckets)[p]
        invariant |order| == |old(order)| ==> order == old(order) && calls == old(calls)
        invariant |order| != |old(order)| ==> |old(order)| > MAX_TRACKED_PEERS && order == old(order)[1..]
        invariant |order| != |old(order)| ==> calls == old(calls) - {old(order)[0]}
        decreases |order|
      {
        var oldest := order[0];
        ListedHold(order[1..], oldest);
        order := order[1..];
        buckets := buckets - {oldest};
        calls := calls - {oldest};
      }
    }
  }

  ghost function Listed(order: seq<PeerId>): set<PeerId> {
    if order == [] then {} else {order[0]} + Listed(order[1..])
  }

  ghost predicate Distinct(order: seq<PeerId>) {
    order == [] || (order[0] !in order[1..] && Distinct(order[1..]))
  }

  lemma {:induction false} TailOfPush(order: seq<PeerId>, peer: PeerId)
    ensures order != [] ==> (order + [peer])[1..] == order[1..] + [peer] && (order + [peer])[0] == order[0]
  {
  }

  lemma {:induction false} ListedHold(order: seq<PeerId>, peer: PeerId)
    ensures peer in Listed(order) <==> peer in order
  {
    if order != [] {
      ListedHold(order[1..], peer);
      assert order == [order[0]] + order[1..];
    }
  }

  lemma {:induction false} DistinctPush(order: seq<PeerId>, peer: PeerId)
    requires Distinct(order) && peer !in Listed(order)
    ensures Distinct(order + [peer]) && Listed(order + [peer]) == Listed(order) + {peer}
  {
    if order != [] {
      DistinctPush(order[1..], peer);
      assert (order + [peer])[1..] == order[1..] + [peer];
    }
  }

  lemma {:induction false} OneMore(rate: Rate, calls: Calls, now: real, allowed: bool)
    requires Answered(rate, calls)
    requires allowed <==> HasToken(rate, calls, now)
    ensures Answered(rate, calls + [Call(now, allowed)])
    ensures var left := Before(rate, calls, now) - (if allowed then 1.0 else 0.0);
            Sums(rate, Bucket(left, now), calls + [Call(now, allowed)])
  {
    assert (calls + [Call(now, allowed)])[..|calls|] == calls;
  }

  // ----- What the bucket means -----

  /** How many of the calls from number `i` on were let through. */
  ghost function Allowed(calls: Calls, i: nat): (n: nat)
    requires i <= |calls|
    decreases |calls|
  {
    if i == |calls| then 0
    else Allowed(calls[..|calls| - 1], i) + (if calls[|calls| - 1].allowed then 1 else 0)
  }

  /** What flowed in from call number `i` until `now`, ignoring the cap. */
  ghost function Refill(rate: Rate, calls: Calls, i: nat, now: real): real
    requires i <= |calls|
    decreases |calls|
  {
    if i == |calls| then 0.0
    else
      var last := calls[|calls| - 1];
      Refill(rate, calls[..|calls| - 1], i, last.at) + Flow(rate, Since(last.at, now))
  }

  /** What would be left at `now` had the bucket been full at call `i`. */
  ghost function Headroom(rate: Rate, calls: Calls, i: nat, now: real): real
    requires i <= |calls|
  {
    rate.burst + Refill(rate, calls, i, now) - Allowed(calls, i) as real
  }

  /** The bucket holds the least headroom over all starting points. */
  lemma {:induction false} LeastHeadroom(rate: Rate, calls: Calls, now: real) returns (least: nat)
    ensures forall i :: 0 <= i <= |calls| ==> Before(rate, calls, now) <= Headroom(rate, calls, i, now)
    ensures least <= |calls| && Before(rate, calls, now) == Headroom(rate, calls, least, now)
    decreases |calls|
  {
    if calls == [] {
      least := 0;
    } else {
      var front, last := calls[..|calls| - 1], calls[|calls| - 1];
      least := LeastHeadroom(rate, front, last.at);
      forall i | 0 <= i < |calls|
        ensures Headroom(rate, calls, i, now) ==
                Headroom(rate, front, i, last.at) - (if last.allowed then 1.0 else 0.0) +
                Flow(rate, Since(last.at, now))
      {
      }
      if Before(rate, calls, now) == rate.burst {
        least := |calls|;
      }
    }
  }

  /** A call is refused exactly when, counting from some earlier call or from
      itself, one more call than burst and refill allow would have passed. */
  lemma {:induction false} RefusedExactly(rate: Rate, calls: Calls, now: real)
    ensures !HasToken(rate, calls, now) <==>
            exists i :: 0 <= i <= |calls| &&
              Allowed(calls, i) as real + 1.0 > rate.burst + Refill(rate, calls, i, now)
  {
    var least := LeastHeadroom(rate, calls, now);
    if Before(rate, calls, now) < 1.0 {
      assert Allowed(calls, least) as real + 1.0 > rate.burst + Refill(rate, calls, least, now);
    }
    if i :| 0 <= i <= |calls| && Allowed(calls, i) as real + 1.0 > rate.burst + Refill(rate, calls, i, now) {
      assert Before(rate, calls, now) <= Headroom(rate, calls, i, now);
    }
  }

  /** A call at the reading the bucket is known for takes one token, if it finds
      one, and nothing flows in. */
  lemma {:induction false} Spent(rate: Rate, calls: Calls, at: real)
    requires Before(rate, calls, at) <= rate.burst
    ensures var allowed := HasToken(rate, calls, at);
            Before(rate, calls + [Call(at, allowed)], at) == Before(rate, calls, at) - (if allowed then 1.0 else 0.0)
  {
    assert (calls + [Call(at, HasToken(rate, calls, at))])[..|calls|] == calls;
    NoFlow(rate, Since(at, at));
  }

  /** The clock readings never go back, up to `now`. */
  ghost predicate Monotone(calls: Calls, now: real) {
    calls == [] || (calls[|calls| - 1].at <= now && Monotone(calls[..|calls| - 1], calls[|calls| - 1].at))
  }

  /** Every reading is at least the one before it, and at most `now`. */
  lemma {:induction false} MonotoneExactly(calls: Calls, now: real)
    ensures Monotone(calls, now) <==>
            && (forall i :: 0 < i < |calls| ==> calls[i - 1].at <= calls[i].at)
            && (calls != [] ==> calls[|calls| - 1].at <= now)
    decreases |calls|
  {
    if calls != [] {
      var front := calls[..|calls| - 1];
      MonotoneExactly(front, calls[|calls| - 1].at);
      assert forall i :: 0 <= i < |front| ==> front[i] == calls[i];
    }
  }

  /** On such a clock the refill is the rate times the time that passed. */
  lemma {:induction false} RefillIsLinear(rate: Rate, calls: Calls, i: nat, now: real)
    requires Monotone(calls, now) && i < |calls|
    ensures Refill(rate, calls, i, now) == Flow(rate, now - calls[i].at)
    ensures calls[i].at <= now
    decreases |calls|
  {
    var front, last := calls[..|calls| - 1], calls[|calls| - 1];
    if i < |front| {
      RefillIsLinear(rate, front, i, last.at);
      FlowAdds(rate, last.at - calls[i].at, now - last.at);
      assert last.at - calls[i].at + (now - last.at) == now - calls[i].at;
    }
  }

  /** On such a clock, in numbers: refused exactly if, counting from some earlier
      call, one more than the burst and the rate times the time since it would
      have passed, or the bucket never holds a whole token. */
  lemma {:induction false} RefusedOnClock(rate: Rate, calls: Calls, now: real)
    requires Monotone(calls, now)
    ensures !HasToken(rate, calls, now) <==>
            || rate.burst < 1.0
            || exists i :: 0 <= i < |calls| &&
                 Allowed(calls, i) as real + 1.0 > rate.burst + (now - calls[i].at) * rate.perSecond
  {
    RefusedExactly(rate, calls, now);
    forall i | 0 <= i < |calls|
      ensures Refill(rate, calls, i, now) == (now - calls[i].at) * rate.perSecond
    {
      RefillIsLinear(rate, calls, i, now);
      FlowIs(rate, now - calls[i].at);
    }
    if exists i :: 0 <= i < |calls| &&
         Allowed(calls, i) as real + 1.0 > rate.burst + (now - calls[i].at) * rate.perSecond {
      var i :| 0 <= i < |calls| &&
               Allowed(calls, i) as real + 1.0 > rate.burst + (now - calls[i].at) * rate.perSecond;
      assert Allowed(calls, i) as real + 1.0 > rate.burst + Refill(rate, calls, i, now);
    }
    assert Allowed(calls, |calls|) == 0 && Refill(rate, calls, |calls|, now) == 0.0;
  }

  /** From call `i` to the last, no more passes than the burst and what flowed
      in between the two. */
  lemma {:induction false} RefillBoundsWindow(rate: Rate, calls: Calls, i: nat)
    requires Answered(rate, calls) && i < |calls|
    requires rate.burst >= 0.0 && rate.perSecond >= 0.0
    ensures var last := calls[|calls| - 1];
            Allowed(calls, i) as real <= rate.burst + Refill(rate, calls[..|calls| - 1], i, last.at)
    decreases |calls|
  {
    var front, last := calls[..|calls| - 1], calls[|calls| - 1];
    if last.allowed {
      var least := LeastHeadroom(rate, front, last.at);
      assert Before(rate, front, last.at) <= Headroom(rate, front, i, last.at);
    } else if i < |front| {
      RefillBoundsWindow(rate, front, i);
      FlowGrows(rate, Since(front[|front| - 1].at, last.at));
    }
  }

  lemma {:induction false} WindowWithinFlow(rate: Rate, calls: Calls, i: nat)
    requires Answered(rate, calls) && i < |calls| && Monotone(calls, calls[|calls| - 1].at)
    requires rate.burst >= 0.0 && rate.perSecond >= 0.0
    ensures Allowed(calls, i) as real <= rate.burst + Flow(rate, calls[|calls| - 1].at - calls[i].at)
  {
    var front, last := calls[..|calls| - 1], calls[|calls| - 1];
    RefillBoundsWindow(rate, calls, i);
    if i < |front| {
      RefillIsLinear(rate, front, i, last.at);
      assert front[i] == calls[i];
    } else {
      NoFlow(rate, calls[|calls| - 1].at - calls[i].at);
    }
  }

  /** At most the burst plus the rate times the time that passed, in any window
      from one call to another on a clock that does not go back. */
  lemma {:induction false} WindowIsBounded(rate: Rate, calls: Calls, i: nat, passed: real)
    requires Answered(rate, calls) && i < |calls| && Monotone(calls, calls[|calls| - 1].at)
    requires rate.burst >= 0.0 && rate.perSecond >= 0.0 && passed == calls[|calls| - 1].at - calls[i].at
    ensures Allowed(calls, i) as real <= rate.burst + passed * rate.perSecond
  {
    WindowWithinFlow(rate, calls, i);
    FlowIs(rate, passed);
  }

  // ----- One peer cannot spend another's tokens -----

  datatype Knock = Knock(peer: PeerId, at: real)

  /** A peer's calls, had it been the only one. */
  ghost function Alone(rate: Rate, knocks: seq<Knock>, peer: PeerId): Calls {
    if knocks == [] then []
    else
      var earlier, last := Alone(rate, knocks[..|knocks| - 1], peer), knocks[|knocks| - 1];
      if last.peer == peer then earlier + [Call(last.at, HasToken(rate, earlier, last.at))] else earlier
  }

  datatype Table = Table(calls: map<PeerId, Calls>, order: seq<PeerId>)

  /** The table after a run of calls by any peers, as the limiter keeps it. */
  ghost function Run(rate: Rate, knocks: seq<Knock>): Table {
    if knocks == [] then Table(map[], [])
    else
      var t, last := Run(rate, knocks[..|knocks| - 1]), knocks[|knocks| - 1];
      var call := Call(last.at, HasToken(rate, CallsOf(t.calls, last.peer), last.at));
      Table(Recorded(t.calls, t.order, last.peer, call), Ordered(t.calls, t.order, last.peer))
  }

  ghost function Peers(knocks: seq<Knock>): set<PeerId> {
    if knocks == [] then {} else Peers(knocks[..|knocks| - 1]) + {knocks[|knocks| - 1].peer}
  }

  /** While the table is not full, every peer is answered as if it were alone,
      whatever the others do. */
  lemma {:induction false} PeersAreIndependent(rate: Rate, knocks: seq<Knock>, peer: PeerId)
    requires |Peers(knocks)| <= MAX_TRACKED_PEERS
    ensures CallsOf(Run(rate, knocks).calls, peer) == Alone(rate, knocks, peer)
    ensures Run(rate, knocks).calls.Keys == Peers(knocks) && |Run(rate, knocks).order| == |Peers(knocks)|
  {
    if knocks != [] {
      var front, last := knocks[..|knocks| - 1], knocks[|knocks| - 1];
      SubsetCount(Peers(front), Peers(knocks));
      PeersAreIndependent(rate, front, peer);
      PeersAreIndependent(rate, front, last.peer);
      if last.peer in Peers(front) {
        assert Peers(knocks) == Peers(front);
      }
    }
  }

  /** Tracked after every knock from number `from` on, and not before it. */
  ghost predicate TrackedSince(rate: Rate, knocks: seq<Knock>, peer: PeerId, from: nat) {
    && from <= |knocks|
    && peer !in Run(rate, knocks[..from]).calls
    && (from < |knocks| ==> knocks[from].peer == peer)
    && forall j :: from < j <= |knocks| ==> peer in Run(rate, knocks[..j]).calls
  }

  lemma {:induction false} AloneNext(rate: Rate, knocks: seq<Knock>, last: Knock, peer: PeerId, from: nat)
    requires from <= |knocks|
    ensures var earlier := Alone(rate, knocks[from..], peer);
            Alone(rate, (knocks + [last])[from..], peer) ==
            if last.peer == peer then earlier + [Call(last.at, HasToken(rate, earlier, last.at))] else earlier
  {
    PushToTail(knocks, last, from);
    assert (knocks[from..] + [last])[..|knocks[from..]|] == knocks[from..];
  }

  lemma {:induction false} RunNext(rate: Rate, knocks: seq<Knock>, last: Knock)
    ensures var t := Run(rate, knocks);
            var call := Call(last.at, HasToken(rate, CallsOf(t.calls, last.peer), last.at));
            Run(rate, knocks + [last]) ==
            Table(Recorded(t.calls, t.order, last.peer, call), Ordered(t.calls, t.order, last.peer))
  {
    assert (knocks + [last])[..|knocks|] == knocks;
  }

  lemma {:induction false} CallsNext(rate: Rate, knocks: seq<Knock>, last: Knock, peer: PeerId)
    requires peer in Run(rate, knocks + [last]).calls
    ensures var earlier := CallsOf(Run(rate, knocks).calls, peer);
            CallsOf(Run(rate, knocks + [last]).calls, peer) ==
            if last.peer == peer then earlier + [Call(last.at, HasToken(rate, earlier, last.at))] else earlier
    ensures peer !in Run(rate, knocks).calls ==> last.peer == peer
  {
    RunNext(rate, knocks, last);
  }

  lemma {:induction false} TrackedNext(rate: Rate, knocks: seq<Knock>, last: Knock, peer: PeerId, from: nat)
    requires TrackedSince(rate, knocks, peer, from) && peer in Run(rate, knocks + [last]).calls
    requires from == |knocks| ==> last.peer == peer
    ensures TrackedSince(rate, knocks + [last], peer, from)
  {
    var longer := knocks + [last];
    assert longer[..from] == knocks[..from];
    forall j | from < j <= |longer|
      ensures peer in Run(rate, longer[..j]).calls
    {
      assert longer[..j] == if j == |longer| then longer else knocks[..j];
    }
  }

  /** In every run, however many peers knock: a peer is answered as if it were
      alone since knock number `from`, the one with which it entered the table it
      has not left since. A peer that is not tracked has no calls on record, and
      finds a full bucket. */
  lemma {:induction false} TrackedIsAlone(rate: Rate, knocks: seq<Knock>, peer: PeerId) returns (from: nat)
    ensures TrackedSince(rate, knocks, peer, from)
    ensures peer in Run(rate, knocks).calls <==> from < |knocks|
    ensures CallsOf(Run(rate, knocks).calls, peer) == Alone(rate, knocks[from..], peer)
  {
    from := |knocks|;
    if peer in Run(rate, knocks).calls {
      var front, last := knocks[..|knocks| - 1], knocks[|knocks| - 1];
      assert knocks == front + [last];
      from := TrackedIsAlone(rate, front, peer);
      CallsNext(rate, front, last, peer);
      AloneNext(rate, front, last, peer, from);
      TrackedNext(rate, front, last, peer, from);
    } else {
      assert knocks[..|knocks|] == knocks;
    }
  }
}
