/** The replay filter of a session: a cache of recently accepted message keys,
    bounded by age and by count. */
module Dedup {
  import opened Common

  const DEDUP_CAPACITY: nat := 10_000

  /** Ten minutes, in milliseconds. */
  const DEDUP_TTL: nat := 600_000

  /** A verified author together with the id it chose. */
  type Key = (PeerId, FrameId)

  /** One accepted message and the clock reading stored with it. */
  datatype Acceptance = Acceptance(key: Key, time: int)

  type History = seq<Acceptance>

  /** A capacity of zero still keeps the newest key, because room is made
      before the insertion and not after it. */
  function Room(capacity: nat): nat {
    if capacity == 0 then 1 else capacity
  }

  // ----- What the cache is for -----

  /** Was `key` accepted at most `ttl` ago, with fewer than `room` keys
      accepted since? */
  ghost predicate SeenRecently(accepted: History, key: Key, now: int, room: nat, ttl: nat) {
    exists i :: 0 <= i < |accepted| && accepted[i].key == key &&
                |accepted| - 1 - i < room && now - accepted[i].time <= ttl
  }

  /** No key is accepted twice, unless more than `room` acceptances or more
      than `ttl` lie between the two. */
  ghost predicate NoEarlyRepeat(accepted: History, room: nat, ttl: nat) {
    forall i, j :: 0 <= i < j < |accepted| && accepted[i].key == accepted[j].key ==>
      j - i > room || accepted[j].time - accepted[i].time > ttl
  }

  // ----- What the cache holds -----

  ghost function Keys(window: History): (keys: seq<Key>)
    ensures |keys| == |window|
    ensures forall i :: 0 <= i < |keys| ==> keys[i] == window[i].key
  {
    if window == [] then [] else [window[0].key] + Keys(window[1..])
  }

  /** Whether `key` is among the cached keys. */
  ghost predicate Holds(window: History, key: Key) {
    window != [] && (window[0].key == key || Holds(window[1..], key))
  }

  lemma {:induction false} HoldsAt(window: History, key: Key) returns (i: nat)
    requires Holds(window, key)
    ensures i < |window| && window[i].key == key
  {
    if window[0].key == key {
      i := 0;
    } else {
      i := HoldsAt(window[1..], key);
      i := i + 1;
    }
  }

  lemma {:induction false} AtHolds(window: History, i: nat)
    requires i < |window|
    ensures Holds(window, window[i].key)
  {
    if i > 0 {
      AtHolds(window[1..], i - 1);
    }
  }

  ghost function Index(window: History): (index: map<Key, int>) {
    if window == [] then map[] else Index(window[..|window| - 1])[window[|window| - 1].key := window[|window| - 1].time]
  }

  ghost predicate Distinct(window: History) {
    forall i, j :: 0 <= i < j < |window| ==> window[i].key != window[j].key
  }

  lemma {:induction false} IndexLookup(window: History)
    requires Distinct(window)
    ensures |Index(window)| == |window|
    ensures forall k :: k in Index(window) <==> exists i :: 0 <= i < |window| && window[i].key == k
    ensures forall i :: 0 <= i < |window| ==> Index(window)[window[i].key] == window[i].time
  {
    if window != [] {
      var front, last := window[..|window| - 1], window[|window| - 1];
      IndexLookup(front);
      assert last.key !in Index(front);
      assert forall k :: k in Index(window) ==> k == last.key || k in Index(front);
      assert window[|window| - 1] == last;
      assert forall i :: 0 <= i < |front| ==> window[i] == front[i];
    }
  }

  /** The table has an entry per cached acceptance and no other. */
  lemma {:induction false} IndexHas(window: History, key: Key)
    requires Distinct(window)
    ensures |Index(window)| == |window|
    ensures key in Index(window) <==> Holds(window, key)
  {
    IndexLookup(window);
    if key in Index(window) {
      var i :| 0 <= i < |window| && window[i].key == key;
      AtHolds(window, i);
    }
    if Holds(window, key) {
      var i := HoldsAt(window, key);
    }
  }

  lemma {:induction false} IndexPop(window: History)
    requires Distinct(window) && window != []
    ensures Index(window) - {window[0].key} == Index(window[1..])
  {
    if |window| > 1 {
      var front, last := window[..|window| - 1], window[|window| - 1];
      IndexPop(front);
      assert front[0] == window[0] && last.key != window[0].key;
      assert window[1..][..|window| - 2] == front[1..];
    }
  }

  /** Forgetting from the front until the oldest entry is young enough. */
  ghost function Sweep(window: History, horizon: int): History {
    if window == [] || horizon <= window[0].time then window else Sweep(window[1..], horizon)
  }

  /** Forgetting from the front until one more entry fits. */
  ghost function MakeRoom(window: History, capacity: nat): History {
    if |window| < capacity || window == [] then window else MakeRoom(window[1..], capacity)
  }

  /** One call: the key asked about, the clock reading the sweep takes, and the
      reading stored if the key is accepted. */
  datatype Call = Call(key: Key, now: int, later: int)

  /** Every acceptance so far, the tail of it still cached, the latest reading. */
  datatype Cache = Cache(accepted: History, window: History, clock: int)

  /** The cache's answer: no key left by the sweep equals the one asked about. */
  ghost predicate IsNew(c: Cache, call: Call, ttl: nat) {
    !Holds(Sweep(c.window, call.now - ttl), call.key)
  }

  ghost function Step(c: Cache, call: Call, capacity: nat, ttl: nat): Cache {
    var swept := Sweep(c.window, call.now - ttl);
    if IsNew(c, call, ttl) then
      var a := Acceptance(call.key, call.later);
      Cache(c.accepted + [a], MakeRoom(swept, capacity) + [a], call.later)
    else Cache(c.accepted, swept, call.now)
  }

  ghost function Run(calls: seq<Call>, epoch: int, capacity: nat, ttl: nat): Cache {
    if calls == [] then Cache([], [], epoch)
    else Step(Run(calls[..|calls| - 1], epoch, capacity, ttl), calls[|calls| - 1], capacity, ttl)
  }

  /** The clock never goes back. */
  ghost predicate OnTime(calls: seq<Call>, epoch: int, capacity: nat, ttl: nat) {
    calls == [] ||
    (var earlier, call := calls[..|calls| - 1], calls[|calls| - 1];
     OnTime(earlier, epoch, capacity, ttl) && Run(earlier, epoch, capacity, ttl).clock <= call.now <= call.later)
  }

  class DedupCache {
    const capacity: nat
    const ttl: nat
    var entries: map<Key, int>
    var order: seq<Key>

    /** The calls so far, on a clock that started at `epoch`, and what they
        come to. */
    ghost var calls: seq<Call>
    ghost var state: Cache
    ghost const epoch: int
    /** The acceptances still cached. */
    ghost var window: History

    ghost predicate Stored()
      reads this
    {
      order == Keys(window) && entries == Index(window) && Distinct(window)
    }

    ghost predicate Valid()
      reads this
    {
      && Stored() && window == state.window
      && OnTime(calls, epoch, capacity, ttl) && state == Run(calls, epoch, capacity, ttl)
    }

    constructor (capacity: nat, ttl: nat, ghost epoch: int)
      ensures Valid() && calls == []
      ensures this.capacity == capacity && this.ttl == ttl && this.epoch == epoch
    {
      this.capacity, this.ttl, this.epoch := capacity, ttl, epoch;
      entries, order := map[], [];
      calls, window, state := [], [], Cache([], [], epoch);
    }

    /** Forget the oldest cached key. */
    method PopFront()
      requires Stored() && order != []
      modifies `order, `entries, `window
      ensures Stored() && window == old(window)[1..]
    {
      IndexPop(window);
      var oldest := order[0];
      order := order[1..];
      entries := entries - {oldest};
      window := window[1..];
    }

    method EvictExpired(now: int)
      requires Stored()
      modifies `order, `entries, `window
      ensures Stored() && window == Sweep(old(window), now - ttl)
    {
      while order != []
        invariant Stored()
        invariant Sweep(window, now - ttl) == Sweep(old(window), now - ttl)
        decreases |order|
      {
        var front := order[0];
        var expired := if front in entries then now - entries[front] > ttl else true;
        IndexLookup(window);
        assert front == window[0].key;
        if expired {
          PopFront();
        } else {
          break;
        }
      }
    }

    /** The loop that makes room for `key`, which is not cached. */
    method EvictOldest(ghost key: Key)
      requires Stored() && !Holds(window, key)
      modifies `order, `entries, `window
      ensures Stored() && !Holds(window, key)
      ensures window == MakeRoom(old(window), capacity)
    {
      IndexHas(window, key);
      while |entries| >= capacity
        invariant Stored() && |entries| == |window|
        invariant MakeRoom(window, capacity) == MakeRoom(old(window), capacity)
        invariant !Holds(window, key)
        decreases |order|
      {
        if order != [] {
          PopFront();
          IndexHas(window, key);
        } else {
          break;
        }
      }
    }

    method PushBack(key: Key, time: int)
      requires Stored() && !Holds(window, key)
      modifies `order, `entries, `window
      ensures Stored() && window == old(window) + [Acceptance(key, time)]
      ensures key in entries && |entries| == |window|
    {
      StoredPush(window, Acceptance(key, time));
      entries := entries[key := time];
      order := order + [key];
      window := window + [Acceptance(key, time)];
      IndexHas(window, key);
    }

    /** The cache's own work: sweep, look up, make room, insert. `now` is the
        reading the sweep takes and `later` the one stored with a new entry. */
    method Update(key: Key, now: int, later: int, ghost c: Cache) returns (isNew: bool)
      requires Stored() && window == c.window
      modifies `order, `entries, `window
      ensures Stored() && |entries| == |window| && key in entries
      ensures isNew <==> IsNew(c, Call(key, now, later), ttl)
      ensures window == Step(c, Call(key, now, later), capacity, ttl).window
    {
      EvictExpired(now);
      IndexHas(window, key);
      if key in entries {
        return false;
      }
      EvictOldest(key);
      PushBack(key, later);
      isNew := true;
    }

    /** The answer is exact over everything ever asked: `false` means seen
        recently, `true` means not. */
    method CheckAndInsert(key: Key, now: int, later: int) returns (isNew: bool)
      requires Valid() && state.clock <= now <= later
      modifies this
      ensures Valid() && calls == old(calls) + [Call(key, now, later)]
      ensures isNew <==> !SeenRecently(old(state.accepted), key, now, Room(capacity), ttl)
      ensures state.accepted == if isNew then old(state.accepted) + [Acceptance(key, later)] else old(state.accepted)
      ensures |entries| <= Room(capacity) && key in entries
    {
      ghost var call := Call(key, now, later);
      NextCall(calls, state, call, epoch, capacity, ttl);
      isNew := Update(key, now, later, state);
      calls, state := calls + [call], Step(state, call, capacity, ttl);
    }
  }

  /** One call, from question to stored answer. */
  lemma {:induction false} StepIsExact(c: Cache, call: Call, capacity: nat, ttl: nat)
    requires Caches(c.accepted, c.window, c.clock, Room(capacity), ttl) && c.clock <= call.now <= call.later
    ensures IsNew(c, call, ttl) <==>
            !SeenRecently(c.accepted, call.key, call.now, Room(capacity), ttl)
    ensures var after := Step(c, call, capacity, ttl);
            Caches(after.accepted, after.window, after.clock, Room(capacity), ttl)
  {
    var swept := Sweep(c.window, call.now - ttl);
    SweptAnswers(c.accepted, c.window, c.clock, call.key, call.now, Room(capacity), ttl);
    if !Holds(swept, call.key) {
      CachesPush(c.accepted, swept, call.key, call.now, call.later, capacity, ttl);
    }
  }

  lemma {:induction false} NoEarlyRepeatPush(accepted: History, key: Key, now: int, later: int, room: nat, ttl: nat)
    requires NoEarlyRepeat(accepted, room, ttl)
    requires !SeenRecently(accepted, key, now, room, ttl) && now <= later
    ensures NoEarlyRepeat(accepted + [Acceptance(key, later)], room, ttl)
  {
  }

  lemma {:induction false} KeysPush(window: History, a: Acceptance)
    ensures Keys(window + [a]) == Keys(window) + [a.key]
  {
    if window != [] {
      KeysPush(window[1..], a);
      assert (window + [a])[1..] == window[1..] + [a];
    }
  }

  lemma {:induction false} StoredPush(window: History, a: Acceptance)
    requires Distinct(window) && !Holds(window, a.key)
    ensures Keys(window + [a]) == Keys(window) + [a.key]
    ensures Index(window + [a]) == Index(window)[a.key := a.time]
    ensures Distinct(window + [a])
  {
    KeysPush(window, a);
    assert (window + [a])[..|window|] == window;
    forall i | 0 <= i < |window|
      ensures window[i].key != a.key
    {
      AtHolds(window, i);
    }
  }

  // ----- The cached tail is exactly what the question needs -----

  ghost predicate InOrder(accepted: History) {
    forall i, j :: 0 <= i < j < |accepted| ==> accepted[i].time <= accepted[j].time
  }

  ghost predicate IsTail(accepted: History, window: History) {
    |window| <= |accepted| &&
    forall i :: 0 <= i < |window| ==> window[i] == accepted[|accepted| - |window| + i]
  }

  /** The last `kept` acceptances are all that a question asked at `clock` or
      later can turn on. */
  ghost predicate Suffices(accepted: History, kept: nat, clock: int, room: nat, ttl: nat) {
    && kept <= |accepted| && kept <= room
    && InOrder(accepted)
    && (accepted != [] ==> accepted[|accepted| - 1].time <= clock)
    && (kept < |accepted| ==> kept == room || clock - accepted[|accepted| - kept - 1].time > ttl)
  }

  ghost predicate Caches(accepted: History, window: History, clock: int, room: nat, ttl: nat) {
    IsTail(accepted, window) && Suffices(accepted, |window|, clock, room, ttl)
  }

  lemma {:induction false} SweepIs(window: History, horizon: int)
    ensures IsTail(window, Sweep(window, horizon))
    ensures forall i :: 0 <= i < |window| - |Sweep(window, horizon)| ==> window[i].time < horizon
    ensures Sweep(window, horizon) != [] ==> horizon <= Sweep(window, horizon)[0].time
  {
    if window != [] && window[0].time < horizon {
      SweepIs(window[1..], horizon);
      assert forall i :: 0 < i < |window| ==> window[i] == window[1..][i - 1];
    }
  }

  lemma {:induction false} MakeRoomIs(window: History, capacity: nat)
    ensures |MakeRoom(window, capacity)| == Min(|window|, Room(capacity) - 1)
    ensures IsTail(window, MakeRoom(window, capacity))
  {
    if |window| >= capacity && window != [] {
      MakeRoomIs(window[1..], capacity);
    }
  }

  lemma {:induction false} TailOfTail(accepted: History, w: History, v: History)
    requires IsTail(accepted, w) && IsTail(w, v)
    ensures IsTail(accepted, v)
  {
  }

  lemma {:induction false} SweepCaches(accepted: History, window: History, clock: int, now: int, room: nat, ttl: nat)
    requires Caches(accepted, window, clock, room, ttl) && clock <= now
    ensures Caches(accepted, Sweep(window, now - ttl), now, room, ttl)
    ensures Sweep(window, now - ttl) != [] ==> now - Sweep(window, now - ttl)[0].time <= ttl
  {
    var swept := Sweep(window, now - ttl);
    SweepIs(window, now - ttl);
    TailOfTail(accepted, window, swept);
    var first := |accepted| - |swept|;
    if |swept| < |window| {
      assert accepted[first - 1] == window[|window| - |swept| - 1];
    }
  }

  lemma {:induction false} CachedMeansSeen(accepted: History, swept: History, key: Key, now: int, room: nat, ttl: nat)
    requires Caches(accepted, swept, now, room, ttl)
    requires swept != [] ==> now - swept[0].time <= ttl
    requires Holds(swept, key)
    ensures SeenRecently(accepted, key, now, room, ttl)
  {
    var i := HoldsAt(swept, key);
    var first := |accepted| - |swept|;
    assert swept[i] == accepted[first + i] && swept[0] == accepted[first];
    if i > 0 {
      assert accepted[first].time <= accepted[first + i].time;
    }
  }

  lemma {:induction false} SeenMeansCached(accepted: History, swept: History, key: Key, now: int, room: nat, ttl: nat)
    requires Caches(accepted, swept, now, room, ttl)
    requires SeenRecently(accepted, key, now, room, ttl)
    ensures Holds(swept, key)
  {
    var i :| 0 <= i < |accepted| && accepted[i].key == key &&
             |accepted| - 1 - i < room && now - accepted[i].time <= ttl;
    var first := |accepted| - |swept|;
    if i < first {
      assert false;
    }
    assert swept[i - first] == accepted[i];
    AtHolds(swept, i - first);
  }

  /** After a sweep the cached keys are exactly those seen recently. */
  lemma {:induction false} SweptAnswers(accepted: History, window: History, clock: int, key: Key, now: int, room: nat,
                                        ttl: nat)
    requires Caches(accepted, window, clock, room, ttl) && clock <= now
    ensures Holds(Sweep(window, now - ttl), key) <==> SeenRecently(accepted, key, now, room, ttl)
    ensures Caches(accepted, Sweep(window, now - ttl), now, room, ttl)
  {
    var swept := Sweep(window, now - ttl);
    SweepCaches(accepted, window, clock, now, room, ttl);
    if Holds(swept, key) {
      CachedMeansSeen(accepted, swept, key, now, room, ttl);
    }
    if SeenRecently(accepted, key, now, room, ttl) {
      SeenMeansCached(accepted, swept, key, now, room, ttl);
    }
  }

  lemma {:induction false} CachesPush(accepted: History, swept: History, key: Key, now: int, later: int,
                                      capacity: nat, ttl: nat)
    requires Caches(accepted, swept, now, Room(capacity), ttl) && now <= later
    ensures Caches(accepted + [Acceptance(key, later)], MakeRoom(swept, capacity) + [Acceptance(key, later)],
                   later, Room(capacity), ttl)
  {
    var a, kept := Acceptance(key, later), MakeRoom(swept, capacity);
    MakeRoomIs(swept, capacity);
    TailOfTail(accepted, swept, kept);
    TailPush(accepted, kept, a);
    OrderPush(accepted, a);
  }

  lemma {:induction false} TailPush(accepted: History, kept: History, a: Acceptance)
    requires IsTail(accepted, kept)
    ensures IsTail(accepted + [a], kept + [a])
  {
  }

  lemma {:induction false} OrderPush(accepted: History, a: Acceptance)
    requires InOrder(accepted) && (forall i :: 0 <= i < |accepted| ==> accepted[i].time <= a.time)
    ensures InOrder(accepted + [a])
  {
  }

  /** The question depends on the latest acceptance of a key alone. */
  lemma {:induction false} LatestAcceptanceDecides(accepted: History, key: Key, last: nat, now: int, room: nat,
                                                   ttl: nat)
    requires InOrder(accepted)
    requires last < |accepted| && accepted[last].key == key
    requires forall i :: last < i < |accepted| ==> accepted[i].key != key
    ensures SeenRecently(accepted, key, now, room, ttl) <==>
            |accepted| - 1 - last < room && now - accepted[last].time <= ttl
  {
    if SeenRecently(accepted, key, now, room, ttl) {
      var i :| 0 <= i < |accepted| && accepted[i].key == key &&
               |accepted| - 1 - i < room && now - accepted[i].time <= ttl;
      assert i <= last;
    }
  }

  // ----- Whole runs -----

  /** What a run accepts, by the exact answer to each call. */
  ghost function Accepted(calls: seq<Call>, room: nat, ttl: nat): History {
    if calls == [] then []
    else
      var before := Accepted(calls[..|calls| - 1], room, ttl);
      var call := calls[|calls| - 1];
      if SeenRecently(before, call.key, call.now, room, ttl) then before
      else before + [Acceptance(call.key, call.later)]
  }

  lemma {:induction false} RunCaches(calls: seq<Call>, epoch: int, capacity: nat, ttl: nat)
    requires OnTime(calls, epoch, capacity, ttl)
    ensures var c := Run(calls, epoch, capacity, ttl);
            Caches(c.accepted, c.window, c.clock, Room(capacity), ttl)
  {
    if calls != [] {
      var earlier := calls[..|calls| - 1];
      RunCaches(earlier, epoch, capacity, ttl);
      StepIsExact(Run(earlier, epoch, capacity, ttl), calls[|calls| - 1], capacity, ttl);
    }
  }

  lemma {:induction false} NextCall(calls: seq<Call>, c: Cache, call: Call, epoch: int, capacity: nat, ttl: nat)
    requires OnTime(calls, epoch, capacity, ttl) && c == Run(calls, epoch, capacity, ttl)
    requires c.clock <= call.now <= call.later
    ensures OnTime(calls + [call], epoch, capacity, ttl)
    ensures Run(calls + [call], epoch, capacity, ttl) == Step(c, call, capacity, ttl)
    ensures |Step(c, call, capacity, ttl).window| <= Room(capacity)
    ensures Step(c, call, capacity, ttl).accepted ==
            if SeenRecently(c.accepted, call.key, call.now, Room(capacity), ttl) then c.accepted
            else c.accepted + [Acceptance(call.key, call.later)]
    ensures IsNew(c, call, ttl) <==>
            !SeenRecently(c.accepted, call.key, call.now, Room(capacity), ttl)
  {
    assert (calls + [call])[..|calls|] == calls;
    RunCaches(calls, epoch, capacity, ttl);
    StepIsExact(c, call, capacity, ttl);
  }

  /** The bounded cache answers every call as the full history would. */
  lemma {:induction false} RunIsExact(calls: seq<Call>, epoch: int, capacity: nat, ttl: nat)
    requires OnTime(calls, epoch, capacity, ttl)
    ensures Run(calls, epoch, capacity, ttl).accepted == Accepted(calls, Room(capacity), ttl)
  {
    if calls != [] {
      var earlier := calls[..|calls| - 1];
      RunIsExact(earlier, epoch, capacity, ttl);
      RunCaches(earlier, epoch, capacity, ttl);
      StepIsExact(Run(earlier, epoch, capacity, ttl), calls[|calls| - 1], capacity, ttl);
    }
  }

  /** Over every run on a clock that never goes back, a key is accepted again
      only after its time or its room has run out. */
  lemma {:induction false} RunsNeverRepeatEarly(calls: seq<Call>, epoch: int, capacity: nat, ttl: nat)
    requires OnTime(calls, epoch, capacity, ttl)
    ensures NoEarlyRepeat(Accepted(calls, Room(capacity), ttl), Room(capacity), ttl)
    ensures var accepted := Accepted(calls, Room(capacity), ttl);
            forall i, j :: 0 <= i < j < |accepted| && accepted[i].key == accepted[j].key ==>
              j - i > (if capacity == 0 then 1 else capacity) || accepted[j].time - accepted[i].time > ttl
  {
    if calls != [] {
      var earlier, call := calls[..|calls| - 1], calls[|calls| - 1];
      RunsNeverRepeatEarly(earlier, epoch, capacity, ttl);
      var before := Accepted(earlier, Room(capacity), ttl);
      if !SeenRecently(before, call.key, call.now, Room(capacity), ttl) {
        NoEarlyRepeatPush(before, call.key, call.now, call.later, Room(capacity), ttl);
      }
    }
  }

  ghost predicate HasKey(accepted: History, key: Key) {
    exists i :: 0 <= i < |accepted| && accepted[i].key == key
  }

  lemma {:induction false} EveryCallIsRemembered(calls: seq<Call>, start: int, room: nat, ttl: nat)
    requires forall i :: 0 <= i < |calls| ==> start <= calls[i].later
    ensures |Accepted(calls, room, ttl)| <= |calls|
    ensures forall a :: a in Accepted(calls, room, ttl) ==> start <= a.time
    ensures forall i :: 0 <= i < |calls| ==> HasKey(Accepted(calls, room, ttl), calls[i].key)
  {
    if calls != [] {
      var earlier, call := calls[..|calls| - 1], calls[|calls| - 1];
      EveryCallIsRemembered(earlier, start, room, ttl);
      var before, after := Accepted(earlier, room, ttl), Accepted(calls, room, ttl);
      forall i | 0 <= i < |calls|
        ensures HasKey(after, calls[i].key)
      {
        if i < |earlier| {
          assert HasKey(before, earlier[i].key);
          var j :| 0 <= j < |before| && before[j].key == earlier[i].key;
          assert after[j].key == calls[i].key;
        } else if after != before {
          assert after[|before|].key == call.key;
        }
      }
    }
  }

  /** A batch that fits the cache is remembered until it is too old. */
  lemma {:induction false} BatchIsRemembered(calls: seq<Call>, i: nat, now: int, start: int, room: nat, ttl: nat)
    requires |calls| <= room && i < |calls| && now - start <= ttl
    requires forall j :: 0 <= j < |calls| ==> start <= calls[j].later
    ensures SeenRecently(Accepted(calls, room, ttl), calls[i].key, now, room, ttl)
  {
    EveryCallIsRemembered(calls, start, room, ttl);
    var accepted := Accepted(calls, room, ttl);
    assert HasKey(accepted, calls[i].key);
    var j :| 0 <= j < |accepted| && accepted[j].key == calls[i].key;
    assert accepted[j] in accepted;
  }

  /** A batch that fits the cache and that is presented again, in any order,
      before its beginning is older than the limit is refused message by
      message: the second time nothing is accepted. */
  lemma {:induction false} ReplayIsSilent(calls: seq<Call>, replay: seq<Call>, start: int, room: nat, ttl: nat)
    requires |calls| <= room
    requires forall i :: 0 <= i < |calls| ==> start <= calls[i].later
    requires forall r :: 0 <= r < |replay| ==>
               (exists i :: 0 <= i < |calls| && calls[i].key == replay[r].key) && replay[r].now - start <= ttl
    ensures Accepted(calls + replay, room, ttl) == Accepted(calls, room, ttl)
  {
    if replay == [] {
      assert calls + replay == calls;
    } else {
      var call := replay[|replay| - 1];
      assert (calls + replay)[..|calls + replay| - 1] == calls + replay[..|replay| - 1];
      ReplayIsSilent(calls, replay[..|replay| - 1], start, room, ttl);
      var i :| 0 <= i < |calls| && calls[i].key == call.key;
      BatchIsRemembered(calls, i, call.now, start, room, ttl);
    }
  }
}
