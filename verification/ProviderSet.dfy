/** Who can serve one blob: a newest-wins register per peer, with tombstones
    for withdrawals, bounded by dropping the least useful entries. */
module Providers {
  import opened Common

  const MAX_PROVIDERS_PER_BLOB: nat := 64
  const MAX_U32: nat := 0xFFFF_FFFF
  const MAX_U64: nat := 0xFFFF_FFFF_FFFF_FFFF
  const MAX_FRAME_ID: FrameId := 0xFFFF_FFFF_FFFF_FFFF_FFFF_FFFF_FFFF_FFFF

  datatype Info = Info(failures: nat, announced: bool, announcedAt: nat, frameId: FrameId, withdrawn: bool)

  const UNHEARD := Info(0, false, 0, 0, false)

  type Infos = map<PeerId, Info>

  /** One blob's providers: the first offerer, and what is known of each peer. */
  datatype Register = Register(original: Option<PeerId>, providers: Infos)

  const NOBODY := Register(None, map[])

  function InfoOf(providers: Infos, id: PeerId): Info {
    if id in providers then providers[id] else UNHEARD
  }

  /** Timestamps order an author's own claims, frame ids break ties. */
  predicate Older(at: nat, frame: FrameId, at': nat, frame': FrameId) {
    at < at' || (at == at' && frame < frame')
  }

  // ----- Listings in a total order -----

  /** A sort key; the peer in it makes keys of different peers different. */
  datatype Key = Key(a: int, b: int, c: int, id: PeerId)

  predicate Less(x: Key, y: Key) {
    x.a < y.a || (x.a == y.a &&
    (x.b < y.b || (x.b == y.b &&
    (x.c < y.c || (x.c == y.c && x.id < y.id)))))
  }

  ghost predicate Sorted(keys: seq<Key>) {
    forall i, j :: 0 <= i < j < |keys| ==> Less(keys[i], keys[j])
  }

  function Insert(keys: seq<Key>, k: Key): seq<Key> {
    if keys == [] || Less(k, keys[0]) then [k] + keys else [keys[0]] + Insert(keys[1..], k)
  }

  function Sort(keys: seq<Key>): seq<Key> {
    if keys == [] then [] else Insert(Sort(keys[1..]), keys[0])
  }

  lemma {:induction false} InsertSorts(keys: seq<Key>, k: Key)
    requires Sorted(keys) && k !in keys
    ensures Sorted(Insert(keys, k))
    ensures forall x :: x in Insert(keys, k) <==> x == k || x in keys
    ensures |Insert(keys, k)| == |keys| + 1
  {
    if keys != [] && !Less(k, keys[0]) {
      InsertSorts(keys[1..], k);
      var rest := Insert(keys[1..], k);
      assert keys == [keys[0]] + keys[1..];
      assert Less(keys[0], k);
      forall x | x in rest
        ensures Less(keys[0], x)
      {
        if x != k {
          var i :| 0 <= i < |keys[1..]| && keys[1..][i] == x;
          assert keys[i + 1] == x;
        }
      }
    }
  }

  ghost predicate Distinct(keys: seq<Key>) {
    keys == [] || (keys[0] !in keys[1..] && Distinct(keys[1..]))
  }

  lemma {:induction false} SortSorts(keys: seq<Key>)
    requires Distinct(keys)
    ensures Sorted(Sort(keys))
    ensures forall x :: x in Sort(keys) <==> x in keys
    ensures |Sort(keys)| == |keys|
  {
    if keys != [] {
      SortSorts(keys[1..]);
      InsertSorts(Sort(keys[1..]), keys[0]);
      assert keys == [keys[0]] + keys[1..];
    }
  }

  /** A sorted listing depends on its elements alone. */
  lemma {:induction false} SortedIsUnique(x: seq<Key>, y: seq<Key>)
    requires Sorted(x) && Sorted(y)
    requires forall k :: k in x <==> k in y
    ensures x == y
  {
    assert y != [] ==> y[0] in y;
    if x != [] {
      assert x[0] in y;
      assert y[0] in x;
      assert x[0] == y[0];
      forall k | k in x[1..]
        ensures k in y[1..]
      {
        TailIsRest(x, k);
        TailIsRest(y, k);
      }
      forall k | k in y[1..]
        ensures k in x[1..]
      {
        TailIsRest(x, k);
        TailIsRest(y, k);
      }
      SortedIsUnique(x[1..], y[1..]);
    }
  }

  lemma {:induction false} TailIsRest(x: seq<Key>, k: Key)
    requires Sorted(x) && x != []
    ensures k in x[1..] <==> k in x && k != x[0]
  {
    assert x == [x[0]] + x[1..];
    if k in x[1..] {
      var i :| 0 <= i < |x[1..]| && x[1..][i] == k;
      assert x[i + 1] == k;
    }
  }

  // ----- Dropping the least useful -----

  /** Withdrawn first, then most failures, then oldest assertion, then id: the
      smaller the rank, the less useful the provider. */
  function RankOf(id: PeerId, info: Info): Key {
    var failures: int := info.failures;
    Key(if info.withdrawn then 0 else 1, -failures, info.announcedAt, id)
  }

  /** `kept` is what remains of `all` when the cap is enforced: everything if
      it fits; otherwise exactly the cap, none ranked below one dropped. */
  ghost predicate IsTrimmed(all: Infos, kept: Infos) {
    && kept.Keys <= all.Keys
    && (forall id :: id in kept ==> kept[id] == all[id])
    && |kept| == Min(|all|, MAX_PROVIDERS_PER_BLOB)
    && (forall id, gone :: id in kept && gone in all && gone !in kept ==>
        Less(RankOf(gone, all[gone]), RankOf(id, all[id])))
  }

  /** In plain terms: a provider is dropped before another if it alone is
      withdrawn, or else has failed more often, or else claimed less recently, or
      else has the smaller id. */
  lemma {:induction false} TrimmedExactly(all: Infos, kept: Infos)
    ensures IsTrimmed(all, kept) <==>
            && kept.Keys <= all.Keys
            && (forall id :: id in kept ==> kept[id] == all[id])
            && |kept| == (if |all| <= 64 then |all| else 64)
            && (forall id, gone :: id in kept && gone in all && gone !in kept ==>
                  || (all[gone].withdrawn && !all[id].withdrawn)
                  || (all[gone].withdrawn == all[id].withdrawn &&
                      (|| all[gone].failures > all[id].failures
                       || (all[gone].failures == all[id].failures &&
                           (|| all[gone].announcedAt < all[id].announcedAt
                            || (all[gone].announcedAt == all[id].announcedAt && gone < id))))))
  {
  }

  /** What remains does not depend on the order the map was listed in. */
  lemma {:induction false} TrimIsUnique(all: Infos, x: Infos, y: Infos)
    requires IsTrimmed(all, x) && IsTrimmed(all, y)
    ensures x == y
  {
    TrimWithin(all, x, y);
    TrimWithin(all, y, x);
  }

  lemma {:induction false} TrimWithin(all: Infos, x: Infos, y: Infos)
    requires IsTrimmed(all, x) && IsTrimmed(all, y)
    ensures x.Keys <= y.Keys
  {
    forall id | id in x
      ensures id in y
    {
      if id !in y {
        assert forall other :: other in y ==> other in x;
        SubsetCount(y.Keys, x.Keys - {id});
        assert false;
      }
    }
  }

  ghost function Without(original: Option<PeerId>, gone: set<PeerId>): Option<PeerId> {
    if original.Some? && original.value in gone then None else original
  }

  /** The register after the cap is enforced. */
  ghost predicate IsCapped(all: Register, kept: Register) {
    IsTrimmed(all.providers, kept.providers) &&
    kept.original == Without(all.original, all.providers.Keys - kept.providers.Keys)
  }

  /** Enforcing the cap is a function of the register. */
  ghost function Capped(r: Register): (kept: Register)
    ensures IsCapped(r, kept)
  {
    CapExists(r);
    var kept :| IsCapped(r, kept);
    kept
  }

  lemma {:induction false} CappedIs(r: Register, kept: Register)
    requires IsCapped(r, kept)
    ensures kept == Capped(r)
  {
    TrimIsUnique(r.providers, kept.providers, Capped(r).providers);
  }

  lemma {:induction false} CappedBelow(r: Register)
    requires |r.providers| <= MAX_PROVIDERS_PER_BLOB
    ensures Capped(r) == r
  {
    assert IsTrimmed(r.providers, r.providers);
    TrimIsUnique(r.providers, r.providers, Capped(r).providers);
  }

  lemma {:induction false} CapExists(r: Register)
    ensures exists kept :: IsCapped(r, kept)
  {
    if |r.providers| <= MAX_PROVIDERS_PER_BLOB {
      assert IsCapped(r, r);
    } else {
      var keys := KeysListed(r.providers, r.providers.Keys);
      SortSorts(keys);
      var ranked := Sort(keys);
      ListingSize(r.providers, ranked);
      DroppingCaps(r, ranked, |ranked| - MAX_PROVIDERS_PER_BLOB);
    }
  }

  lemma {:induction false} KeysListed(providers: Infos, ids: set<PeerId>) returns (keys: seq<Key>)
    requires ids <= providers.Keys
    ensures Distinct(keys)
    ensures forall k :: k in keys <==> k.id in ids && k == RankOf(k.id, providers[k.id])
  {
    keys := [];
    if ids != {} {
      var id :| id in ids;
      keys := KeysListed(providers, ids - {id});
      keys := [RankOf(id, providers[id])] + keys;
    }
  }

  // ----- The operations, on values -----

  function Added(r: Register, id: PeerId, isOriginal: bool): Register {
    Register(if isOriginal && r.original.None? then Some(id) else r.original,
             r.providers[id := InfoOf(r.providers, id)])
  }

  predicate Stale(r: Register, id: PeerId, at: nat, frame: FrameId) {
    var info := InfoOf(r.providers, id);
    Older(at, frame, info.announcedAt, info.frameId)
  }

  /** Does the assertion tell anything new: the first one at all, or a change
      of mind? */
  predicate Changes(r: Register, id: PeerId, at: nat, frame: FrameId, withdrawn: bool) {
    !Stale(r, id, at, frame) && (InfoOf(r.providers, id).withdrawn != withdrawn || !InfoOf(r.providers, id).announced)
  }

  /** The register with an assertion written into it, before the cap. */
  function Asserted(r: Register, id: PeerId, at: nat, frame: FrameId, withdrawn: bool): Register {
    Register(if withdrawn && r.original == Some(id) then None else r.original,
             r.providers[id := Info(InfoOf(r.providers, id).failures, true, at, frame, withdrawn)])
  }

  function Removed(r: Register, id: PeerId): Register {
    Register(if r.original == Some(id) then None else r.original, r.providers - {id})
  }

  function Failed(r: Register, id: PeerId): Register {
    var info := InfoOf(r.providers, id);
    r.(providers := r.providers[id := info.(failures := Min(info.failures + 1, MAX_U32))])
  }

  function Succeeded(r: Register, id: PeerId): Register {
    if id in r.providers then r.(providers := r.providers[id := r.providers[id].(failures := 0)]) else r
  }

  ghost function Recorded(r: Register, id: PeerId, at: nat, frame: FrameId, withdrawn: bool): Register {
    if Stale(r, id, at, frame) then r else Capped(Asserted(r, id, at, frame, withdrawn))
  }

  /** One assertion, by times and ids: an older one changes nothing; any other
      is written down, and takes away the original's mark if it withdraws. */
  lemma {:induction false} RecordedExactly(r: Register, id: PeerId, at: nat, frame: FrameId, withdrawn: bool)
    ensures var was := if id in r.providers then r.providers[id] else Info(0, false, 0, 0, false);
            var written := Register(if withdrawn && r.original == Some(id) then None else r.original,
                                    r.providers[id := Info(was.failures, true, at, frame, withdrawn)]);
            var after := Recorded(r, id, at, frame, withdrawn);
            if at < was.announcedAt || (at == was.announcedAt && frame < was.frameId) then
              after == r && !Changes(r, id, at, frame, withdrawn)
            else
              && IsCapped(written, after) && (|written.providers| <= 64 ==> after == written)
              && (Changes(r, id, at, frame, withdrawn) <==> was.withdrawn != withdrawn || !was.announced)
  {
    if !Stale(r, id, at, frame) && |Asserted(r, id, at, frame, withdrawn).providers| <= 64 {
      CappedBelow(Asserted(r, id, at, frame, withdrawn));
    }
  }

  predicate Live(r: Register, id: PeerId) {
    id in r.providers && !r.providers[id].withdrawn
  }

  /** Fewest failures first, then the original offerer, then by id. */
  function FetchKey(r: Register, id: PeerId): Key
    requires id in r.providers
  {
    Key(r.providers[id].failures, if r.original == Some(id) then 0 else 1, 0, id)
  }

  class ProviderSet {
    var original: Option<PeerId>
    var providers: Infos

    ghost function Value(): Register
      reads this
    {
      Register(original, providers)
    }

    constructor ()
      ensures Value() == NOBODY
    {
      original, providers := None, map[];
    }

    constructor Of(r: Register)
      ensures Value() == r
    {
      original, providers := r.original, r.providers;
    }

    method Add(id: PeerId, isOriginal: bool)
      modifies this
      ensures Value() == Added(old(Value()), id, isOriginal)
      ensures original == if isOriginal && old(original).None? then Some(id) else old(original)
      ensures providers.Keys == old(providers).Keys + {id}
      ensures forall other :: other in old(providers) ==> providers[other] == old(providers)[other]
      ensures id !in old(providers) ==> providers[id] == Info(0, false, 0, 0, false)
    {
      if isOriginal && original.None? {
        original := Some(id);
      }
      if id !in providers {
        providers := providers[id := UNHEARD];
      }
    }

    /** Apply a peer's assertion about itself, newest wins. */
    method Record(id: PeerId, at: nat, frame: FrameId, withdrawn: bool) returns (changed: bool)
      modifies this
      ensures Value() == Recorded(old(Value()), id, at, frame, withdrawn)
      ensures changed <==> Changes(old(Value()), id, at, frame, withdrawn)
      ensures id in old(providers) &&
              (at < old(providers)[id].announcedAt ||
               (at == old(providers)[id].announcedAt && frame < old(providers)[id].frameId)) ==>
                !changed && Value() == old(Value())
    {
      var entry := InfoOf(providers, id);
      if Older(at, frame, entry.announcedAt, entry.frameId) {
        return false;
      }
      changed := entry.withdrawn != withdrawn || !entry.announced;
      providers := providers[id := Info(entry.failures, true, at, frame, withdrawn)];
      if withdrawn && original == Some(id) {
        original := None;
      }
      EnforceCap();
      CappedIs(Asserted(old(Value()), id, at, frame, withdrawn), Value());
    }

    method MarkAnnounced(id: PeerId)
      modifies this
      ensures Value() == Recorded(old(Value()), id, MAX_U64, MAX_FRAME_ID, false)
    {
      var _ := Record(id, MAX_U64, MAX_FRAME_ID, false);
    }

    method Remove(id: PeerId)
      modifies this
      ensures Value() == Removed(old(Value()), id)
      ensures providers == map other | other in old(providers) && other != id :: old(providers)[other]
      ensures original == if old(original) == Some(id) then None else old(original)
    {
      providers := providers - {id};
      if original == Some(id) {
        original := None;
      }
    }

    method MarkFailure(id: PeerId)
      modifies this
      ensures Value() == Failed(old(Value()), id)
      ensures original == old(original) && providers.Keys == old(providers).Keys + {id}
      ensures forall other :: other in old(providers) && other != id ==> providers[other] == old(providers)[other]
      ensures id in old(providers) ==>
                var before := old(providers)[id];
                providers[id] == before.(failures := if before.failures < MAX_U32 then before.failures + 1 else MAX_U32)
      ensures id !in old(providers) ==> providers[id] == Info(1, false, 0, 0, false)
    {
      var info := InfoOf(providers, id);
      providers := providers[id := info.(failures := Min(info.failures + 1, MAX_U32))];
    }

    method MarkSuccess(id: PeerId)
      modifies this
      ensures Value() == Succeeded(old(Value()), id)
      ensures original == old(original) && providers.Keys == old(providers).Keys
      ensures forall other :: other in old(providers) && other != id ==> providers[other] == old(providers)[other]
      ensures id in old(providers) ==> providers[id] == old(providers)[id].(failures := 0)
    {
      if id in providers {
        providers := providers[id := providers[id].(failures := 0)];
      }
    }

    /** Drop the least useful entries once the cap is exceeded. */
    method EnforceCap()
      modifies this
      ensures IsCapped(old(Value()), Value())
    {
      if |providers| <= MAX_PROVIDERS_PER_BLOB {
        return;
      }
      ghost var before := Value();
      var ranked := Ranked();
      ListingSize(providers, ranked);
      var excess := |providers| - MAX_PROVIDERS_PER_BLOB;
      var i := 0;
      while i < excess
        invariant 0 <= i <= excess
        invariant Value() == Dropped(before, ranked[..i])
      {
        DroppedNext(before, ranked, i);
        Remove(ranked[i].id);
        i := i + 1;
      }
      DroppingCaps(before, ranked, excess);
    }

    /** Every provider's rank, least useful first. */
    method Ranked() returns (ranked: seq<Key>)
      ensures IsListing(providers, ranked)
    {
      var keys: seq<Key> := [];
      var rest := providers.Keys;
      while rest != {}
        invariant rest <= providers.Keys
        invariant Distinct(keys)
        invariant forall k :: k in keys <==> k.id in providers && k.id !in rest && k == RankOf(k.id, providers[k.id])
        decreases rest
      {
        var id :| id in rest;
        rest := rest - {id};
        keys := [RankOf(id, providers[id])] + keys;
      }
      SortSorts(keys);
      ranked := Sort(keys);
    }

    /** The live providers in the order to try them. */
    method Ordered() returns (ids: seq<PeerId>)
      ensures IsFetchOrder(Value(), ids)
    {
      var keys: seq<Key> := [];
      var rest := providers.Keys;
      while rest != {}
        invariant rest <= providers.Keys
        invariant Distinct(keys)
        invariant forall k :: k in keys <==> k.id !in rest && Live(Value(), k.id) && k == FetchKey(Value(), k.id)
        decreases rest
      {
        var id :| id in rest;
        rest := rest - {id};
        if !providers[id].withdrawn {
          var r := Register(original, providers);
          keys := [FetchKey(r, id)] + keys;
        }
      }
      SortSorts(keys);
      keys := Sort(keys);
      ids := [];
      var i := 0;
      while i < |keys|
        invariant i <= |keys| && |ids| == i
        invariant forall j :: 0 <= j < i ==> ids[j] == keys[j].id
      {
        ids := ids + [keys[i].id];
        i := i + 1;
      }
      FetchOrderOf(Value(), keys, ids);
    }
  }

  ghost predicate IsListing(providers: Infos, ranked: seq<Key>) {
    && Sorted(ranked)
    && (forall k :: k in ranked <==> k.id in providers && k == RankOf(k.id, providers[k.id]))
  }

  ghost function Ids(keys: seq<Key>): set<PeerId> {
    if keys == [] then {} else Ids(keys[..|keys| - 1]) + {keys[|keys| - 1].id}
  }

  lemma {:induction false} IdsNext(ranked: seq<Key>, i: nat)
    requires i < |ranked|
    ensures Ids(ranked[..i + 1]) == Ids(ranked[..i]) + {ranked[i].id}
  {
    assert ranked[..i + 1][..i] == ranked[..i];
  }

  /** The ids of the first `n` keys are those at the first `n` positions. */
  lemma {:induction false} IdsHold(ranked: seq<Key>, n: nat, id: PeerId)
    requires n <= |ranked|
    ensures id in Ids(ranked[..n]) <==> exists i :: 0 <= i < n && ranked[i].id == id
  {
    if n > 0 {
      IdsNext(ranked, n - 1);
      IdsHold(ranked, n - 1, id);
    }
  }

  lemma {:induction false} RankedApart(providers: Infos, ranked: seq<Key>, i: nat, j: nat)
    requires IsListing(providers, ranked) && i < j < |ranked|
    ensures ranked[i].id != ranked[j].id && ranked[i].id in providers && ranked[j].id in providers
  {
    assert ranked[i] in ranked && ranked[j] in ranked;
    assert Less(ranked[i], ranked[j]);
  }

  lemma {:induction false} CountIds(providers: Infos, ranked: seq<Key>, n: nat)
    requires IsListing(providers, ranked) && n <= |ranked|
    ensures |Ids(ranked[..n])| == n
  {
    if n > 0 {
      CountIds(providers, ranked, n - 1);
      IdsNext(ranked, n - 1);
      IdsHold(ranked, n - 1, ranked[n - 1].id);
      forall i | 0 <= i < n - 1
        ensures ranked[i].id != ranked[n - 1].id
      {
        RankedApart(providers, ranked, i, n - 1);
      }
    }
  }

  lemma {:induction false} ListingSize(providers: Infos, ranked: seq<Key>)
    requires IsListing(providers, ranked)
    ensures |ranked| == |providers|
  {
    CountIds(providers, ranked, |ranked|);
    forall id
      ensures id in Ids(ranked[..|ranked|]) <==> id in providers
    {
      IdsHold(ranked, |ranked|, id);
      if id in providers {
        assert RankOf(id, providers[id]) in ranked;
      }
      if i :| 0 <= i < |ranked| && ranked[i].id == id {
        assert ranked[i] in ranked;
      }
    }
    assert Ids(ranked[..|ranked|]) == providers.Keys;
  }

  /** Dropping the front of the ranking leaves nobody ranked below the dropped. */
  lemma {:induction false} PrefixIsWorst(all: Infos, ranked: seq<Key>, n: nat)
    requires IsListing(all, ranked) && n <= |ranked| && |all| - n == Min(|all|, MAX_PROVIDERS_PER_BLOB)
    ensures IsTrimmed(all, all - Ids(ranked[..n]))
    ensures all.Keys - (all - Ids(ranked[..n])).Keys == Ids(ranked[..n])
  {
    var dropped := Ids(ranked[..n]);
    var kept := all - dropped;
    CountIds(all, ranked, n);
    forall id | id in dropped
      ensures id in all
    {
      IdsHold(ranked, n, id);
      var i :| 0 <= i < n && ranked[i].id == id;
      assert ranked[i] in ranked;
    }
    assert kept.Keys == all.Keys - dropped;
    forall id, gone | id in kept && gone in all && gone !in kept
      ensures Less(RankOf(gone, all[gone]), RankOf(id, all[id]))
    {
      DroppedRanksBelow(all, ranked, n, id, gone);
    }
  }

  lemma {:induction false} DroppedRanksBelow(all: Infos, ranked: seq<Key>, n: nat, id: PeerId, gone: PeerId)
    requires IsListing(all, ranked) && n <= |ranked|
    requires id in all && id !in Ids(ranked[..n]) && gone in all && gone in Ids(ranked[..n])
    ensures Less(RankOf(gone, all[gone]), RankOf(id, all[id]))
  {
    IdsHold(ranked, n, gone);
    IdsHold(ranked, n, id);
    var i :| 0 <= i < n && ranked[i].id == gone;
    assert ranked[i] in ranked;
    assert RankOf(id, all[id]) in ranked;
    var j :| 0 <= j < |ranked| && ranked[j] == RankOf(id, all[id]);
    assert Less(ranked[i], ranked[j]);
  }

  /** Removing the peers of a list of keys one by one. */
  ghost function Dropped(r: Register, keys: seq<Key>): Register {
    if keys == [] then r else Removed(Dropped(r, keys[..|keys| - 1]), keys[|keys| - 1].id)
  }

  lemma {:induction false} DroppedNext(r: Register, ranked: seq<Key>, i: nat)
    requires i < |ranked|
    ensures Dropped(r, ranked[..i + 1]) == Removed(Dropped(r, ranked[..i]), ranked[i].id)
  {
    assert ranked[..i + 1][..i] == ranked[..i];
  }

  lemma {:induction false} DroppedIs(r: Register, ranked: seq<Key>, n: nat)
    requires n <= |ranked|
    ensures Dropped(r, ranked[..n]) == Register(Without(r.original, Ids(ranked[..n])), r.providers - Ids(ranked[..n]))
  {
    if n > 0 {
      DroppedIs(r, ranked, n - 1);
      DroppedNext(r, ranked, n - 1);
      IdsNext(ranked, n - 1);
    }
  }

  lemma {:induction false} DroppingCaps(r: Register, ranked: seq<Key>, n: nat)
    requires IsListing(r.providers, ranked) && n <= |ranked|
    requires |r.providers| - n == Min(|r.providers|, MAX_PROVIDERS_PER_BLOB)
    ensures IsCapped(r, Dropped(r, ranked[..n]))
  {
    DroppedIs(r, ranked, n);
    PrefixIsWorst(r.providers, ranked, n);
  }

  // ----- The fetch order -----

  /** `ids` lists exactly the live providers, in strictly increasing order. */
  ghost predicate IsFetchOrder(r: Register, ids: seq<PeerId>) {
    && (forall id :: id in ids <==> Live(r, id))
    && (forall i, j :: 0 <= i < j < |ids| ==> Less(FetchKeyOf(r, ids[i]), FetchKeyOf(r, ids[j])))
  }

  ghost function FetchKeyOf(r: Register, id: PeerId): Key {
    if id in r.providers then FetchKey(r, id) else Key(0, 0, 0, id)
  }

  lemma {:induction false} FetchOrderOf(r: Register, keys: seq<Key>, ids: seq<PeerId>)
    requires Sorted(keys) && |ids| == |keys|
    requires forall k :: k in keys <==> Live(r, k.id) && k == FetchKey(r, k.id)
    requires forall j :: 0 <= j < |ids| ==> ids[j] == keys[j].id
    ensures IsFetchOrder(r, ids)
  {
    forall id | id in ids
      ensures Live(r, id)
    {
      var j :| 0 <= j < |ids| && ids[j] == id;
      assert keys[j] in keys;
    }
    forall id | Live(r, id)
      ensures id in ids
    {
      assert FetchKey(r, id) in keys;
      var j :| 0 <= j < |keys| && keys[j] == FetchKey(r, id);
      assert ids[j] == id;
    }
    forall i, j | 0 <= i < j < |ids|
      ensures Less(FetchKeyOf(r, ids[i]), FetchKeyOf(r, ids[j]))
    {
      assert keys[i] in keys && keys[j] in keys;
    }
  }

  /** In plain terms: the live providers, each before another if it failed less
      often, or else alone is the original offerer, or else has the smaller id. */
  lemma {:induction false} FetchOrderExactly(r: Register, ids: seq<PeerId>)
    ensures IsFetchOrder(r, ids) <==>
            && (forall id :: id in ids <==> id in r.providers && !r.providers[id].withdrawn)
            && (forall i, j :: 0 <= i < j < |ids| ==>
                  && ids[i] in r.providers && ids[j] in r.providers
                  && (|| r.providers[ids[i]].failures < r.providers[ids[j]].failures
                      || (r.providers[ids[i]].failures == r.providers[ids[j]].failures &&
                          (|| (r.original == Some(ids[i]) && r.original != Some(ids[j]))
                           || ((r.original == Some(ids[i]) <==> r.original == Some(ids[j])) && ids[i] < ids[j])))))
  {
    if forall id :: id in ids <==> id in r.providers && !r.providers[id].withdrawn {
      forall i | 0 <= i < |ids|
        ensures ids[i] in r.providers
      {
        assert ids[i] in ids;
      }
    }
  }

  /** The original offerer, while it is live, comes first exactly if no live
      provider has failed less often. */
  lemma {:induction false} OriginalFirstExactly(r: Register, ids: seq<PeerId>, original: PeerId)
    requires IsFetchOrder(r, ids) && r.original == Some(original) && Live(r, original)
    ensures ids != []
    ensures ids[0] == original <==>
            forall id :: Live(r, id) ==> r.providers[original].failures <= r.providers[id].failures
  {
    assert original in ids;
    var at :| 0 <= at < |ids| && ids[at] == original;
    assert ids[0] in ids;
    if ids[0] == original {
      forall id | Live(r, id)
        ensures r.providers[original].failures <= r.providers[id].failures
      {
        assert id in ids;
        var j :| 0 <= j < |ids| && ids[j] == id;
        assert j > 0 ==> Less(FetchKeyOf(r, ids[0]), FetchKeyOf(r, ids[j]));
      }
    } else {
      assert Less(FetchKeyOf(r, ids[0]), FetchKeyOf(r, ids[at]));
      assert Live(r, ids[0]);
    }
  }

  /** One failure of the original puts an untried provider before it. */
  lemma {:induction false} OriginalCanComeSecond(ids: seq<PeerId>)
    requires IsFetchOrder(Register(Some(1), map[1 := UNHEARD.(failures := 1), 2 := UNHEARD]), ids)
    ensures ids == [2, 1]
  {
    var r := Register(Some(1), map[1 := UNHEARD.(failures := 1), 2 := UNHEARD]);
    assert Less(FetchKeyOf(r, 2), FetchKeyOf(r, 1));
    forall id
      ensures id in [2, 1] <==> Live(r, id)
    {
    }
    assert IsFetchOrder(r, [2, 1]);
    FetchOrderIsUnique(r, ids, [2, 1]);
  }

  /** The order depends on the register alone. */
  lemma {:induction false} FetchOrderIsUnique(r: Register, x: seq<PeerId>, y: seq<PeerId>)
    requires IsFetchOrder(r, x) && IsFetchOrder(r, y)
    ensures x == y
  {
    var kx, ky := KeysOf(r, x), KeysOf(r, y);
    SameKeys(r, x, y);
    SameKeys(r, y, x);
    SortedIsUnique(kx, ky);
    forall i | 0 <= i < |x|
      ensures x[i] == y[i]
    {
      assert kx[i] == ky[i];
    }
  }

  ghost function KeysOf(r: Register, ids: seq<PeerId>): (keys: seq<Key>)
    ensures |keys| == |ids| && forall i :: 0 <= i < |ids| ==> keys[i] == FetchKeyOf(r, ids[i])
  {
    seq(|ids|, i requires 0 <= i < |ids| => FetchKeyOf(r, ids[i]))
  }

  lemma {:induction false} SameKeys(r: Register, x: seq<PeerId>, y: seq<PeerId>)
    requires forall id :: id in x ==> id in y
    ensures forall k :: k in KeysOf(r, x) ==> k in KeysOf(r, y)
  {
    forall k | k in KeysOf(r, x)
      ensures k in KeysOf(r, y)
    {
      var i :| 0 <= i < |x| && KeysOf(r, x)[i] == k;
      assert x[i] in y;
      var j :| 0 <= j < |y| && y[j] == x[i];
      assert KeysOf(r, y)[j] == k;
    }
  }

  // ----- Runs: the newest claim of a peer about itself wins -----

  datatype Op =
    | Add(id: PeerId, isOriginal: bool)
    | Assert(id: PeerId, at: nat, frame: FrameId, withdrawn: bool)
    | Fail(id: PeerId)
    | Succeed(id: PeerId)

  ghost function Apply(r: Register, op: Op): Register {
    match op
    case Add(id, isOriginal) => Added(r, id, isOriginal)
    case Assert(id, at, frame, withdrawn) => Recorded(r, id, at, frame, withdrawn)
    case Fail(id) => Failed(r, id)
    case Succeed(id) => Succeeded(r, id)
  }

  ghost function Run(r: Register, ops: seq<Op>): Register {
    if ops == [] then r else Apply(Run(r, ops[..|ops| - 1]), ops[|ops| - 1])
  }

  /** What a peer says of itself: when, in which frame, and which way. */
  datatype Claim = Claim(at: nat, frame: FrameId, withdrawn: bool)

  function ClaimOf(info: Info): Claim {
    Claim(info.announcedAt, info.frameId, info.withdrawn)
  }

  predicate Claims(op: Op, id: PeerId) {
    op.Assert? && op.id == id
  }

  /** The newest claim about `id`, starting from what was known before. */
  ghost function Winner(start: Claim, ops: seq<Op>, id: PeerId): Claim {
    if ops == [] then start
    else
      var before, op := Winner(start, ops[..|ops| - 1], id), ops[|ops| - 1];
      if Claims(op, id) && !Older(op.at, op.frame, before.at, before.frame) then Claim(op.at, op.frame, op.withdrawn)
      else before
  }

  /** The cap never drops the entry of `id` along the run. */
  ghost predicate Survives(r: Register, ops: seq<Op>, id: PeerId) {
    ops == [] ||
    (Survives(r, ops[..|ops| - 1], id) &&
     (id in Run(r, ops[..|ops| - 1]).providers || (ops[|ops| - 1].id == id && !ops[|ops| - 1].Succeed?) ==>
        id in Run(r, ops).providers))
  }

  /** One step changes what a surviving entry claims only by a newer claim. */
  lemma {:induction false} StepClaims(r: Register, op: Op, id: PeerId)
    requires id in r.providers || (op.id == id && !op.Succeed?) ==> id in Apply(r, op).providers
    ensures ClaimOf(InfoOf(Apply(r, op).providers, id)) ==
            var before := ClaimOf(InfoOf(r.providers, id));
            if Claims(op, id) && !Older(op.at, op.frame, before.at, before.frame)
                then Claim(op.at, op.frame, op.withdrawn)
            else before
  {
    if op.Assert? && !Stale(r, op.id, op.at, op.frame) {
      var all := Asserted(r, op.id, op.at, op.frame, op.withdrawn);
      assert Apply(r, op) == Capped(all);
      if id in Capped(all).providers {
        assert Capped(all).providers[id] == all.providers[id];
      }
    }
  }

  /** While its entry is not dropped, a provider's claim is the newest of all it
      made, whatever was added, failed, succeeded or asserted around it. */
  lemma {:induction false} NewestWins(r: Register, ops: seq<Op>, id: PeerId)
    requires Survives(r, ops, id)
    ensures ClaimOf(InfoOf(Run(r, ops).providers, id)) == Winner(ClaimOf(InfoOf(r.providers, id)), ops, id)
  {
    if ops != [] {
      NewestWins(r, ops[..|ops| - 1], id);
      StepClaims(Run(r, ops[..|ops| - 1]), ops[|ops| - 1], id);
    }
  }

  ghost predicate Makes(ops: seq<Op>, id: PeerId, claim: Claim) {
    exists k :: 0 <= k < |ops| && Claims(ops[k], id) && claim == Claim(ops[k].at, ops[k].frame, ops[k].withdrawn)
  }

  /** Does `id` claim anything not older than `start`? */
  ghost predicate Challenges(ops: seq<Op>, id: PeerId, start: Claim) {
    exists k :: 0 <= k < |ops| && Claims(ops[k], id) && !Older(ops[k].at, ops[k].frame, start.at, start.frame)
  }

  /** No claim made is newer than the winner. */
  lemma {:induction false} WinnerIsNewest(start: Claim, ops: seq<Op>, id: PeerId)
    ensures var w := Winner(start, ops, id);
            && !Older(w.at, w.frame, start.at, start.frame)
            && (forall k :: 0 <= k < |ops| && Claims(ops[k], id) ==> !Older(w.at, w.frame, ops[k].at, ops[k].frame))
    ensures var w := Winner(start, ops, id);
            forall k :: 0 <= k < |ops| && Claims(ops[k], id) ==>
              ops[k].at < w.at || (ops[k].at == w.at && ops[k].frame <= w.frame)
  {
    if ops != [] {
      var front := ops[..|ops| - 1];
      WinnerIsNewest(start, front, id);
      forall k | 0 <= k < |ops| && Claims(ops[k], id)
        ensures var w := Winner(start, ops, id); !Older(w.at, w.frame, ops[k].at, ops[k].frame)
      {
        if k < |front| {
          assert front[k] == ops[k];
        }
      }
    }
  }

  /** The winner is a claim that was made, unless none is as new as the start. */
  lemma {:induction false} WinnerWasMade(start: Claim, ops: seq<Op>, id: PeerId)
    ensures if Challenges(ops, id, start) then Makes(ops, id, Winner(start, ops, id))
            else Winner(start, ops, id) == start
  {
    if ops != [] {
      var front, op := ops[..|ops| - 1], ops[|ops| - 1];
      WinnerWasMade(start, front, id);
      WinnerIsNewest(start, front, id);
      var before := Winner(start, front, id);
      if Claims(op, id) && !Older(op.at, op.frame, before.at, before.frame) {
        assert Claims(ops[|front|], id);
      } else {
        if Makes(front, id, before) {
          var k :| 0 <= k < |front| && Claims(front[k], id) &&
              before == Claim(front[k].at, front[k].frame, front[k].withdrawn);
          assert ops[k] == front[k];
        }
      }
      ChallengesNext(start, ops, id);
    }
  }

  lemma {:induction false} ChallengesNext(start: Claim, ops: seq<Op>, id: PeerId)
    requires ops != []
    ensures var front, op := ops[..|ops| - 1], ops[|ops| - 1];
            Challenges(ops, id, start) <==>
            Challenges(front, id, start) || (Claims(op, id) && !Older(op.at, op.frame, start.at, start.frame))
  {
    var front, op := ops[..|ops| - 1], ops[|ops| - 1];
    forall k | 0 <= k < |front|
      ensures front[k] == ops[k]
    {
    }
    if Challenges(front, id, start) {
      var k :| 0 <= k < |front| && Claims(front[k], id) && !Older(front[k].at, front[k].frame, start.at, start.frame);
      assert ops[k] == front[k];
    }
    if Claims(op, id) && !Older(op.at, op.frame, start.at, start.frame) {
      assert Claims(ops[|front|], id);
    }
  }

  /** By times and ids: what the register says of a provider it has not dropped
      is a claim that provider made, unless it made none as new as what was known
      before, and no claim it made is later, or as late with a larger id. */
  lemma {:induction false} LatestClaimStands(r: Register, ops: seq<Op>, id: PeerId)
    requires Survives(r, ops, id) && id in Run(r, ops).providers
    ensures var e := Run(r, ops).providers[id];
            && (forall k :: 0 <= k < |ops| && ops[k].Assert? && ops[k].id == id ==>
                  ops[k].at < e.announcedAt || (ops[k].at == e.announcedAt && ops[k].frame <= e.frameId))
            && (|| (exists k :: 0 <= k < |ops| && ops[k].Assert? && ops[k].id == id && ops[k].at == e.announcedAt &&
                                ops[k].frame == e.frameId && ops[k].withdrawn == e.withdrawn)
                || ClaimOf(e) == (if id in r.providers then ClaimOf(r.providers[id]) else Claim(0, 0, false)))
  {
    var start := ClaimOf(InfoOf(r.providers, id));
    NewestWins(r, ops, id);
    WinnerIsNewest(start, ops, id);
    WinnerWasMade(start, ops, id);
    forall k | 0 <= k < |ops| && ops[k].Assert? && ops[k].id == id
      ensures Claims(ops[k], id)
    {
    }
  }

  /** A withdrawal stands: no adding, failing, succeeding or older claim brings
      the provider back while its tombstone is kept. */
  lemma {:induction false} NoResurrection(r: Register, ops: seq<Op>, id: PeerId)
    requires id in r.providers && r.providers[id].withdrawn
    requires forall k :: 0 <= k < |ops| && Claims(ops[k], id) ==>
               ops[k].at < r.providers[id].announcedAt ||
               (ops[k].at == r.providers[id].announcedAt && ops[k].frame < r.providers[id].frameId)
    requires Survives(r, ops, id)
    ensures !Live(Run(r, ops), id)
    ensures ClaimOf(InfoOf(Run(r, ops).providers, id)) == ClaimOf(r.providers[id])
  {
    NewestWins(r, ops, id);
    WinnerWasMade(ClaimOf(r.providers[id]), ops, id);
  }

  /** Claims of one peer about one blob in frames of their own. */
  ghost predicate ClaimsApart(x: seq<Op>, y: seq<Op>, id: PeerId) {
    forall i, j | 0 <= i < |x| && 0 <= j < |y| && Claims(x[i], id) && Claims(y[j], id) ::
      x[i].frame == y[j].frame ==> x[i] == y[j]
  }

  /** The same claims, in any order and repeated at will, have one winner. */
  lemma {:induction false} WinnerIsOrderFree(start: Claim, x: seq<Op>, y: seq<Op>, id: PeerId)
    requires ClaimsApart(x, y, id)
    requires forall op :: Claims(op, id) ==> (op in x <==> op in y)
    ensures Winner(start, x, id) == Winner(start, y, id)
  {
    if Challenges(x, id, start) {
      ChallengesAgree(start, x, y, id);
    } else if Challenges(y, id, start) {
      ChallengesAgree(start, y, x, id);
    }
    WinnerWasMade(start, x, id);
    WinnerWasMade(start, y, id);
    if Challenges(x, id, start) {
      var wx, wy := Winner(start, x, id), Winner(start, y, id);
      WinnerBeats(start, x, y, id);
      WinnerBeats(start, y, x, id);
      var k :| 0 <= k < |x| && Claims(x[k], id) && wx == Claim(x[k].at, x[k].frame, x[k].withdrawn);
      var j :| 0 <= j < |y| && Claims(y[j], id) && wy == Claim(y[j].at, y[j].frame, y[j].withdrawn);
      assert x[k] == y[j];
    }
  }

  lemma {:induction false} ChallengesAgree(start: Claim, x: seq<Op>, y: seq<Op>, id: PeerId)
    requires forall op :: Claims(op, id) ==> (op in x <==> op in y)
    requires Challenges(x, id, start)
    ensures Challenges(y, id, start)
  {
    var k :| 0 <= k < |x| && Claims(x[k], id) && !Older(x[k].at, x[k].frame, start.at, start.frame);
    assert x[k] in y;
    var j :| 0 <= j < |y| && y[j] == x[k];
  }

  lemma {:induction false} WinnerBeats(start: Claim, x: seq<Op>, y: seq<Op>, id: PeerId)
    requires forall op :: Claims(op, id) ==> (op in x <==> op in y)
    requires Makes(x, id, Winner(start, x, id))
    ensures var wx, wy := Winner(start, x, id), Winner(start, y, id);
            !Older(wy.at, wy.frame, wx.at, wx.frame)
  {
    var wx := Winner(start, x, id);
    WinnerIsNewest(start, y, id);
    var k :| 0 <= k < |x| && Claims(x[k], id) && wx == Claim(x[k].at, x[k].frame, x[k].withdrawn);
    assert x[k] in y;
    var j :| 0 <= j < |y| && y[j] == x[k];
  }

  // ----- Where the cap holds -----

  lemma {:induction false} UpdateCount(m: Infos, id: PeerId, info: Info)
    ensures |m[id := info]| == if id in m then |m| else |m| + 1
  {
    assert m[id := info].Keys == m.Keys + {id};
  }

  /** A register within the cap grows past it by adding an unknown provider to a
      full one, or by marking one failed there, and in no other way. */
  lemma {:induction false} CapHoldsExactly(r: Register, op: Op)
    requires |r.providers| <= MAX_PROVIDERS_PER_BLOB
    ensures |Apply(r, op).providers| <= MAX_PROVIDERS_PER_BLOB <==>
            !(|r.providers| == MAX_PROVIDERS_PER_BLOB && op.id !in r.providers && (op.Add? || op.Fail?))
  {
    StepCount(r, op);
    assert op.id !in r.providers && op.Assert? ==> Trims(r, op);
  }

  /** Does the operation enforce the cap? A stale assertion ends before that. */
  ghost predicate Trims(r: Register, op: Op) {
    op.Assert? && !Stale(r, op.id, op.at, op.frame)
  }

  /** Where the run stood when the cap was last enforced, or began. */
  ghost function LastTrim(r: Register, ops: seq<Op>): (k: nat)
    ensures k <= |ops|
  {
    if ops == [] then 0
    else
      var front, op := ops[..|ops| - 1], ops[|ops| - 1];
      if Trims(Run(r, front), op) then |ops| else LastTrim(r, front)
  }

  /** How many peers were added, or marked failed, while unknown, since then. */
  ghost function Unchecked(r: Register, ops: seq<Op>): nat {
    if ops == [] then 0
    else
      var front, op := ops[..|ops| - 1], ops[|ops| - 1];
      if Trims(Run(r, front), op) then 0
      else Unchecked(r, front) + (if op.id !in Run(r, front).providers && (op.Add? || op.Fail?) then 1 else 0)
  }

  lemma {:induction false} StepCount(r: Register, op: Op)
    ensures Trims(r, op) ==> |Apply(r, op).providers| <= MAX_PROVIDERS_PER_BLOB
    ensures !Trims(r, op) ==>
              |Apply(r, op).providers| ==
              |r.providers| + (if op.id !in r.providers && (op.Add? || op.Fail?) then 1 else 0)
  {
    match op
    case Add(id, _) => UpdateCount(r.providers, id, InfoOf(r.providers, id));
    case Fail(id) => UpdateCount(r.providers, id, Failed(r, id).providers[id]);
    case Succeed(id) =>
      if id in r.providers {
        UpdateCount(r.providers, id, Succeeded(r, id).providers[id]);
      }
    case Assert(id, at, frame, withdrawn) =>
  }

  /** Over every run the register holds what it held when the cap was last
      enforced, which is within the cap, and one more for every unknown peer
      added or marked failed since. */
  lemma {:induction false} RegisterCount(r: Register, ops: seq<Op>)
    ensures var k := LastTrim(r, ops);
            && |Run(r, ops).providers| == |Run(r, ops[..k]).providers| + Unchecked(r, ops)
            && (k > 0 || |r.providers| <= MAX_PROVIDERS_PER_BLOB ==>
                  |Run(r, ops[..k]).providers| <= MAX_PROVIDERS_PER_BLOB)
  {
    if ops != [] {
      var front, op := ops[..|ops| - 1], ops[|ops| - 1];
      RegisterCount(r, front);
      StepCount(Run(r, front), op);
      if Trims(Run(r, front), op) {
        assert ops[..|ops|] == ops;
      } else {
        assert front[..LastTrim(r, front)] == ops[..LastTrim(r, ops)];
      }
    }
  }

  /** `n` different peers added, one after the other. */
  ghost function Adds(n: nat): (ops: seq<Op>)
    ensures |ops| == n
  {
    if n == 0 then [] else Adds(n - 1) + [Add(n, false)]
  }

  lemma {:induction false} AddsAdd(n: nat)
    ensures forall id :: id in Run(NOBODY, Adds(n)).providers <==> 1 <= id <= n
    ensures |Run(NOBODY, Adds(n)).providers| == n
  {
    if n > 0 {
      AddsAdd(n - 1);
      assert Adds(n)[..n - 1] == Adds(n - 1);
      StepCount(Run(NOBODY, Adds(n - 1)), Add(n, false));
    }
  }

  /** One peer more than the cap, and the cap is broken. */
  lemma {:induction false} AddsBreakTheCap()
    ensures |Run(NOBODY, Adds(MAX_PROVIDERS_PER_BLOB + 1)).providers| == MAX_PROVIDERS_PER_BLOB + 1
  {
    AddsAdd(MAX_PROVIDERS_PER_BLOB + 1);
  }
}
