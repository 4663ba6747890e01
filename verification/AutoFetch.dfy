/** Automatic fetches under concurrent offers: what the policy's limits still
    mean when checking and reserving are separate steps. */
module AutoFetch {
  import opened Common

  const MAX_U64: nat := 0xFFFF_FFFF_FFFF_FFFF

  /** Sizes are 64-bit words. */
  type U64 = n: nat | n <= MAX_U64

  datatype Policy = Policy(maxBlobSize: U64, maxConcurrent: nat, maxTotalBytes: U64, mediaTypes: Option<set<string>>)

  datatype Refusal = TooLarge | MediaTypeRejected | ConcurrencyLimit | TotalQuotaExceeded

  datatype Offer = Offer(size: U64, mediaType: Option<string>)

  function SaturatingAdd(a: nat, b: nat): nat {
    Min(a + b, MAX_U64)
  }

  /** Is the type on the list, if there is one? No type counts as the empty one. */
  predicate Accepts(policy: Policy, mediaType: Option<string>) {
    policy.mediaTypes.Some? ==> (if mediaType.Some? then mediaType.value else "") in policy.mediaTypes.value
  }

  /** May this offer be fetched without being asked for? */
  function CheckAutoFetch(policy: Policy, offer: Offer, active: nat, spent: nat): Option<Refusal> {
    if offer.size > policy.maxBlobSize then Some(TooLarge)
    else if !Accepts(policy, offer.mediaType) then Some(MediaTypeRejected)
    else if active >= policy.maxConcurrent then Some(ConcurrencyLimit)
    else if SaturatingAdd(spent, offer.size) > policy.maxTotalBytes then Some(TotalQuotaExceeded)
    else None
  }

  /** An offer passes if and only if it is no larger than a blob may be, its type
      is on the list if there is one, a slot is free, and the bytes spent leave
      room for it; a budget of all the bytes that can be counted is never short.
      Otherwise the first of these that fails is the reason. */
  lemma {:induction false} CheckExactly(policy: Policy, offer: Offer, active: nat, spent: nat)
    ensures var mediaType := if offer.mediaType.Some? then offer.mediaType.value else "";
            CheckAutoFetch(policy, offer, active, spent) ==
            if offer.size > policy.maxBlobSize then Some(TooLarge)
            else if policy.mediaTypes.Some? && mediaType !in policy.mediaTypes.value then Some(MediaTypeRejected)
            else if active >= policy.maxConcurrent then Some(ConcurrencyLimit)
            else if spent + offer.size > policy.maxTotalBytes && policy.maxTotalBytes != 0xFFFF_FFFF_FFFF_FFFF then
              Some(TotalQuotaExceeded)
            else None
  {
  }

  // ----- One offer's way through the handler -----

  /** Where an offer stands. The handler loads the count of active fetches, then
      loads the bytes spent and checks; it adds the size, then adds one to the
      count. The fetch it spawned runs, gives the size back if it failed, and
      takes the one off again. */
  datatype Phase =
    | Arrived
    | Loaded(active: nat)
    | Approved
    | BytesReserved
    | Running
    | Finishing(succeeded: bool)
    | Succeeded
    | Failed
    | Refused

  datatype Fetch = Fetch(offer: Offer, phase: Phase)

  /** The two shared counters and every offer that arrived. */
  datatype State = State(active: int, bytes: int, fetches: seq<Fetch>)

  datatype Step =
    | Arrive(offer: Offer)
    | Load(i: nat)
    | Check(i: nat)
    | Decline(i: nat)
    | ReserveBytes(i: nat)
    | ReserveSlot(i: nat)
    | Finish(i: nat, succeeded: bool)
    | Release(i: nat)

  predicate InHandler(f: Fetch) {
    f.phase.Loaded? || f.phase.Approved? || f.phase.BytesReserved?
  }

  /** A step is taken by the offer in the right phase; at most `k` handlers are
      between their first load and their last reservation. */
  ghost predicate Enabled(policy: Policy, s: State, step: Step, k: nat) {
    match step
    case Arrive(_) => true
    case Load(i) => i < |s.fetches| && s.fetches[i].phase.Arrived? && Sum(policy, s.fetches, Handlers) < k
    case Check(i) => i < |s.fetches| && s.fetches[i].phase.Loaded?
    case Decline(i) => i < |s.fetches| && s.fetches[i].phase.Approved?
    case ReserveBytes(i) => i < |s.fetches| && s.fetches[i].phase.Approved?
    case ReserveSlot(i) => i < |s.fetches| && s.fetches[i].phase.BytesReserved?
    case Finish(i, _) => i < |s.fetches| && s.fetches[i].phase.Running?
    case Release(i) => i < |s.fetches| && s.fetches[i].phase.Finishing?
  }

  function Moved(fetches: seq<Fetch>, i: nat, phase: Phase): seq<Fetch>
    requires i < |fetches|
  {
    fetches[i := fetches[i].(phase := phase)]
  }

  /** The byte counter is an unsigned 64-bit word and wraps. */
  function Word(n: int): int {
    n % (MAX_U64 + 1)
  }

  ghost function Next(policy: Policy, s: State, step: Step, k: nat): State
    requires Enabled(policy, s, step, k)
  {
    match step
    case Arrive(offer) => s.(fetches := s.fetches + [Fetch(offer, Arrived)])
    case Load(i) => s.(fetches := Moved(s.fetches, i, Loaded(Max(s.active, 0))))
    case Check(i) =>
      var f := s.fetches[i];
      s.(fetches := Moved(s.fetches, i,
           if CheckAutoFetch(policy, f.offer, f.phase.active, Max(s.bytes, 0)).None? then Approved else Refused))
    case Decline(i) => s.(fetches := Moved(s.fetches, i, Refused))
    case ReserveBytes(i) =>
      s.(bytes := Word(s.bytes + s.fetches[i].offer.size), fetches := Moved(s.fetches, i, BytesReserved))
    case ReserveSlot(i) => s.(active := s.active + 1, fetches := Moved(s.fetches, i, Running))
    case Finish(i, succeeded) =>
      s.(bytes := if succeeded then s.bytes else Word(s.bytes - s.fetches[i].offer.size),
         fetches := Moved(s.fetches, i, Finishing(succeeded)))
    case Release(i) =>
      s.(active := s.active - 1,
         fetches := Moved(s.fetches, i, if s.fetches[i].phase.succeeded then Succeeded else Failed))
  }

  // ----- Sums over the offers -----

  /** What an offer may weigh: a slot it holds, bytes it holds, a handler it
      keeps busy, a slot it may still take, bytes it may still take. */
  datatype Measure = Slots | Bytes | Handlers | Claims | ApprovedBytes | Approvals | Loads

  function Weight(policy: Policy, f: Fetch, m: Measure): nat {
    match m
    case Slots => if f.phase.Running? || f.phase.Finishing? then 1 else 0
    case Bytes =>
      if f.phase.BytesReserved? || f.phase.Running? || f.phase == Finishing(true) || f.phase.Succeeded? then
        f.offer.size
      else 0
    case Handlers => if InHandler(f) then 1 else 0
    case Claims => if InHandler(f) && (f.phase.Loaded? ==> f.phase.active < policy.maxConcurrent) then 1 else 0
    case ApprovedBytes => if f.phase.Approved? then f.offer.size else 0
    case Approvals => if f.phase.Approved? then 1 else 0
    case Loads => if f.phase.Loaded? then 1 else 0
  }

  ghost function Sum(policy: Policy, fetches: seq<Fetch>, m: Measure): nat {
    if fetches == [] then 0 else Weight(policy, fetches[0], m) + Sum(policy, fetches[1..], m)
  }

  lemma {:induction false} SumPush(policy: Policy, fetches: seq<Fetch>, f: Fetch, m: Measure)
    ensures Sum(policy, fetches + [f], m) == Sum(policy, fetches, m) + Weight(policy, f, m)
  {
    if fetches == [] {
      assert fetches + [f] == [f];
    } else {
      SumPush(policy, fetches[1..], f, m);
      assert (fetches + [f])[1..] == fetches[1..] + [f];
    }
  }

  lemma {:induction false} SumMoved(policy: Policy, fetches: seq<Fetch>, i: nat, f: Fetch, m: Measure)
    requires i < |fetches|
    ensures Sum(policy, fetches[i := f], m) ==
            Sum(policy, fetches, m) - Weight(policy, fetches[i], m) + Weight(policy, f, m)
    ensures Weight(policy, fetches[i], m) <= Sum(policy, fetches, m)
  {
    if i > 0 {
      SumMoved(policy, fetches[1..], i - 1, f, m);
      assert fetches[i := f][1..] == fetches[1..][i - 1 := f];
    } else {
      assert fetches[i := f][1..] == fetches[1..];
    }
  }

  lemma {:induction false} HandlersCover(policy: Policy, fetches: seq<Fetch>)
    ensures Sum(policy, fetches, Claims) <= Sum(policy, fetches, Handlers)
    ensures Sum(policy, fetches, Approvals) + Sum(policy, fetches, Loads) <= Sum(policy, fetches, Handlers)
  {
    if fetches != [] {
      HandlersCover(policy, fetches[1..]);
    }
  }

  /** Everything past the check is of an accepted size. */
  ghost predicate Checked(policy: Policy, fetches: seq<Fetch>) {
    forall i :: 0 <= i < |fetches| ==> Passed(policy, fetches[i])
  }

  predicate Passed(policy: Policy, f: Fetch) {
    f.phase.Arrived? || f.phase.Loaded? || f.phase.Refused? || Eligible(policy, f.offer)
  }

  predicate Eligible(policy: Policy, offer: Offer) {
    offer.size <= Largest(policy) && Accepts(policy, offer.mediaType)
  }

  /** The largest blob that can ever pass the check. */
  function Largest(policy: Policy): U64 {
    if policy.maxBlobSize <= policy.maxTotalBytes then policy.maxBlobSize else policy.maxTotalBytes
  }

  lemma {:induction false} ApprovedBytesBound(policy: Policy, fetches: seq<Fetch>)
    requires Checked(policy, fetches)
    ensures Sum(policy, fetches, ApprovedBytes) <= Times(Sum(policy, fetches, Approvals), Largest(policy))
  {
    if fetches != [] {
      var f := fetches[0];
      assert Passed(policy, f);
      assert Checked(policy, fetches[1..]) by {
        forall i | 0 <= i < |fetches[1..]|
          ensures Passed(policy, fetches[1..][i])
        {
          assert fetches[1..][i] == fetches[i + 1];
        }
      }
      ApprovedBytesBound(policy, fetches[1..]);
    }
  }

  // ----- What every interleaving keeps -----

  function Times(a: int, b: int): int {
    a * b
  }

  /** The count of active fetches is exact, and the limit holds for the slots
      taken together with those handlers may still take. */
  ghost predicate SlotInv(policy: Policy, s: State, k: nat) {
    && s.active == Sum(policy, s.fetches, Slots)
    && Sum(policy, s.fetches, Handlers) <= k
    && s.active + Sum(policy, s.fetches, Claims) <= policy.maxConcurrent + k - 1
    && Checked(policy, s.fetches)
    && 0 <= s.bytes <= MAX_U64
  }

  function ByteBound(policy: Policy, k: nat): int {
    policy.maxTotalBytes + Times(k - 1, Largest(policy))
  }

  /** The same of the bytes. */
  ghost predicate ByteInv(policy: Policy, s: State, k: nat) {
    && s.bytes == Sum(policy, s.fetches, Bytes)
    && s.bytes + Sum(policy, s.fetches, ApprovedBytes) <= ByteBound(policy, k)
  }

  /** The bound fits the word the bytes are counted in, and the saturating sum
      can exceed the limit. */
  predicate Counts(policy: Policy, k: nat) {
    policy.maxTotalBytes < MAX_U64 && ByteBound(policy, k) <= MAX_U64
  }

  lemma {:induction false} SumsMoved(policy: Policy, fetches: seq<Fetch>, i: nat, phase: Phase)
    requires i < |fetches|
    ensures forall m :: Sum(policy, Moved(fetches, i, phase), m) ==
              Sum(policy, fetches, m) - Weight(policy, fetches[i], m) + Weight(policy, fetches[i].(phase := phase), m)
    ensures forall m :: Weight(policy, fetches[i], m) <= Sum(policy, fetches, m)
  {
    forall m
      ensures Sum(policy, Moved(fetches, i, phase), m) ==
              Sum(policy, fetches, m) - Weight(policy, fetches[i], m) + Weight(policy, fetches[i].(phase := phase), m)
      ensures Weight(policy, fetches[i], m) <= Sum(policy, fetches, m)
    {
      SumMoved(policy, fetches, i, fetches[i].(phase := phase), m);
    }
  }

  /** The phase a step moves its offer to. */
  function Moves(policy: Policy, s: State, step: Step): Phase
    requires !step.Arrive? && step.i < |s.fetches|
    requires step.Check? ==> s.fetches[step.i].phase.Loaded?
    requires step.Release? ==> s.fetches[step.i].phase.Finishing?
  {
    match step
    case Load(_) => Loaded(Max(s.active, 0))
    case Check(i) =>
      var f := s.fetches[i];
      if CheckAutoFetch(policy, f.offer, f.phase.active, Max(s.bytes, 0)).None? then Approved else Refused
    case Decline(_) => Refused
    case ReserveBytes(_) => BytesReserved
    case ReserveSlot(_) => Running
    case Finish(_, succeeded) => Finishing(succeeded)
    case Release(i) => if s.fetches[i].phase.succeeded then Succeeded else Failed
  }

  lemma {:induction false} NextMoves(policy: Policy, s: State, step: Step, k: nat)
    requires Enabled(policy, s, step, k) && !step.Arrive?
    ensures Next(policy, s, step, k).fetches == Moved(s.fetches, step.i, Moves(policy, s, step))
  {
  }

  lemma {:induction false} SumsArrived(policy: Policy, fetches: seq<Fetch>, offer: Offer)
    ensures forall m :: Sum(policy, fetches + [Fetch(offer, Arrived)], m) == Sum(policy, fetches, m)
  {
    forall m
      ensures Sum(policy, fetches + [Fetch(offer, Arrived)], m) == Sum(policy, fetches, m)
    {
      SumPush(policy, fetches, Fetch(offer, Arrived), m);
    }
  }

  /** However steps interleave: a load that finds room finds at most the other
      handlers claiming too. */
  lemma {:induction false} StepKeepsSlots(policy: Policy, s: State, step: Step, k: nat)
    requires k >= 1 && SlotInv(policy, s, k) && Enabled(policy, s, step, k)
    ensures SlotInv(policy, Next(policy, s, step, k), k)
  {
    if step.Arrive? {
      SumsArrived(policy, s.fetches, step.offer);
    } else {
      NextMoves(policy, s, step, k);
      SumsMoved(policy, s.fetches, step.i, Moves(policy, s, step));
      HandlersCover(policy, s.fetches);
      StepChecked(policy, s, step, k);
      StepCounts(policy, s, step, k);
    }
  }

  lemma {:induction false} StepChecked(policy: Policy, s: State, step: Step, k: nat)
    requires Checked(policy, s.fetches) && Enabled(policy, s, step, k) && !step.Arrive?
    ensures Checked(policy, Moved(s.fetches, step.i, Moves(policy, s, step)))
  {
    assert Passed(policy, s.fetches[step.i]);
  }

  lemma {:induction false} StepCounts(policy: Policy, s: State, step: Step, k: nat)
    requires k >= 1 && SlotInv(policy, s, k) && Enabled(policy, s, step, k) && !step.Arrive?
    requires var was, now := s.fetches[step.i], s.fetches[step.i].(phase := Moves(policy, s, step));
             forall m :: Sum(policy, Moved(s.fetches, step.i, Moves(policy, s, step)), m) ==
               Sum(policy, s.fetches, m) - Weight(policy, was, m) + Weight(policy, now, m)
    requires Sum(policy, s.fetches, Claims) <= Sum(policy, s.fetches, Handlers)
    ensures var n := Next(policy, s, step, k);
            && n.active == Sum(policy, n.fetches, Slots)
            && Sum(policy, n.fetches, Handlers) <= k
            && n.active + Sum(policy, n.fetches, Claims) <= policy.maxConcurrent + k - 1
            && 0 <= n.bytes <= MAX_U64
  {
    NextMoves(policy, s, step, k);
  }

  lemma {:induction false} WordFits(n: int)
    requires 0 <= n <= MAX_U64
    ensures Word(n) == n
  {
  }

  /** A check that passes leaves at most the other handlers' blobs on top. */
  lemma {:induction false} StepKeepsBytes(policy: Policy, s: State, step: Step, k: nat)
    requires k >= 1 && Counts(policy, k) && SlotInv(policy, s, k) && ByteInv(policy, s, k)
    requires Enabled(policy, s, step, k)
    ensures ByteInv(policy, Next(policy, s, step, k), k)
  {
    if step.Arrive? {
      SumsArrived(policy, s.fetches, step.offer);
    } else if step.Check? {
      CheckKeepsBytes(policy, s, step.i, k);
    } else {
      MoveKeepsBytes(policy, s, step, k);
    }
  }

  lemma {:induction false} CheckKeepsBytes(policy: Policy, s: State, i: nat, k: nat)
    requires k >= 1 && Counts(policy, k) && SlotInv(policy, s, k) && ByteInv(policy, s, k)
    requires Enabled(policy, s, Check(i), k)
    ensures ByteInv(policy, Next(policy, s, Check(i), k), k)
  {
    SumsMoved(policy, s.fetches, i, Moves(policy, s, Check(i)));
    OthersApproved(policy, s, i, k);
  }

  lemma {:induction false} MoveKeepsBytes(policy: Policy, s: State, step: Step, k: nat)
    requires Counts(policy, k) && ByteInv(policy, s, k) && Enabled(policy, s, step, k) && !step.Arrive? && !step.Check?
    ensures ByteInv(policy, Next(policy, s, step, k), k)
  {
    NextMoves(policy, s, step, k);
    SumsMoved(policy, s.fetches, step.i, Moves(policy, s, step));
    var size := s.fetches[step.i].offer.size;
    if step.ReserveBytes? {
      WordFits(s.bytes + size);
    } else if step.Finish? {
      WordFits(s.bytes - size);
    }
  }

  lemma {:induction false} OthersApproved(policy: Policy, s: State, i: nat, k: nat)
    requires SlotInv(policy, s, k) && i < |s.fetches| && s.fetches[i].phase.Loaded?
    ensures Sum(policy, s.fetches, ApprovedBytes) <= Times(k - 1, Largest(policy))
  {
    HandlersCover(policy, s.fetches);
    ApprovedBytesBound(policy, s.fetches);
    SumMoved(policy, s.fetches, i, s.fetches[i], Loads);
    assert Weight(policy, s.fetches[i], Loads) == 1;
    Product(Sum(policy, s.fetches, Approvals), k - 1, Largest(policy));
  }

  lemma {:induction false} Product(a: nat, b: int, c: nat)
    requires a <= b
    ensures Times(a, c) <= Times(b, c)
  {
  }

  ghost predicate CanRun(policy: Policy, steps: seq<Step>, k: nat)
    decreases |steps|, 0
  {
    steps == [] ||
    (CanRun(policy, steps[..|steps| - 1], k) &&
     Enabled(policy, Run(policy, steps[..|steps| - 1], k), steps[|steps| - 1], k))
  }

  ghost function Run(policy: Policy, steps: seq<Step>, k: nat): State
    requires CanRun(policy, steps, k)
    decreases |steps|, 1
  {
    if steps == [] then State(0, 0, []) else Next(policy, Run(policy, steps[..|steps| - 1], k), steps[|steps| - 1], k)
  }

  lemma {:induction false} RunKeepsSlots(policy: Policy, steps: seq<Step>, k: nat)
    requires k >= 1 && CanRun(policy, steps, k)
    ensures SlotInv(policy, Run(policy, steps, k), k)
  {
    if steps != [] {
      RunKeepsSlots(policy, steps[..|steps| - 1], k);
      StepKeepsSlots(policy, Run(policy, steps[..|steps| - 1], k), steps[|steps| - 1], k);
    }
  }

  lemma {:induction false} RunKeepsBytes(policy: Policy, steps: seq<Step>, k: nat)
    requires k >= 1 && Counts(policy, k) && CanRun(policy, steps, k)
    ensures ByteInv(policy, Run(policy, steps, k), k)
  {
    if steps != [] {
      RunKeepsSlots(policy, steps[..|steps| - 1], k);
      RunKeepsBytes(policy, steps[..|steps| - 1], k);
      StepKeepsBytes(policy, Run(policy, steps[..|steps| - 1], k), steps[|steps| - 1], k);
    } else {
      Product(0, k - 1, Largest(policy));
    }
  }

  // ----- What the limits come to -----

  /** No handler between its first load and its last reservation, no finished
      fetch that has yet to give its slot back. */
  ghost predicate Settled(s: State) {
    forall i :: 0 <= i < |s.fetches| ==> !InHandler(s.fetches[i]) && !s.fetches[i].phase.Finishing?
  }

  function RunningCount(fetches: seq<Fetch>): nat {
    if fetches == [] then 0 else (if fetches[0].phase.Running? then 1 else 0) + RunningCount(fetches[1..])
  }

  function SpentOn(fetches: seq<Fetch>): nat {
    if fetches == [] then 0
    else
      var f := fetches[0];
      (if f.phase.Running? || f.phase.Succeeded? then f.offer.size else 0) + SpentOn(fetches[1..])
  }

  lemma {:induction false} SettledSums(policy: Policy, fetches: seq<Fetch>)
    requires forall i :: 0 <= i < |fetches| ==> !InHandler(fetches[i]) && !fetches[i].phase.Finishing?
    ensures Sum(policy, fetches, Slots) == RunningCount(fetches)
    ensures Sum(policy, fetches, Bytes) == SpentOn(fetches)
  {
    if fetches != [] {
      forall i | 0 <= i < |fetches[1..]|
        ensures fetches[1..][i] == fetches[i + 1]
      {
      }
      SettledSums(policy, fetches[1..]);
    }
  }

  /** However the handlers and fetches interleave: at most `k` - 1 fetches over
      the policy's limit, and once all is settled the count is the running ones. */
  lemma {:induction false} SlotLimitHolds(policy: Policy, steps: seq<Step>, k: nat)
    requires k >= 1 && CanRun(policy, steps, k)
    ensures var s := Run(policy, steps, k);
            && 0 <= s.active <= policy.maxConcurrent + k - 1
            && (Settled(s) ==> s.active == RunningCount(s.fetches))
  {
    RunKeepsSlots(policy, steps, k);
    if Settled(Run(policy, steps, k)) {
      SettledSums(policy, Run(policy, steps, k).fetches);
    }
  }

  /** And at most `k` - 1 of the largest blobs over the byte budget, where the
      bytes can be counted: once settled they are those of running and succeeded
      fetches. */
  lemma {:induction false} ByteLimitHolds(policy: Policy, steps: seq<Step>, k: nat)
    requires k >= 1 && Counts(policy, k) && CanRun(policy, steps, k)
    ensures var s := Run(policy, steps, k);
            && 0 <= s.bytes <= ByteBound(policy, k)
            && (Settled(s) ==> s.bytes == SpentOn(s.fetches))
  {
    RunKeepsBytes(policy, steps, k);
    if Settled(Run(policy, steps, k)) {
      SettledSums(policy, Run(policy, steps, k).fetches);
    }
  }

  /** One handler at a time keeps the policy's limits to the letter. */
  lemma {:induction false} AloneLimitsAreExact(policy: Policy, steps: seq<Step>)
    requires CanRun(policy, steps, 1)
    ensures var s := Run(policy, steps, 1);
            s.active <= policy.maxConcurrent && s.bytes <= policy.maxTotalBytes
  {
    RunKeepsSlots(policy, steps, 1);
    assert Times(0, Largest(policy)) == 0;
    if policy.maxTotalBytes < MAX_U64 {
      ByteLimitHolds(policy, steps, 1);
    }
  }

  /** A slot that is given back was there to give. */
  lemma {:induction false} SlotsNeverUnderflow(policy: Policy, steps: seq<Step>, k: nat, step: Step)
    requires k >= 1 && CanRun(policy, steps, k) && Enabled(policy, Run(policy, steps, k), step, k)
    ensures step.Release? || step.Finish? ==> Run(policy, steps, k).active >= 1
  {
    RunKeepsSlots(policy, steps, k);
    var s := Run(policy, steps, k);
    if !step.Arrive? {
      SumsMoved(policy, s.fetches, step.i, Arrived);
    }
  }

  /** So was a refund, and no reservation wraps, where the bytes can be counted. */
  lemma {:induction false} BytesNeverWrap(policy: Policy, steps: seq<Step>, k: nat, step: Step)
    requires k >= 1 && Counts(policy, k) && CanRun(policy, steps, k) && Enabled(policy, Run(policy, steps, k), step, k)
    ensures var s := Run(policy, steps, k);
            && (step.Finish? ==> s.bytes >= s.fetches[step.i].offer.size)
            && (step.ReserveBytes? ==> s.bytes + s.fetches[step.i].offer.size <= MAX_U64)
  {
    RunKeepsBytes(policy, steps, k);
    var s := Run(policy, steps, k);
    if !step.Arrive? {
      SumsMoved(policy, s.fetches, step.i, Arrived);
    }
  }

  /** Only what the policy accepts by size and type is ever reserved for. */
  lemma {:induction false} OnlyEligibleAreFetched(policy: Policy, steps: seq<Step>, k: nat, i: nat)
    requires k >= 1 && CanRun(policy, steps, k) && i < |Run(policy, steps, k).fetches|
    requires var phase := Run(policy, steps, k).fetches[i].phase;
             phase.BytesReserved? || phase.Running? || phase.Finishing? || phase.Succeeded? || phase.Failed?
    ensures var offer := Run(policy, steps, k).fetches[i].offer;
            && offer.size <= policy.maxBlobSize && offer.size <= policy.maxTotalBytes
            && (policy.mediaTypes.Some? ==>
                  (if offer.mediaType.Some? then offer.mediaType.value else "") in policy.mediaTypes.value)
  {
    RunKeepsSlots(policy, steps, k);
    assert Passed(policy, Run(policy, steps, k).fetches[i]);
  }

  // ----- The bound is reached -----

  ghost predicate Reaches(policy: Policy, s: State, k: nat) {
    exists steps :: CanRun(policy, steps, k) && Run(policy, steps, k) == s
  }

  lemma {:induction false} ReachNext(policy: Policy, s: State, step: Step, k: nat)
    requires Reaches(policy, s, k) && Enabled(policy, s, step, k)
    ensures Reaches(policy, Next(policy, s, step, k), k)
  {
    var steps :| CanRun(policy, steps, k) && Run(policy, steps, k) == s;
    assert (steps + [step])[..|steps|] == steps;
    assert CanRun(policy, steps + [step], k);
    assert Run(policy, steps + [step], k) == Next(policy, s, step, k);
  }

  function Copies(n: nat, f: Fetch): (fs: seq<Fetch>)
    ensures |fs| == n
  {
    if n == 0 then [] else Copies(n - 1, f) + [f]
  }

  /** `running` fetches of an empty file, then `loaded` handlers that all saw
      one slot free, then `waiting` offers. */
  function Crowd(policy: Policy, offer: Offer, running: nat, loaded: nat, waiting: nat): (fs: seq<Fetch>)
    requires policy.maxConcurrent >= 1
    ensures |fs| == running + loaded + waiting
  {
    Copies(running, Fetch(offer, Running)) + Copies(loaded, Fetch(offer, Loaded(policy.maxConcurrent - 1))) +
    Copies(waiting, Fetch(offer, Arrived))
  }

  ghost predicate CrowdReached(policy: Policy, offer: Offer, running: nat, loaded: nat, waiting: nat, k: nat)
    requires policy.maxConcurrent >= 1
  {
    Reaches(policy, State(running, 0, Crowd(policy, offer, running, loaded, waiting)), k)
  }

  lemma {:induction false} SumConcat(policy: Policy, x: seq<Fetch>, y: seq<Fetch>, m: Measure)
    ensures Sum(policy, x + y, m) == Sum(policy, x, m) + Sum(policy, y, m)
  {
    if y == [] {
      assert x + y == x;
    } else {
      SumConcat(policy, x, y[..|y| - 1], m);
      SplitLast(y);
      assert x + y == (x + y[..|y| - 1]) + [y[|y| - 1]];
      SumPush(policy, x + y[..|y| - 1], y[|y| - 1], m);
      SumPush(policy, y[..|y| - 1], y[|y| - 1], m);
    }
  }

  lemma {:induction false} TimesNext(n: nat, w: nat)
    ensures Times(n + 1, w) == Times(n, w) + w
  {
  }

  lemma {:induction false} SumCopies(policy: Policy, n: nat, f: Fetch, m: Measure)
    ensures Sum(policy, Copies(n, f), m) == Times(n, Weight(policy, f, m))
  {
    if n > 0 {
      SumCopies(policy, n - 1, f, m);
      SumPush(policy, Copies(n - 1, f), f, m);
      TimesNext(n - 1, Weight(policy, f, m));
    } else {
      Product(0, 0, Weight(policy, f, m));
    }
  }

  lemma {:induction false} CrowdHandlers(policy: Policy, offer: Offer, running: nat, loaded: nat, waiting: nat)
    requires policy.maxConcurrent >= 1
    ensures Sum(policy, Crowd(policy, offer, running, loaded, waiting), Handlers) == loaded
  {
    var a, c := Copies(running, Fetch(offer, Running)), Copies(waiting, Fetch(offer, Arrived));
    var b := Copies(loaded, Fetch(offer, Loaded(policy.maxConcurrent - 1)));
    SumConcat(policy, a + b, c, Handlers);
    SumConcat(policy, a, b, Handlers);
    SumCopies(policy, running, Fetch(offer, Running), Handlers);
    SumCopies(policy, loaded, Fetch(offer, Loaded(policy.maxConcurrent - 1)), Handlers);
    SumCopies(policy, waiting, Fetch(offer, Arrived), Handlers);
  }

  lemma {:induction false} CopiesFront(n: nat, f: Fetch)
    requires n > 0
    ensures Copies(n, f) == [f] + Copies(n - 1, f)
  {
    if n > 1 {
      CopiesFront(n - 1, f);
    }
  }

  lemma {:induction false} MovedInside(x: seq<Fetch>, f: Fetch, y: seq<Fetch>, phase: Phase)
    ensures Moved(x + [f] + y, |x|, phase) == x + [f.(phase := phase)] + y
    ensures (x + [f] + y)[|x|] == f
  {
  }

  /** One offer more waits. */
  lemma {:induction false} OneWaits(policy: Policy, offer: Offer, waiting: nat, k: nat)
    requires policy.maxConcurrent >= 1 && CrowdReached(policy, offer, 0, 0, waiting, k)
    ensures CrowdReached(policy, offer, 0, 0, waiting + 1, k)
  {
    ReachNext(policy, State(0, 0, Crowd(policy, offer, 0, 0, waiting)), Arrive(offer), k);
    assert Crowd(policy, offer, 0, 0, waiting + 1) == Crowd(policy, offer, 0, 0, waiting) + [Fetch(offer, Arrived)];
  }

  lemma {:induction false} Regroup(x: seq<Fetch>, y: seq<Fetch>, z: seq<Fetch>)
    ensures x + (y + z) == (x + y) + z
  {
  }

  /** A waiting offer's handler loads a count of one below the limit. */
  lemma {:induction false} OneLoads(policy: Policy, offer: Offer, loaded: nat, waiting: nat, k: nat)
    requires policy.maxConcurrent >= 1 && loaded < k && waiting > 0
    requires CrowdReached(policy, offer, policy.maxConcurrent - 1, loaded, waiting, k)
    ensures CrowdReached(policy, offer, policy.maxConcurrent - 1, loaded + 1, waiting - 1, k)
  {
    var running := policy.maxConcurrent - 1;
    var front := Copies(running, Fetch(offer, Running)) + Copies(loaded, Fetch(offer, Loaded(running)));
    var rest := Copies(waiting - 1, Fetch(offer, Arrived));
    CrowdWaits(policy, offer, running, loaded, waiting);
    MovedInside(front, Fetch(offer, Arrived), rest, Loaded(running));
    CrowdHandlers(policy, offer, running, loaded, waiting);
    ReachNext(policy, State(running, 0, Crowd(policy, offer, running, loaded, waiting)), Load(running + loaded), k);
    Regroup(Copies(running, Fetch(offer, Running)), Copies(loaded, Fetch(offer, Loaded(running))),
        [Fetch(offer, Loaded(running))]);
  }

  lemma {:induction false} CrowdWaits(policy: Policy, offer: Offer, running: nat, loaded: nat, waiting: nat)
    requires policy.maxConcurrent >= 1 && waiting > 0
    ensures Crowd(policy, offer, running, loaded, waiting) ==
            (Copies(running, Fetch(offer, Running)) + Copies(loaded, Fetch(offer, Loaded(policy.maxConcurrent - 1)))) +
            [Fetch(offer, Arrived)] + Copies(waiting - 1, Fetch(offer, Arrived))
  {
    CopiesFront(waiting, Fetch(offer, Arrived));
    Regroup(Copies(running, Fetch(offer, Running)) + Copies(loaded, Fetch(offer, Loaded(policy.maxConcurrent - 1))),
            [Fetch(offer, Arrived)], Copies(waiting - 1, Fetch(offer, Arrived)));
  }

  /** From a load below the limit on, an empty file is always fetched. */
  lemma {:induction false} Proceeds(policy: Policy, front: seq<Fetch>, offer: Offer, seen: nat, rest: seq<Fetch>,
                                    active: nat, k: nat)
    requires seen < policy.maxConcurrent && offer.size == 0 && Eligible(policy, offer)
    requires Reaches(policy, State(active, 0, front + [Fetch(offer, Loaded(seen))] + rest), k)
    ensures Reaches(policy, State(active + 1, 0, front + [Fetch(offer, Running)] + rest), k)
  {
    var i := |front|;
    MovedInside(front, Fetch(offer, Loaded(seen)), rest, Approved);
    ReachNext(policy, State(active, 0, front + [Fetch(offer, Loaded(seen))] + rest), Check(i), k);
    MovedInside(front, Fetch(offer, Approved), rest, BytesReserved);
    ReachNext(policy, State(active, 0, front + [Fetch(offer, Approved)] + rest), ReserveBytes(i), k);
    MovedInside(front, Fetch(offer, BytesReserved), rest, Running);
    ReachNext(policy, State(active, 0, front + [Fetch(offer, BytesReserved)] + rest), ReserveSlot(i), k);
  }

  lemma {:induction false} OneRuns(policy: Policy, offer: Offer, running: nat, loaded: nat, waiting: nat, k: nat)
    requires policy.maxConcurrent >= 1 && offer.size == 0 && Eligible(policy, offer) && loaded > 0
    requires CrowdReached(policy, offer, running, loaded, waiting, k)
    ensures CrowdReached(policy, offer, running + 1, loaded - 1, waiting, k)
  {
    var saw := Fetch(offer, Loaded(policy.maxConcurrent - 1));
    var front := Copies(running, Fetch(offer, Running));
    var rest := Copies(loaded - 1, saw) + Copies(waiting, Fetch(offer, Arrived));
    CopiesFront(loaded, saw);
    assert Crowd(policy, offer, running, loaded, waiting) == front + [saw] + rest;
    Proceeds(policy, front, offer, policy.maxConcurrent - 1, rest, running, k);
    assert Crowd(policy, offer, running + 1, loaded - 1, waiting) == front + [Fetch(offer, Running)] + rest;
  }

  /** A waiting offer goes all the way while no other handler is about. */
  lemma {:induction false} OneGoes(policy: Policy, offer: Offer, running: nat, waiting: nat, k: nat)
    requires k >= 1 && running < policy.maxConcurrent && offer.size == 0 && Eligible(policy, offer) && waiting > 0
    requires CrowdReached(policy, offer, running, 0, waiting, k)
    ensures CrowdReached(policy, offer, running + 1, 0, waiting - 1, k)
  {
    var front, rest := Copies(running, Fetch(offer, Running)), Copies(waiting - 1, Fetch(offer, Arrived));
    CopiesFront(waiting, Fetch(offer, Arrived));
    CrowdStarts(policy, offer, running, waiting);
    MovedInside(front, Fetch(offer, Arrived), rest, Loaded(running));
    CrowdHandlers(policy, offer, running, 0, waiting);
    ReachNext(policy, State(running, 0, front + [Fetch(offer, Arrived)] + rest), Load(running), k);
    Proceeds(policy, front, offer, running, rest, running, k);
    CrowdGoes(policy, offer, running, waiting - 1);
  }

  lemma {:induction false} CrowdStarts(policy: Policy, offer: Offer, running: nat, waiting: nat)
    requires policy.maxConcurrent >= 1 && waiting > 0
    ensures Crowd(policy, offer, running, 0, waiting) ==
            Copies(running, Fetch(offer, Running)) + [Fetch(offer, Arrived)] +
            Copies(waiting - 1, Fetch(offer, Arrived))
  {
    CrowdWaits(policy, offer, running, 0, waiting);
    assert Copies(running, Fetch(offer, Running)) + [] == Copies(running, Fetch(offer, Running));
  }

  lemma {:induction false} CrowdGoes(policy: Policy, offer: Offer, running: nat, waiting: nat)
    requires policy.maxConcurrent >= 1
    ensures Crowd(policy, offer, running + 1, 0, waiting) ==
            Copies(running, Fetch(offer, Running)) + [Fetch(offer, Running)] + Copies(waiting, Fetch(offer, Arrived))
  {
    var more := Copies(running + 1, Fetch(offer, Running));
    assert more + [] == more;
  }

  lemma {:induction false} AllWait(policy: Policy, offer: Offer, n: nat, k: nat)
    requires policy.maxConcurrent >= 1
    ensures CrowdReached(policy, offer, 0, 0, n, k)
  {
    if n == 0 {
      assert CanRun(policy, [], k) && Run(policy, [], k) == State(0, 0, []);
    } else {
      AllWait(policy, offer, n - 1, k);
      OneWaits(policy, offer, n - 1, k);
    }
  }

  lemma {:induction false} FirstGo(policy: Policy, offer: Offer, running: nat, waiting: nat, k: nat)
    requires k >= 1 && running < policy.maxConcurrent && offer.size == 0 && Eligible(policy, offer)
    ensures CrowdReached(policy, offer, running, 0, waiting, k)
  {
    if running == 0 {
      AllWait(policy, offer, waiting, k);
    } else {
      FirstGo(policy, offer, running - 1, waiting + 1, k);
      OneGoes(policy, offer, running - 1, waiting + 1, k);
    }
  }

  lemma {:induction false} AllLoad(policy: Policy, offer: Offer, loaded: nat, waiting: nat, k: nat)
    requires k >= 1 && policy.maxConcurrent >= 1 && offer.size == 0 && Eligible(policy, offer) && loaded <= k
    ensures CrowdReached(policy, offer, policy.maxConcurrent - 1, loaded, waiting, k)
  {
    if loaded == 0 {
      FirstGo(policy, offer, policy.maxConcurrent - 1, waiting, k);
    } else {
      AllLoad(policy, offer, loaded - 1, waiting + 1, k);
      OneLoads(policy, offer, loaded - 1, waiting + 1, k);
    }
  }

  lemma {:induction false} LastRun(policy: Policy, offer: Offer, extra: nat, k: nat)
    requires k >= 1 && policy.maxConcurrent >= 1 && offer.size == 0 && Eligible(policy, offer) && extra <= k
    ensures CrowdReached(policy, offer, policy.maxConcurrent - 1 + extra, k - extra, 0, k)
  {
    if extra == 0 {
      AllLoad(policy, offer, k, 0, k);
    } else {
      LastRun(policy, offer, extra - 1, k);
      OneRuns(policy, offer, policy.maxConcurrent - 1 + extra - 1, k - extra + 1, 0, k);
    }
  }

  /** With `k` handlers at once the limit on concurrent fetches can be exceeded
      by `k` - 1, so it is kept exactly when handlers never overlap. */
  lemma {:induction false} LimitIsKeptOnlyAlone(policy: Policy, offer: Offer, k: nat)
    requires k >= 1 && policy.maxConcurrent >= 1 && offer.size == 0 && Eligible(policy, offer)
    ensures exists s :: Reaches(policy, s, k) && s.active == policy.maxConcurrent + k - 1
    ensures (forall s :: Reaches(policy, s, k) ==> s.active <= policy.maxConcurrent) <==> k == 1
  {
    LastRun(policy, offer, k, k);
    var full := State(policy.maxConcurrent + k - 1, 0, Crowd(policy, offer, policy.maxConcurrent + k - 1, 0, 0));
    assert Reaches(policy, full, k);
    if k == 1 {
      forall s | Reaches(policy, s, k)
        ensures s.active <= policy.maxConcurrent
      {
        var steps :| CanRun(policy, steps, k) && Run(policy, steps, k) == s;
        SlotLimitHolds(policy, steps, k);
      }
    }
  }

  // ----- The byte bound is reached -----

  ghost predicate AllSucceeded(done: seq<Fetch>) {
    forall i :: 0 <= i < |done| ==> done[i].phase.Succeeded?
  }

  /** `amount` bytes can be spent on fetches that have all succeeded. */
  ghost predicate CanSpend(policy: Policy, done: seq<Fetch>, amount: nat, k: nat) {
    AllSucceeded(done) && Sum(policy, done, Bytes) == amount && Reaches(policy, State(0, amount, done), k)
  }

  lemma {:induction false} NoHandlers(policy: Policy, done: seq<Fetch>)
    requires AllSucceeded(done)
    ensures Sum(policy, done, Handlers) == 0
  {
    if done != [] {
      forall i | 0 <= i < |done[1..]|
        ensures done[1..][i].phase.Succeeded?
      {
        assert done[1..][i] == done[i + 1];
      }
      NoHandlers(policy, done[1..]);
    }
  }

  /** One offer, alone, from its arrival to its check. */
  lemma {:induction false} ComesToCheck(policy: Policy, done: seq<Fetch>, bytes: nat, offer: Offer, k: nat)
    requires k >= 1 && policy.maxConcurrent >= 1 && Eligible(policy, offer) && AllSucceeded(done)
    requires bytes <= MAX_U64 && SaturatingAdd(bytes, offer.size) <= policy.maxTotalBytes
    requires Reaches(policy, State(0, bytes, done), k)
    ensures Reaches(policy, State(0, bytes, done + [Fetch(offer, Approved)]), k)
  {
    NoHandlers(policy, done);
    SumPush(policy, done, Fetch(offer, Arrived), Handlers);
    ReachNext(policy, State(0, bytes, done), Arrive(offer), k);
    PushMoved(done, Fetch(offer, Arrived), Loaded(0));
    ReachNext(policy, State(0, bytes, done + [Fetch(offer, Arrived)]), Load(|done|), k);
    PushMoved(done, Fetch(offer, Loaded(0)), Approved);
    ReachNext(policy, State(0, bytes, done + [Fetch(offer, Loaded(0))]), Check(|done|), k);
  }

  lemma {:induction false} PushMoved(done: seq<Fetch>, f: Fetch, phase: Phase)
    ensures Moved(done + [f], |done|, phase) == done + [f.(phase := phase)]
  {
  }

  lemma {:induction false} Reserves(policy: Policy, done: seq<Fetch>, bytes: nat, offer: Offer, k: nat)
    requires Reaches(policy, State(0, bytes, done + [Fetch(offer, Approved)]), k)
    ensures Reaches(policy, State(0, Word(bytes + offer.size), done + [Fetch(offer, BytesReserved)]), k)
  {
    PushMoved(done, Fetch(offer, Approved), BytesReserved);
    ReachNext(policy, State(0, bytes, done + [Fetch(offer, Approved)]), ReserveBytes(|done|), k);
  }

  lemma {:induction false} Succeeds(policy: Policy, done: seq<Fetch>, bytes: int, offer: Offer, k: nat)
    requires Reaches(policy, State(0, bytes, done + [Fetch(offer, BytesReserved)]), k)
    ensures Reaches(policy, State(0, bytes, done + [Fetch(offer, Succeeded)]), k)
  {
    PushMoved(done, Fetch(offer, BytesReserved), Running);
    ReachNext(policy, State(0, bytes, done + [Fetch(offer, BytesReserved)]), ReserveSlot(|done|), k);
    PushMoved(done, Fetch(offer, Running), Finishing(true));
    ReachNext(policy, State(1, bytes, done + [Fetch(offer, Running)]), Finish(|done|, true), k);
    PushMoved(done, Fetch(offer, Finishing(true)), Succeeded);
    ReachNext(policy, State(1, bytes, done + [Fetch(offer, Finishing(true))]), Release(|done|), k);
  }

  /** One fetch more succeeds. */
  lemma {:induction false} SpendMore(policy: Policy, done: seq<Fetch>, amount: nat, offer: Offer, k: nat)
    requires k >= 1 && policy.maxConcurrent >= 1 && Eligible(policy, offer)
    requires CanSpend(policy, done, amount, k) && amount + offer.size <= policy.maxTotalBytes
    ensures CanSpend(policy, done + [Fetch(offer, Succeeded)], amount + offer.size, k)
  {
    ComesToCheck(policy, done, amount, offer, k);
    Reserves(policy, done, amount, offer, k);
    WordFits(amount + offer.size);
    Succeeds(policy, done, amount + offer.size, offer, k);
    SumPush(policy, done, Fetch(offer, Succeeded), Bytes);
  }

  /** Any amount within the budget can be spent. */
  lemma {:induction false} SpendAny(policy: Policy, media: Option<string>, amount: nat, k: nat)
                                    returns (done: seq<Fetch>)
    requires k >= 1 && policy.maxConcurrent >= 1 && Accepts(policy, media) && Largest(policy) >= 1
    requires amount <= policy.maxTotalBytes
    ensures CanSpend(policy, done, amount, k)
    decreases amount
  {
    if amount == 0 {
      done := [];
      assert CanRun(policy, [], k) && Run(policy, [], k) == State(0, 0, []);
    } else {
      var size := Min(amount, Largest(policy));
      done := SpendAny(policy, media, amount - size, k);
      SpendMore(policy, done, amount - size, Offer(size, media), k);
      done := done + [Fetch(Offer(size, media), Succeeded)];
    }
  }

  // ----- `k` handlers at once, on the last of the budget -----

  /** After what was spent: `moved` handlers a phase ahead of the `rest`. */
  function Rush(done: seq<Fetch>, offer: Offer, ahead: Phase, moved: nat, behind: Phase, rest: nat): seq<Fetch> {
    done + Copies(moved, Fetch(offer, ahead)) + Copies(rest, Fetch(offer, behind))
  }

  lemma {:induction false} RushMoves(done: seq<Fetch>, offer: Offer, ahead: Phase, moved: nat, behind: Phase, rest: nat)
    requires rest > 0
    ensures var i, rush := |done| + moved, Rush(done, offer, ahead, moved, behind, rest);
            && i < |rush| && rush[i] == Fetch(offer, behind)
            && Moved(rush, i, ahead) == Rush(done, offer, ahead, moved + 1, behind, rest - 1)
  {
    var front, tail := done + Copies(moved, Fetch(offer, ahead)), Copies(rest - 1, Fetch(offer, behind));
    CopiesFront(rest, Fetch(offer, behind));
    Regroup(front, [Fetch(offer, behind)], tail);
    MovedInside(front, Fetch(offer, behind), tail, ahead);
    Regroup(done, Copies(moved, Fetch(offer, ahead)), [Fetch(offer, ahead)]);
  }

  /** When all have moved, all are behind the next phase. */
  lemma {:induction false} RushTurns(done: seq<Fetch>, offer: Offer, at: Phase, n: nat, behind: Phase, next: Phase)
    ensures Rush(done, offer, at, n, behind, 0) == Rush(done, offer, next, 0, at, n)
  {
    assert done + [] == done;
  }

  lemma {:induction false} RushSum(policy: Policy, done: seq<Fetch>, offer: Offer, ahead: Phase, moved: nat,
                                   behind: Phase, rest: nat, m: Measure)
    ensures Sum(policy, Rush(done, offer, ahead, moved, behind, rest), m) == Sum(policy, done, m) +
            Times(moved, Weight(policy, Fetch(offer, ahead), m)) + Times(rest, Weight(policy, Fetch(offer, behind), m))
  {
    SumConcat(policy, done + Copies(moved, Fetch(offer, ahead)), Copies(rest, Fetch(offer, behind)), m);
    SumConcat(policy, done, Copies(moved, Fetch(offer, ahead)), m);
    SumCopies(policy, moved, Fetch(offer, ahead), m);
    SumCopies(policy, rest, Fetch(offer, behind), m);
  }

  lemma {:induction false} RushArrives(policy: Policy, done: seq<Fetch>, bytes: nat, offer: Offer, n: nat, k: nat)
    requires Reaches(policy, State(0, bytes, done), k)
    ensures Reaches(policy, State(0, bytes, Rush(done, offer, Loaded(0), 0, Arrived, n)), k)
  {
    if n == 0 {
      assert Rush(done, offer, Loaded(0), 0, Arrived, 0) == done;
    } else {
      RushArrives(policy, done, bytes, offer, n - 1, k);
      ReachNext(policy, State(0, bytes, Rush(done, offer, Loaded(0), 0, Arrived, n - 1)), Arrive(offer), k);
      Regroup(done + [], Copies(n - 1, Fetch(offer, Arrived)), [Fetch(offer, Arrived)]);
    }
  }

  lemma {:induction false} RushLoads(policy: Policy, done: seq<Fetch>, bytes: nat, offer: Offer, moved: nat,
                                     rest: nat, k: nat)
    requires AllSucceeded(done) && moved + rest <= k && Reaches(policy, State(0, bytes, done), k)
    ensures Reaches(policy, State(0, bytes, Rush(done, offer, Loaded(0), moved, Arrived, rest)), k)
  {
    if moved == 0 {
      RushArrives(policy, done, bytes, offer, rest, k);
    } else {
      RushLoads(policy, done, bytes, offer, moved - 1, rest + 1, k);
      RushHandlers(policy, done, offer, moved - 1, rest + 1);
      RushMoves(done, offer, Loaded(0), moved - 1, Arrived, rest + 1);
      LoadsOne(policy, bytes, Rush(done, offer, Loaded(0), moved - 1, Arrived, rest + 1), |done| + moved - 1, offer, k);
    }
  }

  lemma {:induction false} RushHandlers(policy: Policy, done: seq<Fetch>, offer: Offer, moved: nat, rest: nat)
    requires AllSucceeded(done)
    ensures Sum(policy, Rush(done, offer, Loaded(0), moved, Arrived, rest), Handlers) == moved
  {
    NoHandlers(policy, done);
    RushSum(policy, done, offer, Loaded(0), moved, Arrived, rest, Handlers);
  }

  lemma {:induction false} LoadsOne(policy: Policy, bytes: nat, fetches: seq<Fetch>, i: nat, offer: Offer, k: nat)
    requires i < |fetches| && fetches[i] == Fetch(offer, Arrived) && Reaches(policy, State(0, bytes, fetches), k)
    requires Sum(policy, fetches, Handlers) < k
    ensures Reaches(policy, State(0, bytes, Moved(fetches, i, Loaded(0))), k)
  {
    ReachNext(policy, State(0, bytes, fetches), Load(i), k);
  }

  lemma {:induction false} RushChecks(policy: Policy, done: seq<Fetch>, bytes: nat, offer: Offer, moved: nat,
                                      rest: nat, k: nat)
    requires AllSucceeded(done) && moved + rest <= k && Reaches(policy, State(0, bytes, done), k)
    requires policy.maxConcurrent >= 1 && Eligible(policy, offer) && bytes + offer.size <= policy.maxTotalBytes
    ensures Reaches(policy, State(0, bytes, Rush(done, offer, Approved, moved, Loaded(0), rest)), k)
  {
    if moved == 0 {
      RushLoads(policy, done, bytes, offer, rest, 0, k);
      RushTurns(done, offer, Loaded(0), rest, Arrived, Approved);
    } else {
      RushChecks(policy, done, bytes, offer, moved - 1, rest + 1, k);
      RushMoves(done, offer, Approved, moved - 1, Loaded(0), rest + 1);
      CheckPasses(policy, bytes, Rush(done, offer, Approved, moved - 1, Loaded(0), rest + 1), |done| + moved - 1,
          offer, k);
    }
  }

  lemma {:induction false} CheckPasses(policy: Policy, bytes: nat, fetches: seq<Fetch>, i: nat, offer: Offer, k: nat)
    requires i < |fetches| && fetches[i] == Fetch(offer, Loaded(0)) && Reaches(policy, State(0, bytes, fetches), k)
    requires policy.maxConcurrent >= 1 && Eligible(policy, offer) && bytes + offer.size <= policy.maxTotalBytes
    ensures Reaches(policy, State(0, bytes, Moved(fetches, i, Approved)), k)
  {
    ReachNext(policy, State(0, bytes, fetches), Check(i), k);
  }

  lemma {:induction false} RushReserves(policy: Policy, done: seq<Fetch>, bytes: nat, offer: Offer, moved: nat,
                                        rest: nat, k: nat)
    requires AllSucceeded(done) && moved + rest <= k && Reaches(policy, State(0, bytes, done), k)
    requires policy.maxConcurrent >= 1 && Eligible(policy, offer) && bytes + offer.size <= policy.maxTotalBytes
    ensures exists held :: Reaches(policy, State(0, held, Rush(done, offer, BytesReserved, moved, Approved, rest)), k)
  {
    if moved == 0 {
      RushChecks(policy, done, bytes, offer, rest, 0, k);
      RushTurns(done, offer, Approved, rest, Loaded(0), BytesReserved);
    } else {
      RushReserves(policy, done, bytes, offer, moved - 1, rest + 1, k);
      var held :| Reaches(policy, State(0, held, Rush(done, offer, BytesReserved, moved - 1, Approved, rest + 1)), k);
      RushMoves(done, offer, BytesReserved, moved - 1, Approved, rest + 1);
      ReachNext(policy, State(0, held, Rush(done, offer, BytesReserved, moved - 1, Approved, rest + 1)),
                ReserveBytes(|done| + moved - 1), k);
      var now := Rush(done, offer, BytesReserved, moved, Approved, rest);
      assert Reaches(policy, State(0, Word(held + offer.size), now), k);
    }
  }

  /** Some run reserves exactly as many bytes as the bound allows. */
  lemma {:induction false} ByteBoundIsReached(policy: Policy, media: Option<string>, k: nat)
    requires k >= 1 && policy.maxConcurrent >= 1 && Accepts(policy, media) && Largest(policy) >= 1
    ensures exists s :: Reaches(policy, s, k) && Sum(policy, s.fetches, Bytes) == ByteBound(policy, k)
  {
    var size := Largest(policy);
    var offer, spent := Offer(size, media), policy.maxTotalBytes - size;
    var done := SpendAny(policy, media, spent, k);
    RushReserves(policy, done, spent, offer, k, 0, k);
    var rush := Rush(done, offer, BytesReserved, k, Approved, 0);
    var held :| Reaches(policy, State(0, held, rush), k);
    RushSum(policy, done, offer, BytesReserved, k, Approved, 0, Bytes);
    TimesNext(k - 1, size);
    Product(0, 0, Weight(policy, Fetch(offer, Approved), Bytes));
    assert Times(0, Weight(policy, Fetch(offer, Approved), Bytes)) == 0;
    assert Sum(policy, State(0, held, rush).fetches, Bytes) == ByteBound(policy, k);
  }

  /** Where handlers overlap, some run goes over the budget. */
  lemma {:induction false} BudgetIsExceeded(policy: Policy, media: Option<string>, k: nat)
    requires k > 1 && policy.maxConcurrent >= 1 && Accepts(policy, media) && Largest(policy) >= 1 && Counts(policy, k)
    ensures exists s :: Reaches(policy, s, k) && s.bytes > policy.maxTotalBytes
  {
    ByteBoundIsReached(policy, media, k);
    var full :| Reaches(policy, full, k) && Sum(policy, full.fetches, Bytes) == ByteBound(policy, k);
    var run :| CanRun(policy, run, k) && Run(policy, run, k) == full;
    RunKeepsBytes(policy, run, k);
    BoundIsOver(policy, k);
  }

  lemma {:induction false} BoundIsOver(policy: Policy, k: nat)
    requires k > 1 && Largest(policy) >= 1
    ensures ByteBound(policy, k) > policy.maxTotalBytes
  {
    TimesNext(k - 2, Largest(policy));
    Product(0, k - 2, Largest(policy));
  }

  /** The byte budget is kept in every run exactly when handlers never overlap. */
  lemma {:induction false} BudgetIsKeptOnlyAlone(policy: Policy, media: Option<string>, k: nat)
    requires k >= 1 && policy.maxConcurrent >= 1 && Accepts(policy, media) && Largest(policy) >= 1 && Counts(policy, k)
    ensures (forall s :: Reaches(policy, s, k) ==> s.bytes <= policy.maxTotalBytes) <==> k == 1
  {
    if k > 1 {
      BudgetIsExceeded(policy, media, k);
    } else {
      forall s | Reaches(policy, s, k)
        ensures s.bytes <= policy.maxTotalBytes
      {
        var steps :| CanRun(policy, steps, k) && Run(policy, steps, k) == s;
        AloneLimitsAreExact(policy, steps);
      }
    }
  }

  /** More was reserved than a word holds, and the counter has begun again. */
  ghost predicate HasWrapped(policy: Policy, s: State) {
    Sum(policy, s.fetches, Bytes) == MAX_U64 + Largest(policy) && s.bytes == Largest(policy) - 1
  }

  /** With the largest budget there is, which the saturating sum never exceeds,
      even one handler at a time wraps the counter. */
  lemma {:induction false} UnlimitedBudgetWraps(policy: Policy, media: Option<string>, k: nat)
    requires k >= 1 && policy.maxConcurrent >= 1 && Accepts(policy, media) && Largest(policy) >= 1
    requires policy.maxTotalBytes == MAX_U64
    ensures exists s :: Reaches(policy, s, k) && HasWrapped(policy, s)
  {
    var offer := Offer(Largest(policy), media);
    var done := SpendAny(policy, media, MAX_U64, k);
    ComesToCheck(policy, done, MAX_U64, offer, k);
    Reserves(policy, done, MAX_U64, offer, k);
    SumPush(policy, done, Fetch(offer, BytesReserved), Bytes);
    assert Word(MAX_U64 + offer.size) == offer.size - 1;
    var s := State(0, Word(MAX_U64 + offer.size), done + [Fetch(offer, BytesReserved)]);
    assert Reaches(policy, s, k) && HasWrapped(policy, s);
  }

  /** The byte counter is exact in every run if and only if the budget is below
      the largest word and the bound fits one. */
  lemma {:induction false} BytesCountExactly(policy: Policy, media: Option<string>, k: nat)
    requires k >= 1 && policy.maxConcurrent >= 1 && Accepts(policy, media) && Largest(policy) >= 1
    ensures (forall s :: Reaches(policy, s, k) ==> s.bytes == Sum(policy, s.fetches, Bytes)) <==> Counts(policy, k)
  {
    if Counts(policy, k) {
      forall s | Reaches(policy, s, k)
        ensures s.bytes == Sum(policy, s.fetches, Bytes)
      {
        var steps :| CanRun(policy, steps, k) && Run(policy, steps, k) == s;
        RunKeepsBytes(policy, steps, k);
      }
    } else {
      var s := Overcounted(policy, media, k);
      var steps :| CanRun(policy, steps, k) && Run(policy, steps, k) == s;
      RunKeepsSlots(policy, steps, k);
    }
  }

  lemma {:induction false} Overcounted(policy: Policy, media: Option<string>, k: nat) returns (s: State)
    requires k >= 1 && policy.maxConcurrent >= 1 && Accepts(policy, media) && Largest(policy) >= 1 && !Counts(policy, k)
    ensures Reaches(policy, s, k) && Sum(policy, s.fetches, Bytes) > MAX_U64
  {
    if policy.maxTotalBytes == MAX_U64 {
      UnlimitedBudgetWraps(policy, media, k);
      s :| Reaches(policy, s, k) && HasWrapped(policy, s);
    } else {
      ByteBoundIsReached(policy, media, k);
      s :| Reaches(policy, s, k) && Sum(policy, s.fetches, Bytes) == ByteBound(policy, k);
    }
  }
}
