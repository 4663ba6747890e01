/** Asking a person before fetching: who is asked, whose answer counts, and why
    silence is never consent. */
module Consent {
  import opened Common

  type Token = nat
  type Channel = nat
  type AskId = nat

  /** The flow whose oneshot sender waits under an ask id. */
  type Asker = nat

  /** A client answers with `accept: true`, with anything else, or with an error. */
  datatype Answer = Yes | No | Error

  datatype Ui = Ui(token: Token, channel: Channel)

  /** The router's tables, as a value. */
  datatype Router = Router(nextId: AskId, pending: map<AskId, Asker>, uis: seq<Ui>, nextUi: Token)

  const EMPTY := Router(1, map[], [], 1)

  // ----- The router's operations, on values -----

  function Pushed(r: Router, token: Token, channel: Channel): Router {
    r.(uis := r.uis + [Ui(token, channel)])
  }

  function Others(uis: seq<Ui>, token: Token): seq<Ui> {
    if uis == [] then []
    else
      var front, last := uis[..|uis| - 1], uis[|uis| - 1];
      if last.token != token then Others(front, token) + [last] else Others(front, token)
  }

  function Open(uis: seq<Ui>, closed: set<Channel>): seq<Ui> {
    if uis == [] then []
    else
      var front, last := uis[..|uis| - 1], uis[|uis| - 1];
      if last.channel !in closed then Open(front, closed) + [last] else Open(front, closed)
  }

  /** The channel asked: the most recently registered that is not closed. */
  function Target(uis: seq<Ui>, closed: set<Channel>): Option<Channel> {
    if uis == [] then None
    else if uis[|uis| - 1].channel !in closed then Some(uis[|uis| - 1].channel)
    else Target(uis[..|uis| - 1], closed)
  }

  class AskRouter {
    var nextId: AskId
    var pending: map<AskId, Asker>
    var uis: seq<Ui>
    var nextUi: Token

    ghost function Value(): Router
      reads this
    {
      Router(nextId, pending, uis, nextUi)
    }

    constructor ()
      ensures Value() == EMPTY
    {
      nextId, pending, uis, nextUi := 1, map[], [], 1;
    }

    /** A token is taken first; only then is the list locked. */
    method TakeToken() returns (token: Token)
      modifies this`nextUi
      ensures token == old(nextUi) && nextUi == token + 1
    {
      token := nextUi;
      nextUi := nextUi + 1;
    }

    method PushUi(token: Token, channel: Channel)
      modifies this`uis
      ensures Value() == Pushed(old(Value()), token, channel)
    {
      uis := uis + [Ui(token, channel)];
    }

    /** Both at once, with no other registration in between. */
    method RegisterUi(channel: Channel) returns (token: Token)
      modifies this
      ensures token == old(nextUi)
      ensures Value() == Pushed(old(Value()).(nextUi := token + 1), token, channel)
    {
      token := TakeToken();
      PushUi(token, channel);
    }

    method UnregisterUi(token: Token)
      modifies this`uis
      ensures uis == Others(old(uis), token)
    {
      var kept: seq<Ui> := [];
      var i := 0;
      while i < |uis|
        invariant i <= |uis|
        invariant kept == Others(uis[..i], token)
      {
        assert uis[..i + 1][..i] == uis[..i];
        if uis[i].token != token {
          kept := kept + [uis[i]];
        }
        i := i + 1;
      }
      assert uis[..i] == uis;
      uis := kept;
    }

    method ForgetClosed(closed: set<Channel>)
      modifies this`uis
      ensures uis == Open(old(uis), closed)
      ensures forall ui :: ui in uis <==> ui in old(uis) && ui.channel !in closed
    {
      var kept: seq<Ui> := [];
      var i := 0;
      while i < |uis|
        invariant i <= |uis|
        invariant kept == Open(uis[..i], closed)
      {
        assert uis[..i + 1][..i] == uis[..i];
        if uis[i].channel !in closed {
          kept := kept + [uis[i]];
        }
        i := i + 1;
      }
      assert uis[..i] == uis;
      OpenHold(uis, closed);
      uis := kept;
    }

    /** Is there a UI that could be asked right now? */
    method HasLiveUi(closed: set<Channel>) returns (live: bool)
      ensures live <==> exists ui :: ui in uis && ui.channel !in closed
    {
      var i := 0;
      while i < |uis|
        invariant i <= |uis|
        invariant forall j :: 0 <= j < i ==> uis[j].channel in closed
      {
        if uis[i].channel !in closed {
          return true;
        }
        i := i + 1;
      }
      live := false;
    }

    /** The newest open UI. */
    method ChooseTarget(closed: set<Channel>) returns (target: Option<Channel>)
      ensures target == Target(uis, closed)
    {
      var i := |uis|;
      assert uis[..i] == uis;
      while i > 0
        invariant i <= |uis|
        invariant Target(uis, closed) == Target(uis[..i], closed)
      {
        assert uis[..i][..i - 1] == uis[..i - 1];
        i := i - 1;
        if uis[i].channel !in closed {
          return Some(uis[i].channel);
        }
      }
      target := None;
    }

    /** Number a question; every question has an id of its own. */
    method NextId() returns (id: AskId)
      modifies this`nextId
      ensures id == old(nextId) && nextId == id + 1
    {
      id := nextId;
      nextId := nextId + 1;
    }

    method Post(id: AskId, asker: Asker)
      modifies this`pending
      ensures pending == old(pending)[id := asker]
    {
      pending := pending[id := asker];
    }

    method Withdraw(id: AskId)
      modifies this`pending
      ensures pending == old(pending) - {id}
    {
      pending := pending - {id};
    }

    /** Whom an answer goes to: the asker waiting under the id, who waits there
        no longer. An id nobody waits under changes nothing. */
    method TakeAsker(id: AskId) returns (asker: Option<Asker>)
      modifies this`pending
      ensures asker == if id in old(pending) then Some(old(pending)[id]) else None
      ensures pending == old(pending) - {id}
    {
      if id in pending {
        asker := Some(pending[id]);
        pending := pending - {id};
      } else {
        asker := None;
        assert pending - {id} == pending;
      }
    }
  }

  /** One question from beginning to end, with nothing in between but the
      outside: the channel asked may turn out gone, and an answer may be in the
      slot before the time is up. Nothing of the question is left behind, and
      only an answer is passed on. */
  method Ask(router: AskRouter, asker: Asker, closed: set<Channel>, gone: bool, slot: Option<Answer>)
             returns (answer: Option<Answer>)
    requires router.nextId !in router.pending
    modifies router
    ensures router.Value() ==
            old(router.Value()).(nextId := old(router.nextId) + 1, uis := Open(old(router.uis), closed))
    ensures answer == Some(Yes) <==> Target(old(router.uis), closed).Some? && !gone && slot == Some(Yes)
    ensures answer != Some(Error)
  {
    ForgettingAsksTheSame(router.uis, closed);
    router.ForgetClosed(closed);
    var id := router.NextId();
    var target := router.ChooseTarget(closed);
    if target.None? {
      return None;
    }
    router.Post(id, asker);
    if gone {
      router.Withdraw(id);
      return None;
    }
    if slot.None? {
      router.Withdraw(id);
      return None;
    }
    var taken := router.TakeAsker(id);
    answer := if slot.value.Error? then None else slot;
  }

  // ----- Who is asked -----

  lemma {:induction false} OpenHold(uis: seq<Ui>, closed: set<Channel>)
    ensures forall ui :: ui in Open(uis, closed) <==> ui in uis && ui.channel !in closed
  {
    if uis != [] {
      OpenHold(uis[..|uis| - 1], closed);
      SplitLast(uis);
    }
  }

  /** The one asked is open and registered after every other open one; nobody
      is asked only if all are closed. */
  lemma {:induction false} NewestIsAsked(uis: seq<Ui>, closed: set<Channel>)
    ensures Target(uis, closed).None? <==> forall i :: 0 <= i < |uis| ==> uis[i].channel in closed
    ensures Target(uis, closed).Some? ==>
              exists i :: 0 <= i < |uis| && uis[i].channel == Target(uis, closed).value && uis[i].channel !in closed &&
                          forall j :: i < j < |uis| ==> uis[j].channel in closed
  {
    if uis != [] && uis[|uis| - 1].channel in closed {
      var front := uis[..|uis| - 1];
      NewestIsAsked(front, closed);
      assert forall i :: 0 <= i < |front| ==> front[i] == uis[i];
      if Target(uis, closed).Some? {
        var i :| 0 <= i < |front| && front[i].channel == Target(front, closed).value && front[i].channel !in closed &&
                 forall j :: i < j < |front| ==> front[j].channel in closed;
        assert uis[i].channel == Target(uis, closed).value;
      }
    }
  }

  /** Forgetting the closed changes nothing about who is asked. */
  lemma {:induction false} ForgettingAsksTheSame(uis: seq<Ui>, closed: set<Channel>)
    ensures Target(Open(uis, closed), closed) == Target(uis, closed)
  {
    if uis != [] {
      var front, last := uis[..|uis| - 1], uis[|uis| - 1];
      ForgettingAsksTheSame(front, closed);
    }
  }

  // ----- The consent flows of many offers, interleaved -----

  /** Where one offer's flow stands. Until it is posted nobody can answer it;
      once expired or unsent, whatever arrives is dropped. */
  datatype Phase =
    | Offered
    | Asking
    | Numbered(id: AskId)
    | Chosen(id: AskId, target: Channel)
    | Posted(id: AskId, target: Channel)
    | Waiting(id: AskId)
    | Expired(id: AskId)
    | Unsent(id: AskId)
    | Fetched
    | Declined

  /** A flow and the oneshot slot its answer arrives in. */
  datatype Flow = Flow(phase: Phase, slot: Option<Answer>)

  /** `taken` are the tokens of registrations that have yet to reach the list. */
  datatype State = State(router: Router, taken: set<Token>, closed: set<Channel>, flows: seq<Flow>)

  const START := State(EMPTY, {}, {}, [])

  datatype Step =
    | Take
    | Push(token: Token, channel: Channel)
    | Unregister(token: Token)
    | Close(channel: Channel)
    | ForgetClosed
    | Reply(id: AskId, answer: Answer)
    | Offer
    | Check(i: Asker)
    | Number(i: Asker)
    | Choose(i: Asker)
    | Post(i: Asker)
    | Send(i: Asker)
    | Receive(i: Asker)
    | Expire(i: Asker)
    | GiveUp(i: Asker)

  ghost predicate HasLive(s: State) {
    exists ui :: ui in s.router.uis && ui.channel !in s.closed
  }

  /** A flow's own steps come in the order of the code; the timer is polled
      after the slot, so only an empty slot expires. */
  predicate Enabled(s: State, step: Step) {
    match step
    case Take => true
    case Push(token, _) => token in s.taken
    case Unregister(_) => true
    case Close(_) => true
    case ForgetClosed => true
    case Reply(_, _) => true
    case Offer => true
    case Check(i) => i < |s.flows| && s.flows[i].phase.Offered?
    case Number(i) => i < |s.flows| && s.flows[i].phase.Asking?
    case Choose(i) => i < |s.flows| && s.flows[i].phase.Numbered?
    case Post(i) => i < |s.flows| && s.flows[i].phase.Chosen?
    case Send(i) => i < |s.flows| && s.flows[i].phase.Posted?
    case Receive(i) => i < |s.flows| && s.flows[i].phase.Waiting? && s.flows[i].slot.Some?
    case Expire(i) => i < |s.flows| && s.flows[i].phase.Waiting? && s.flows[i].slot.None?
    case GiveUp(i) => i < |s.flows| && (s.flows[i].phase.Expired? || s.flows[i].phase.Unsent?)
  }

  function Moved(flows: seq<Flow>, i: Asker, phase: Phase): seq<Flow>
    requires i < |flows|
  {
    flows[i := flows[i].(phase := phase)]
  }

  /** The answer reaches the slot of the flow waiting under the id, which waits
      there no longer. */
  ghost function Replied(s: State, id: AskId, answer: Answer): State {
    if id in s.router.pending && s.router.pending[id] < |s.flows| then
      var i := s.router.pending[id];
      s.(router := s.router.(pending := s.router.pending - {id}),
          flows := s.flows[i := s.flows[i].(slot := Some(answer))])
    else s
  }

  ghost function Next(s: State, step: Step, autoAccept: bool): State
    requires Enabled(s, step)
  {
    var r := s.router;
    match step
    case Take => s.(router := r.(nextUi := r.nextUi + 1), taken := s.taken + {r.nextUi})
    case Push(token, channel) => s.(router := Pushed(r, token, channel), taken := s.taken - {token})
    case Unregister(token) => s.(router := r.(uis := Others(r.uis, token)))
    case Close(channel) => s.(closed := s.closed + {channel})
    case ForgetClosed => s.(router := r.(uis := Open(r.uis, s.closed)))
    case Reply(id, answer) => Replied(s, id, answer)
    case Offer => s.(flows := s.flows + [Flow(Offered, None)])
    case Check(i) => s.(flows := Moved(s.flows, i, if autoAccept && !HasLive(s) then Fetched else Asking))
    case Number(i) => s.(router := r.(nextId := r.nextId + 1), flows := Moved(s.flows, i, Numbered(r.nextId)))
    case Choose(i) =>
      var target := Target(r.uis, s.closed);
      s.(flows := Moved(s.flows, i, if target.Some? then Chosen(s.flows[i].phase.id, target.value) else Declined))
    case Post(i) =>
      var asked := s.flows[i].phase;
      s.(router := r.(pending := r.pending[asked.id := i]), flows := Moved(s.flows, i, Posted(asked.id, asked.target)))
    case Send(i) =>
      var asked := s.flows[i].phase;
      s.(flows := Moved(s.flows, i, if asked.target in s.closed then Unsent(asked.id) else Waiting(asked.id)))
    case Receive(i) => s.(flows := Moved(s.flows, i, if s.flows[i].slot == Some(Yes) then Fetched else Declined))
    case Expire(i) => s.(flows := Moved(s.flows, i, Expired(s.flows[i].phase.id)))
    case GiveUp(i) =>
      s.(router := r.(pending := r.pending - {s.flows[i].phase.id}), flows := Moved(s.flows, i, Declined))
  }

  ghost predicate CanRun(steps: seq<Step>, autoAccept: bool)
    decreases |steps|, 0
  {
    steps == [] ||
    (CanRun(steps[..|steps| - 1], autoAccept) && Enabled(Run(steps[..|steps| - 1], autoAccept), steps[|steps| - 1]))
  }

  ghost function Run(steps: seq<Step>, autoAccept: bool): State
    requires CanRun(steps, autoAccept)
    decreases |steps|, 1
  {
    if steps == [] then START else Next(Run(steps[..|steps| - 1], autoAccept), steps[|steps| - 1], autoAccept)
  }

  // ----- What every interleaving keeps -----

  predicate HasId(p: Phase) {
    p.Numbered? || p.Chosen? || p.Posted? || p.Waiting? || p.Expired? || p.Unsent?
  }

  /** Is an answer to the flow's question still of use to it? */
  predicate IsOpen(p: Phase) {
    p.Posted? || p.Waiting?
  }

  /** A pending id belongs to a flow that asked under it, has no answer yet and
      is not finished. */
  ghost predicate Owns(s: State, id: AskId)
    requires id in s.router.pending
  {
    var i := s.router.pending[id];
    && i < |s.flows| && s.flows[i].slot.None?
    && (IsOpen(s.flows[i].phase) || s.flows[i].phase.Expired? || s.flows[i].phase.Unsent?)
    && s.flows[i].phase.id == id
  }

  /** An unanswered question that was posted is pending; before that it has no
      answer. */
  ghost predicate Stands(s: State, i: Asker)
    requires i < |s.flows|
  {
    var f := s.flows[i];
    && (HasId(f.phase) ==> f.phase.id < s.router.nextId)
    && (IsOpen(f.phase) && f.slot.None? ==> f.phase.id in s.router.pending && s.router.pending[f.phase.id] == i)
    && (f.phase.Offered? || f.phase.Asking? || f.phase.Numbered? || f.phase.Chosen? ==> f.slot.None?)
    && (f.phase.Numbered? || f.phase.Chosen? ==> f.phase.id !in s.router.pending)
  }

  ghost predicate IdsApart(s: State) {
    forall i, j :: 0 <= i < j < |s.flows| && HasId(s.flows[i].phase) && HasId(s.flows[j].phase) ==>
      s.flows[i].phase.id != s.flows[j].phase.id
  }

  ghost function Tokens(uis: seq<Ui>): set<Token> {
    if uis == [] then {} else Tokens(uis[..|uis| - 1]) + {uis[|uis| - 1].token}
  }

  ghost predicate TokensApart(uis: seq<Ui>) {
    uis == [] ||
    (var front, last := uis[..|uis| - 1], uis[|uis| - 1];
     last.token !in Tokens(front) && TokensApart(front))
  }

  ghost predicate AllBelow(tokens: set<Token>, next: Token) {
    forall token :: token in tokens ==> token < next
  }

  /** Every token was given out once, and is on its way or in the list. */
  ghost predicate TokensHold(s: State) {
    && TokensApart(s.router.uis) && Tokens(s.router.uis) !! s.taken
    && AllBelow(Tokens(s.router.uis), s.router.nextUi) && AllBelow(s.taken, s.router.nextUi)
  }

  lemma {:induction false} TokensPush(uis: seq<Ui>, last: Ui)
    ensures Tokens(uis + [last]) == Tokens(uis) + {last.token}
    ensures TokensApart(uis) && last.token !in Tokens(uis) ==> TokensApart(uis + [last])
  {
    assert (uis + [last])[..|uis|] == uis;
  }

  lemma {:induction false} OthersTokens(uis: seq<Ui>, token: Token)
    ensures Tokens(Others(uis, token)) == Tokens(uis) - {token}
    ensures TokensApart(uis) ==> TokensApart(Others(uis, token))
  {
    if uis != [] {
      var front, last := uis[..|uis| - 1], uis[|uis| - 1];
      OthersTokens(front, token);
      TokensPush(Others(front, token), last);
    }
  }

  lemma {:induction false} OpenTokens(uis: seq<Ui>, closed: set<Channel>)
    ensures Tokens(Open(uis, closed)) <= Tokens(uis)
    ensures TokensApart(uis) ==> TokensApart(Open(uis, closed))
  {
    if uis != [] {
      var front, last := uis[..|uis| - 1], uis[|uis| - 1];
      OpenTokens(front, closed);
      TokensPush(Open(front, closed), last);
    }
  }

  /** With tokens apart, a connection that leaves takes out itself and nobody
      else. */
  lemma {:induction false} LeavesAlone(uis: seq<Ui>, i: nat)
    requires TokensApart(uis) && i < |uis|
    ensures Others(uis, uis[i].token) == uis[..i] + uis[i + 1..]
  {
    var front, last := uis[..|uis| - 1], uis[|uis| - 1];
    if i < |front| {
      TokenListed(front, i);
      LeavesAlone(front, i);
      assert uis[..i] + uis[i + 1..] == (front[..i] + front[i + 1..]) + [last];
    } else {
      NobodyLeaves(front, last.token);
      assert uis[i + 1..] == [];
    }
  }

  lemma {:induction false} TokenListed(uis: seq<Ui>, i: nat)
    requires i < |uis|
    ensures uis[i].token in Tokens(uis)
  {
    if i < |uis| - 1 {
      TokenListed(uis[..|uis| - 1], i);
    }
  }

  lemma {:induction false} NobodyLeaves(uis: seq<Ui>, token: Token)
    requires token !in Tokens(uis)
    ensures Others(uis, token) == uis
  {
    if uis != [] {
      SplitLast(uis);
      NobodyLeaves(uis[..|uis| - 1], token);
    }
  }

  ghost predicate Inv(s: State) {
    && (forall id :: id in s.router.pending ==> id < s.router.nextId && Owns(s, id))
    && (forall i :: 0 <= i < |s.flows| ==> Stands(s, i))
    && IdsApart(s)
    && TokensHold(s)
  }

  lemma {:induction false} StepKeepsInv(s: State, step: Step, autoAccept: bool)
    requires Inv(s) && Enabled(s, step)
    ensures Inv(Next(s, step, autoAccept))
  {
    match step
    case Take => UisKeepInv(s, Next(s, step, autoAccept));
    case Push(token, channel) =>
      TokensPush(s.router.uis, Ui(token, channel));
      UisKeepInv(s, Next(s, step, autoAccept));
    case Unregister(token) =>
      OthersTokens(s.router.uis, token);
      UisKeepInv(s, Next(s, step, autoAccept));
    case ForgetClosed =>
      OpenTokens(s.router.uis, s.closed);
      UisKeepInv(s, Next(s, step, autoAccept));
    case Close(_) => UisKeepInv(s, Next(s, step, autoAccept));
    case Reply(id, answer) => ReplyKeepsInv(s, id, answer);
    case Offer => OfferKeepsInv(s, autoAccept);
    case Number(i) => NumberKeepsInv(s, i, autoAccept);
    case Post(i) => PostKeepsInv(s, i, autoAccept);
    case GiveUp(i) => GiveUpKeepsInv(s, i, autoAccept);
    case _ => MoveKeepsInv(s, Next(s, step, autoAccept), step.i);
  }

  lemma {:induction false} UisKeepInv(s: State, n: State)
    requires Inv(s) && n.flows == s.flows && n.router.pending == s.router.pending && n.router.nextId == s.router.nextId
    requires TokensHold(n)
    ensures Inv(n)
  {
    forall id | id in n.router.pending
      ensures Owns(n, id)
    {
      assert Owns(s, id);
    }
    forall i | 0 <= i < |n.flows|
      ensures Stands(n, i)
    {
      assert Stands(s, i);
    }
  }

  lemma {:induction false} OfferKeepsInv(s: State, autoAccept: bool)
    requires Inv(s)
    ensures Inv(Next(s, Offer, autoAccept))
  {
    var n := Next(s, Offer, autoAccept);
    forall id | id in s.router.pending
      ensures Owns(n, id)
    {
      assert Owns(s, id);
    }
    forall i | 0 <= i < |n.flows|
      ensures Stands(n, i)
    {
      assert i < |s.flows| ==> Stands(s, i);
    }
  }

  lemma {:induction false} ReplyKeepsInv(s: State, id: AskId, answer: Answer)
    requires Inv(s)
    ensures Inv(Replied(s, id, answer))
  {
    var n := Replied(s, id, answer);
    if id in s.router.pending {
      assert Owns(s, id);
      var i := s.router.pending[id];
      forall other | other in n.router.pending
        ensures Owns(n, other)
      {
        assert Owns(s, other);
      }
      forall j | 0 <= j < |n.flows|
        ensures Stands(n, j)
      {
        assert Stands(s, j) && Stands(s, i);
      }
    }
  }

  /** A flow moves on without touching the router, keeping its id if it keeps
      one: out of reach of answers only with its answer in or its time up. */
  lemma {:induction false} MoveKeepsInv(s: State, n: State, i: Asker)
    requires Inv(s) && i < |s.flows|
    requires exists p :: n == s.(flows := Moved(s.flows, i, p))
    requires var was, now := s.flows[i].phase, n.flows[i].phase;
             && (HasId(now) ==> HasId(was) && now.id == was.id)
             && (now.Numbered? || now.Chosen? ==> was.Numbered? || was.Chosen?)
             && (IsOpen(now) ==> IsOpen(was))
             && (now.Offered? || now.Asking? ==> was.Offered?)
             && (IsOpen(was) && s.flows[i].slot.None? ==> IsOpen(now) || now.Expired? || now.Unsent?)
             && (was.Expired? || was.Unsent? ==> now == was)
    ensures Inv(n)
  {
    assert Stands(s, i);
    forall id | id in s.router.pending
      ensures Owns(n, id)
    {
      assert Owns(s, id);
    }
    forall j | 0 <= j < |n.flows|
      ensures Stands(n, j)
    {
      assert Stands(s, j);
    }
  }

  lemma {:induction false} NumberKeepsInv(s: State, i: Asker, autoAccept: bool)
    requires Inv(s) && Enabled(s, Number(i))
    ensures Inv(Next(s, Number(i), autoAccept))
  {
    var n := Next(s, Number(i), autoAccept);
    forall id | id in s.router.pending
      ensures Owns(n, id)
    {
      assert Owns(s, id);
    }
    forall j | 0 <= j < |n.flows|
      ensures Stands(n, j)
    {
      assert Stands(s, j);
    }
    forall j, m | 0 <= j < m < |n.flows| && HasId(n.flows[j].phase) && HasId(n.flows[m].phase)
      ensures n.flows[j].phase.id != n.flows[m].phase.id
    {
      assert Stands(s, j) && Stands(s, m);
    }
  }

  lemma {:induction false} PostKeepsInv(s: State, i: Asker, autoAccept: bool)
    requires Inv(s) && Enabled(s, Post(i))
    ensures Inv(Next(s, Post(i), autoAccept))
  {
    var n := Next(s, Post(i), autoAccept);
    assert Stands(s, i);
    forall id | id in n.router.pending
      ensures id < n.router.nextId && Owns(n, id)
    {
      assert id in s.router.pending ==> Owns(s, id);
    }
    forall j | 0 <= j < |n.flows|
      ensures Stands(n, j)
    {
      assert Stands(s, j);
    }
  }

  lemma {:induction false} GiveUpKeepsInv(s: State, i: Asker, autoAccept: bool)
    requires Inv(s) && Enabled(s, GiveUp(i))
    ensures Inv(Next(s, GiveUp(i), autoAccept))
  {
    var n := Next(s, GiveUp(i), autoAccept);
    forall id | id in n.router.pending
      ensures Owns(n, id)
    {
      assert Owns(s, id);
    }
    forall j | 0 <= j < |n.flows|
      ensures Stands(n, j)
    {
      assert Stands(s, j);
    }
  }

  lemma {:induction false} RunKeepsInv(steps: seq<Step>, autoAccept: bool)
    requires CanRun(steps, autoAccept)
    ensures Inv(Run(steps, autoAccept))
  {
    if steps != [] {
      RunKeepsInv(steps[..|steps| - 1], autoAccept);
      StepKeepsInv(Run(steps[..|steps| - 1], autoAccept), steps[|steps| - 1], autoAccept);
    }
  }

  /** In every run a connection that unregisters takes out itself and nobody
      else. */
  lemma {:induction false} LeavingIsExact(steps: seq<Step>, autoAccept: bool, i: nat)
    requires CanRun(steps, autoAccept) && i < |Run(steps, autoAccept).router.uis|
    ensures var uis := Run(steps, autoAccept).router.uis; Others(uis, uis[i].token) == uis[..i] + uis[i + 1..]
  {
    RunKeepsInv(steps, autoAccept);
    LeavesAlone(Run(steps, autoAccept).router.uis, i);
  }

  // ----- The order of the list -----

  /** The UIs put on the list, in order. */
  function Pushes(steps: seq<Step>): seq<Ui> {
    if steps == [] then []
    else
      var earlier, step := Pushes(steps[..|steps| - 1]), steps[|steps| - 1];
      if step.Push? then earlier + [Ui(step.token, step.channel)] else earlier
  }

  /** Is `part` what is left of `whole` when some are taken out? */
  ghost predicate IsLeftOf(part: seq<Ui>, whole: seq<Ui>) {
    part == [] ||
    (whole != [] &&
     (IsLeftOf(part, whole[..|whole| - 1]) ||
      (part[|part| - 1] == whole[|whole| - 1] && IsLeftOf(part[..|part| - 1], whole[..|whole| - 1]))))
  }

  lemma {:induction false} OthersAreLeft(uis: seq<Ui>, whole: seq<Ui>, token: Token)
    requires IsLeftOf(uis, whole)
    ensures IsLeftOf(Others(uis, token), whole)
    decreases |whole|
  {
    if uis != [] {
      var front, last, earlier := uis[..|uis| - 1], uis[|uis| - 1], whole[..|whole| - 1];
      if IsLeftOf(uis, earlier) {
        OthersAreLeft(uis, earlier, token);
      } else {
        OthersAreLeft(front, earlier, token);
        assert (Others(front, token) + [last])[..|Others(front, token)|] == Others(front, token);
      }
    }
  }

  lemma {:induction false} OpenAreLeft(uis: seq<Ui>, whole: seq<Ui>, closed: set<Channel>)
    requires IsLeftOf(uis, whole)
    ensures IsLeftOf(Open(uis, closed), whole)
    decreases |whole|
  {
    if uis != [] {
      var front, last, earlier := uis[..|uis| - 1], uis[|uis| - 1], whole[..|whole| - 1];
      if IsLeftOf(uis, earlier) {
        OpenAreLeft(uis, earlier, closed);
      } else {
        OpenAreLeft(front, earlier, closed);
        assert (Open(front, closed) + [last])[..|Open(front, closed)|] == Open(front, closed);
      }
    }
  }

  /** Whatever else happens, the list is in the order in which UIs reached it. */
  lemma {:induction false} ListIsInOrder(steps: seq<Step>, autoAccept: bool)
    requires CanRun(steps, autoAccept)
    ensures IsLeftOf(Run(steps, autoAccept).router.uis, Pushes(steps))
  {
    if steps != [] {
      var front, step := steps[..|steps| - 1], steps[|steps| - 1];
      ListIsInOrder(front, autoAccept);
      var uis := Run(front, autoAccept).router.uis;
      match step
      case Push(token, channel) =>
        var ui := Ui(token, channel);
        assert (uis + [ui])[..|uis|] == uis && (Pushes(front) + [ui])[..|Pushes(front)|] == Pushes(front);
      case Unregister(token) => OthersAreLeft(uis, Pushes(front), token);
      case ForgetClosed => OpenAreLeft(uis, Pushes(front), Run(front, autoAccept).closed);
      case _ => assert Run(steps, autoAccept).router.uis == uis;
    }
  }

  /** Two registrations at once can reach the list in the other order than their
      tokens: the one asked is then the last to reach it, not the last to be
      numbered. */
  lemma {:induction false} TokensAreNoOrder(first: Channel, second: Channel, autoAccept: bool)
    ensures var steps := [Take, Take, Push(2, second), Push(1, first)];
            && CanRun(steps, autoAccept)
            && Run(steps, autoAccept).router.uis == [Ui(2, second), Ui(1, first)]
            && Target(Run(steps, autoAccept).router.uis, {}) == Some(first)
  {
    var one, two := [Take], [Take, Take];
    var three, four := [Take, Take, Push(2, second)], [Take, Take, Push(2, second), Push(1, first)];
    assert one[..0] == [] && two[..1] == one && three[..2] == two && four[..3] == three;
    assert Run([], autoAccept) == START;
    assert Run(one, autoAccept) == START.(router := EMPTY.(nextUi := 2), taken := {1});
    assert Run(two, autoAccept) == START.(router := EMPTY.(nextUi := 3), taken := {1, 2});
    assert CanRun(one, autoAccept) && CanRun(two, autoAccept);
    assert three[2] == Push(2, second) && Enabled(Run(two, autoAccept), three[2]);
    assert CanRun(three, autoAccept);
    assert Run(three, autoAccept) ==
           START.(router := Pushed(EMPTY.(nextUi := 3), 2, second), taken := {1, 2} - {2});
    assert CanRun(four, autoAccept);
  }

  // ----- What a fetch takes -----

  /** Did a client say yes under the flow's own id, while the flow was waiting
      for an answer and had none? */
  ghost predicate SaidYes(steps: seq<Step>, autoAccept: bool, i: Asker)
    requires CanRun(steps, autoAccept)
  {
    steps != [] &&
    (var front, step := steps[..|steps| - 1], steps[|steps| - 1];
     SaidYes(front, autoAccept, i) ||
     (step.Reply? && step.answer == Yes && Awaits(Run(front, autoAccept), i, step.id)))
  }

  ghost predicate Awaits(s: State, i: Asker, id: AskId) {
    i < |s.flows| && IsOpen(s.flows[i].phase) && s.flows[i].phase.id == id && s.flows[i].slot.None?
  }

  /** Did the flow take that yes, which it does only before it expires? */
  ghost predicate Consented(steps: seq<Step>, autoAccept: bool, i: Asker)
    requires CanRun(steps, autoAccept)
  {
    steps != [] &&
    (var front, step := steps[..|steps| - 1], steps[|steps| - 1];
     Consented(front, autoAccept, i) || (step == Receive(i) && SaidYes(front, autoAccept, i)))
  }

  /** Was the flow let through unasked, with nobody there to ask? */
  ghost predicate LetThrough(steps: seq<Step>, autoAccept: bool, i: Asker)
    requires CanRun(steps, autoAccept)
  {
    steps != [] && autoAccept &&
    (var front, step := steps[..|steps| - 1], steps[|steps| - 1];
     LetThrough(front, autoAccept, i) ||
     (step == Check(i) && forall ui :: ui in Run(front, autoAccept).router.uis ==>
                            ui.channel in Run(front, autoAccept).closed))
  }

  /** The yes of a flow sits in its slot until the flow takes it, and decides. */
  ghost predicate Told(steps: seq<Step>, autoAccept: bool, i: Asker)
    requires CanRun(steps, autoAccept)
  {
    var s := Run(steps, autoAccept);
    && (SaidYes(steps, autoAccept, i) ==> i < |s.flows| && s.flows[i].slot == Some(Yes))
    && (i < |s.flows| && IsOpen(s.flows[i].phase) && s.flows[i].slot == Some(Yes) ==> SaidYes(steps, autoAccept, i))
    && (i < |s.flows| ==> (s.flows[i].phase.Fetched? <==>
        Consented(steps, autoAccept, i) || LetThrough(steps, autoAccept, i)))
    && (i >= |s.flows| ==> !Consented(steps, autoAccept, i) && !LetThrough(steps, autoAccept, i))
  }

  lemma {:induction false} YesIsKept(steps: seq<Step>, autoAccept: bool, i: Asker)
    requires CanRun(steps, autoAccept)
    ensures Told(steps, autoAccept, i)
  {
    if steps != [] {
      var front, step := steps[..|steps| - 1], steps[|steps| - 1];
      YesIsKept(front, autoAccept, i);
      RunKeepsInv(front, autoAccept);
      var s := Run(front, autoAccept);
      if step.Reply? && i < |s.flows| {
        ReplyTells(s, step.id, step.answer, i);
      } else if i < |s.flows| {
        FlowTells(s, step, autoAccept, i);
      }
    }
  }

  /** What any other step makes of a flow and its slot. */
  lemma {:induction false} FlowTells(s: State, step: Step, autoAccept: bool, i: Asker)
    requires Inv(s) && Enabled(s, step) && !step.Reply? && i < |s.flows|
    ensures var f, g := s.flows[i], Next(s, step, autoAccept).flows[i];
            && g.slot == f.slot
            && (IsOpen(g.phase) && g.slot.Some? ==> IsOpen(f.phase))
            && (g.phase.Fetched? <==>
                  f.phase.Fetched? || (step == Receive(i) && f.slot == Some(Yes)) ||
                  (step == Check(i) && autoAccept && !HasLive(s)))
            && (step == Receive(i) ==> IsOpen(f.phase))
  {
    assert Stands(s, i);
  }

  /** An answer reaches a flow exactly if the flow awaits it. */
  lemma {:induction false} ReplyTells(s: State, id: AskId, answer: Answer, i: Asker)
    requires Inv(s) && i < |s.flows|
    ensures var n := Replied(s, id, answer);
            && |n.flows| == |s.flows| && n.flows[i].phase == s.flows[i].phase
            && (Awaits(s, i, id) ==> n.flows[i].slot == Some(answer))
            && (IsOpen(s.flows[i].phase) && !Awaits(s, i, id) ==> n.flows[i].slot == s.flows[i].slot)
            && (s.flows[i].slot.Some? ==> n.flows[i].slot == s.flows[i].slot)
  {
    assert Stands(s, i);
    if id in s.router.pending {
      assert Owns(s, id);
    }
  }

  /** A flow fetches exactly if it took a yes given to its own question while it
      waited, or was let through with nobody to ask. */
  lemma {:induction false} FetchesExactly(steps: seq<Step>, autoAccept: bool, i: Asker)
    requires CanRun(steps, autoAccept) && i < |Run(steps, autoAccept).flows|
    ensures Run(steps, autoAccept).flows[i].phase.Fetched? <==>
            Consented(steps, autoAccept, i) || LetThrough(steps, autoAccept, i)
  {
    YesIsKept(steps, autoAccept, i);
  }

  lemma {:induction false} RunNext(steps: seq<Step>, step: Step, autoAccept: bool)
    requires CanRun(steps, autoAccept) && Enabled(Run(steps, autoAccept), step)
    ensures CanRun(steps + [step], autoAccept)
    ensures Run(steps + [step], autoAccept) == Next(Run(steps, autoAccept), step, autoAccept)
  {
    assert (steps + [step])[..|steps|] == steps;
  }

  /** After numbering, choosing and posting: the question waits under an id of its
      own for the newest open UI. */
  lemma {:induction false} GetsPosted(steps: seq<Step>, autoAccept: bool, i: Asker) returns (more: seq<Step>, id: AskId)
    requires CanRun(steps, autoAccept) && i < |Run(steps, autoAccept).flows|
    requires Run(steps, autoAccept).flows[i] == Flow(Asking, None)
    requires Target(Run(steps, autoAccept).router.uis, Run(steps, autoAccept).closed).Some?
    ensures CanRun(more, autoAccept)
    ensures var s, n := Run(steps, autoAccept), Run(more, autoAccept);
            && i < |n.flows| && n.closed == s.closed && id in n.router.pending && n.router.pending[id] == i
            && n.flows[i] == Flow(Posted(id, Target(s.router.uis, s.closed).value), None)
  {
    var s := Run(steps, autoAccept);
    id := s.router.nextId;
    RunNext(steps, Number(i), autoAccept);
    RunNext(steps + [Number(i)], Choose(i), autoAccept);
    RunNext(steps + [Number(i)] + [Choose(i)], Post(i), autoAccept);
    more := steps + [Number(i)] + [Choose(i)] + [Post(i)];
  }

  /** A yes is honoured: in every reachable state with an open UI, an offer about to
      ask can be asked, answered and fetched. */
  lemma {:induction false} YesIsHonoured(steps: seq<Step>, autoAccept: bool, i: Asker) returns (more: seq<Step>)
    requires CanRun(steps, autoAccept) && i < |Run(steps, autoAccept).flows|
    requires Run(steps, autoAccept).flows[i].phase.Asking?
    requires exists ui :: ui in Run(steps, autoAccept).router.uis && ui.channel !in Run(steps, autoAccept).closed
    ensures CanRun(more, autoAccept) && i < |Run(more, autoAccept).flows|
    ensures Run(more, autoAccept).flows[i].phase.Fetched?
  {
    var s := Run(steps, autoAccept);
    RunKeepsInv(steps, autoAccept);
    assert Stands(s, i);
    NewestIsAsked(s.router.uis, s.closed);
    var id: AskId;
    more, id := GetsPosted(steps, autoAccept, i);
    more := GetsFetched(more, autoAccept, i, id);
  }

  lemma {:induction false} GetsFetched(steps: seq<Step>, autoAccept: bool, i: Asker, id: AskId)
                                       returns (more: seq<Step>)
    requires CanRun(steps, autoAccept)
    requires var n := Run(steps, autoAccept);
             && i < |n.flows| && id in n.router.pending && n.router.pending[id] == i
             && n.flows[i].phase.Posted? && n.flows[i].phase.target !in n.closed
    ensures CanRun(more, autoAccept) && i < |Run(more, autoAccept).flows|
    ensures Run(more, autoAccept).flows[i].phase.Fetched?
  {
    RunNext(steps, Send(i), autoAccept);
    RunNext(steps + [Send(i)], Reply(id, Yes), autoAccept);
    RunNext(steps + [Send(i)] + [Reply(id, Yes)], Receive(i), autoAccept);
    more := steps + [Send(i)] + [Reply(id, Yes)] + [Receive(i)];
  }

  /** Without a yes, nothing is fetched unless auto-accept is on. */
  lemma {:induction false} SilenceIsNeverConsent(steps: seq<Step>, i: Asker)
    requires CanRun(steps, false) && i < |Run(steps, false).flows|
    requires forall step :: step in steps && step.Reply? ==> step.answer != Yes
    ensures !Run(steps, false).flows[i].phase.Fetched?
  {
    FetchesExactly(steps, false, i);
    NoYes(steps, false, i);
  }

  lemma {:induction false} NoYes(steps: seq<Step>, autoAccept: bool, i: Asker)
    requires CanRun(steps, autoAccept)
    requires forall step :: step in steps && step.Reply? ==> step.answer != Yes
    ensures !SaidYes(steps, autoAccept, i) && !Consented(steps, autoAccept, i)
  {
    if steps != [] {
      SplitLast(steps);
      NoYes(steps[..|steps| - 1], autoAccept, i);
    }
  }

  /** An answer changes exactly the pending table and the slot of an unanswered
      flow under its id; a late, repeated or unknown one changes nothing. */
  lemma {:induction false} OnlyAwaitedAnswersCount(steps: seq<Step>, autoAccept: bool, id: AskId, answer: Answer)
    requires CanRun(steps, autoAccept)
    ensures var s := Run(steps, autoAccept);
            && (Replied(s, id, answer) != s <==> id in s.router.pending)
            && Replied(Replied(s, id, answer), id, answer) == Replied(s, id, answer)
  {
    RunKeepsInv(steps, autoAccept);
    var s := Run(steps, autoAccept);
    if id in s.router.pending {
      assert Owns(s, id);
      assert id !in Replied(s, id, answer).router.pending;
    }
  }

  /** Finished flows stay as they are, and none has a question pending. */
  lemma {:induction false} FinishedIsFinal(steps: seq<Step>, autoAccept: bool, step: Step, i: Asker)
    requires CanRun(steps, autoAccept) && Enabled(Run(steps, autoAccept), step)
    requires i < |Run(steps, autoAccept).flows|
    requires var p := Run(steps, autoAccept).flows[i].phase; p.Fetched? || p.Declined?
    ensures var s := Run(steps, autoAccept);
            && Next(s, step, autoAccept).flows[i] == s.flows[i]
            && i !in s.router.pending.Values
  {
    RunKeepsInv(steps, autoAccept);
    var s := Run(steps, autoAccept);
    forall id | id in s.router.pending
      ensures s.router.pending[id] != i
    {
      assert Owns(s, id);
    }
  }

  /** A question whose channel has closed before it is sent is never consented to,
      whatever is answered from then on. */
  lemma {:induction false} ClosedIsNoConsent(steps: seq<Step>, more: seq<Step>, autoAccept: bool, i: Asker)
    requires CanRun(steps, autoAccept) && Enabled(Run(steps, autoAccept), Send(i))
    requires Run(steps, autoAccept).flows[i].phase.target in Run(steps, autoAccept).closed
    requires CanRun(steps + [Send(i)] + more, autoAccept)
    ensures i < |Run(steps + [Send(i)] + more, autoAccept).flows|
    ensures !Run(steps + [Send(i)] + more, autoAccept).flows[i].phase.Fetched?
  {
    var sent := steps + [Send(i)];
    assert sent[..|steps|] == steps;
    assert CanRun(sent, autoAccept);
    assert Run(sent, autoAccept).flows[i].phase.Unsent?;
    LateIsNoConsent(sent, more, autoAccept, i);
  }

  ghost predicate TooLate(p: Phase) {
    p.Expired? || p.Unsent? || p.Declined?
  }

  /** A flow that ran out of time, or whose question was never sent, never
      fetches, whatever is answered from then on. */
  lemma {:induction false} LateIsNoConsent(steps: seq<Step>, more: seq<Step>, autoAccept: bool, i: Asker)
    requires CanRun(steps, autoAccept) && i < |Run(steps, autoAccept).flows|
    requires TooLate(Run(steps, autoAccept).flows[i].phase)
    requires CanRun(steps + more, autoAccept)
    ensures i < |Run(steps + more, autoAccept).flows| && TooLate(Run(steps + more, autoAccept).flows[i].phase)
  {
    if more == [] {
      assert steps + more == steps;
    } else {
      assert (steps + more)[..|steps + more| - 1] == steps + more[..|more| - 1];
      LateIsNoConsent(steps, more[..|more| - 1], autoAccept, i);
      LateStays(Run(steps + more[..|more| - 1], autoAccept), more[|more| - 1], autoAccept, i);
    }
  }

  lemma {:induction false} LateStays(s: State, step: Step, autoAccept: bool, i: Asker)
    requires Enabled(s, step) && i < |s.flows| && TooLate(s.flows[i].phase)
    ensures i < |Next(s, step, autoAccept).flows| && TooLate(Next(s, step, autoAccept).flows[i].phase)
  {
  }
}
