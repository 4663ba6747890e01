/** What it takes for a page to arrive: the encoded reply must fit what the
    client reads, and the server's limiter must let the request through. */
module Transfer {
  import opened Common
  import opened Postcard
  import SyncLog
  import CatchUp
  import RateLimiter

  const OP_SYNC_PAGE: nat := 2
  const SYNC_PAGES := RateLimiter.Rate(32.0, 4.0)

  // ----- The reply on the wire -----

  datatype Reply = Reply(version: nat, response: CatchUp.Response)

  datatype Control = Control(version: nat, op: nat, payload: Bytes)

  type ReplyTuple = (nat, (Option<nat>, (seq<Bytes>, (nat, bool))))

  function ToReply(t: ReplyTuple): Reply {
    Reply(t.0, CatchUp.Response(t.1.0, t.1.1.0, t.1.1.1.0, t.1.1.1.1))
  }

  function FromReply(r: Reply): ReplyTuple {
    (r.version, (r.response.nextCursor, (r.response.frames, (r.response.oldestCursor, r.response.truncated))))
  }

  function ToControl(t: (nat, (nat, Bytes))): Control {
    Control(t.0, t.1.0, t.1.1)
  }

  function FromControl(c: Control): (nat, (nat, Bytes)) {
    (c.version, (c.op, c.payload))
  }

  const ReplyFields: Codec<ReplyTuple> := Both(U16, Both(Opt(U64), Both(Many(Blob), Both(U64, Flag))))
  const ReplyCodec: Codec<Reply> := Via(ReplyFields, ToReply, FromReply)
  const ControlCodec: Codec<Control> := Via(Both(U16, Both(U16, Blob)), ToControl, FromControl)

  lemma {:induction false} ReplyIsLawful()
    ensures Lawful(ReplyCodec)
  {
    UIntIsLawful(3, 3);
    UIntIsLawful(10, 1);
    OptIsLawful(U64);
    BlobIsLawful();
    ManyIsLawful(Blob);
    FlagIsLawful();
    BothIsLawful(U64, Flag);
    BothIsLawful(Many(Blob), Both(U64, Flag));
    BothIsLawful(Opt(U64), Both(Many(Blob), Both(U64, Flag)));
    BothIsLawful(U16, Both(Opt(U64), Both(Many(Blob), Both(U64, Flag))));
    ViaIsLawful(ReplyFields, ToReply, FromReply);
  }

  lemma {:induction false} ControlIsLawful()
    ensures Lawful(ControlCodec)
  {
    UIntIsLawful(3, 3);
    BlobIsLawful();
    BothIsLawful(U16, Blob);
    BothIsLawful(U16, Both(U16, Blob));
    ViaIsLawful(Both(U16, Both(U16, Blob)), ToControl, FromControl);
  }

  /** A reply, field by field: version, next cursor, frames, oldest cursor, flag. */
  lemma {:induction false} ReplyLayout(r: Reply)
    ensures ReplyCodec.enc(r) ==
            Varint(r.version) +
            ((if r.response.nextCursor.None? then [0] else [1] + Varint(r.response.nextCursor.value)) +
                ((Varint(|r.response.frames|) + EncodeAll(Blob, r.response.frames)) +
                    (Varint(r.response.oldestCursor) + [if r.response.truncated then 1 else 0])))
  {
    var t := FromReply(r);
    ViaIs(ReplyFields, ToReply, FromReply, r);
    BothIs(U16, Both(Opt(U64), Both(Many(Blob), Both(U64, Flag))), t);
    BothIs(Opt(U64), Both(Many(Blob), Both(U64, Flag)), t.1);
    BothIs(Many(Blob), Both(U64, Flag), t.1.1);
    BothIs(U64, Flag, t.1.1.1);
    ViaIs(Tag(2), ToFlag, FromFlag, r.response.truncated);
  }

  lemma {:induction false} ControlLayout(c: Control)
    ensures ControlCodec.enc(c) == Varint(c.version) + (Varint(c.op) + (Varint(|c.payload|) + c.payload))
  {
    ViaIs(Both(U16, Both(U16, Blob)), ToControl, FromControl, c);
    BothIs(U16, Both(U16, Blob), FromControl(c));
    BothIs(U16, Blob, FromControl(c).1);
  }

  /** What the server sends for a page. */
  function Encoded(r: CatchUp.Response): Bytes {
    ControlCodec.enc(Control(WIRE_VERSION, OP_SYNC_PAGE, ReplyCodec.enc(Reply(WIRE_VERSION, r))))
  }

  /** What the client makes of the bytes it is sent: it reads no more than its
      limit, and wants its own version and operation back. */
  function Read(bytes: Bytes): Option<CatchUp.Response> {
    if |bytes| > CatchUp.MAX_RESPONSE_BYTES then None
    else
      match ControlCodec.dec(bytes)
      case Malformed => None
      case Parsed(c, _) =>
        if c.version != WIRE_VERSION || c.op != OP_SYNC_PAGE then None
        else
          match ReplyCodec.dec(c.payload)
          case Malformed => None
          case Parsed(r, _) => if r.version != WIRE_VERSION then None else Some(r.response)
  }

  // ----- How large a reply is -----

  function Prefixed(n: nat): nat {
    |Varint(n)| + n
  }

  /** The frames, each with its length in front. */
  function FramesSize(frames: seq<Bytes>): nat {
    if frames == [] then 0 else Prefixed(|frames[0]|) + FramesSize(frames[1..])
  }

  /** Version, next cursor, number of frames, frames, oldest cursor, flag. */
  function PayloadSize(r: CatchUp.Response): nat {
    1 + (if r.nextCursor.None? then 1 else 1 + |Varint(r.nextCursor.value)|) +
    |Varint(|r.frames|)| + FramesSize(r.frames) + |Varint(r.oldestCursor)| + 1
  }

  /** Version and operation, then the payload with its length in front. */
  function ReplySize(r: CatchUp.Response): nat {
    2 + Prefixed(PayloadSize(r))
  }

  predicate Fits(r: CatchUp.Response) {
    ReplySize(r) <= CatchUp.MAX_RESPONSE_BYTES
  }

  lemma {:induction false} BlobsSize(frames: seq<Bytes>)
    ensures |EncodeAll(Blob, frames)| == FramesSize(frames)
  {
    if frames != [] {
      BlobsSize(frames[1..]);
    }
  }

  lemma {:induction false} PayloadSizeIs(r: CatchUp.Response)
    ensures |ReplyCodec.enc(Reply(WIRE_VERSION, r))| == PayloadSize(r)
  {
    var t := FromReply(Reply(WIRE_VERSION, r));
    BlobsSize(r.frames);
    ViaIs(ReplyFields, ToReply, FromReply, Reply(WIRE_VERSION, r));
    BothIs(U16, Both(Opt(U64), Both(Many(Blob), Both(U64, Flag))), t);
    BothIs(Opt(U64), Both(Many(Blob), Both(U64, Flag)), t.1);
    BothIs(Many(Blob), Both(U64, Flag), t.1.1);
    BothIs(U64, Flag, t.1.1.1);
  }

  lemma {:induction false} ControlSizeIs(c: Control)
    ensures |ControlCodec.enc(c)| == |Varint(c.version)| + |Varint(c.op)| + Prefixed(|c.payload|)
    ensures c.version < 128 && c.op < 128 && |c.payload| <= CatchUp.MAX_RESPONSE_BYTES ==> ControlCodec.ok(c)
  {
    WordLimits();
    ViaIs(Both(U16, Both(U16, Blob)), ToControl, FromControl, c);
    BothIs(U16, Both(U16, Blob), FromControl(c));
    BothIs(U16, Blob, FromControl(c).1);
  }

  lemma {:induction false} ReplySizeIs(r: CatchUp.Response)
    ensures |Encoded(r)| == ReplySize(r)
  {
    PayloadSizeIs(r);
    ControlSizeIs(Control(WIRE_VERSION, OP_SYNC_PAGE, ReplyCodec.enc(Reply(WIRE_VERSION, r))));
  }

  /** Cursors are 64-bit words. */
  predicate HasWords(r: CatchUp.Response) {
    r.oldestCursor < Limit(10, 1) && (r.nextCursor.Some? ==> r.nextCursor.value < Limit(10, 1))
  }

  lemma {:induction false} FramesAreOk(frames: seq<Bytes>)
    requires FramesSize(frames) < Limit(10, 1)
    ensures AllOk(Blob, frames) && |frames| <= FramesSize(frames)
  {
    if frames != [] {
      FramesAreOk(frames[1..]);
    }
  }

  lemma {:induction false} ReplyIsOk(r: CatchUp.Response)
    requires HasWords(r) && Fits(r)
    ensures ReplyCodec.ok(Reply(WIRE_VERSION, r))
  {
    WordLimits();
    FramesAreOk(r.frames);
    var t := FromReply(Reply(WIRE_VERSION, r));
    ViaIs(ReplyFields, ToReply, FromReply, Reply(WIRE_VERSION, r));
    BothIs(U16, Both(Opt(U64), Both(Many(Blob), Both(U64, Flag))), t);
    BothIs(Opt(U64), Both(Many(Blob), Both(U64, Flag)), t.1);
    BothIs(Many(Blob), Both(U64, Flag), t.1.1);
    BothIs(U64, Flag, t.1.1.1);
  }

  /** A page arrives, and arrives as it was, exactly if its frames, their
      lengths and the headers together fit what the client reads. */
  lemma {:induction false} ReadableExactly(r: CatchUp.Response)
    requires HasWords(r)
    ensures Read(Encoded(r)) == if Fits(r) then Some(r) else None
  {
    ReplySizeIs(r);
    if Fits(r) {
      FittingArrives(r);
    }
  }

  lemma {:induction false} FittingArrives(r: CatchUp.Response)
    requires HasWords(r) && Fits(r) && |Encoded(r)| == ReplySize(r)
    ensures Read(Encoded(r)) == Some(r)
  {
    var c := Control(WIRE_VERSION, OP_SYNC_PAGE, ReplyCodec.enc(Reply(WIRE_VERSION, r)));
    PayloadSizeIs(r);
    ControlSizeIs(c);
    ControlIsLawful();
    ComesBack(ControlCodec, c, []);
    assert ControlCodec.enc(c) + [] == ControlCodec.enc(c);
    ReplyIsOk(r);
    ReplyIsLawful();
    ComesBack(ReplyCodec, Reply(WIRE_VERSION, r), []);
    assert ReplyCodec.enc(Reply(WIRE_VERSION, r)) + [] == ReplyCodec.enc(Reply(WIRE_VERSION, r));
  }

  // ----- Pulling over such a connection -----

  /** The peer and the attempt, the peer's record of what it was asked by this
      client, and whether it still serves the connection. */
  datatype Wire = Wire(system: CatchUp.System, calls: RateLimiter.Calls, open: bool)

  datatype Event = Retain(e: SyncLog.Entry) | Ask(at: real)

  /** Which request is let through, after what was asked before it, and which
      reply the client can read. */
  datatype Line = Line(allow: (RateLimiter.Calls, real) -> bool, readable: CatchUp.Response -> bool)

  /** A connection begins with a hello, which is charged like any page. */
  ghost function Opened(line: Line, initial: SyncLog.Entries, prior: RateLimiter.Calls, hello: real): Wire {
    var allowed := line.allow(prior, hello);
    Wire(CatchUp.System(initial, CatchUp.FRESH, []), prior + [RateLimiter.Call(hello, allowed)], allowed)
  }

  ghost function Requested(s: CatchUp.System): CatchUp.Response {
    CatchUp.Served(s.history, s.client.cursor, CatchUp.MAX_FRAMES_PER_PAGE)
  }

  /** The page arrives: the connection is served, the request is allowed, and
      the reply can be read. */
  ghost predicate Arrives(line: Line, w: Wire, at: real) {
    w.open && line.allow(w.calls, at) && line.readable(Requested(w.system))
  }

  /** A refused request ends the connection; an attempt that has ended asks for
      nothing. */
  ghost function Next(line: Line, w: Wire, ev: Event): Wire {
    match ev
    case Retain(e) => w.(system := CatchUp.Next(w.system, CatchUp.Retain(e), CatchUp.MAX_FRAMES_PER_PAGE))
    case Ask(at) =>
      if w.system.client.end.Some? then w
      else
        var after := CatchUp.Next(w.system, CatchUp.Page(Arrives(line, w, at)), CatchUp.MAX_FRAMES_PER_PAGE);
        if !w.open then w.(system := after)
        else Wire(after, w.calls + [RateLimiter.Call(at, line.allow(w.calls, at))], line.allow(w.calls, at))
  }

  ghost function Run(line: Line, start: Wire, events: seq<Event>): Wire {
    if events == [] then start else Next(line, Run(line, start, events[..|events| - 1]), events[|events| - 1])
  }

  /** The pull of CatchUp this is, every page answered or lost. */
  ghost function Pulled(line: Line, start: Wire, events: seq<Event>): (pulled: seq<CatchUp.Event>)
    ensures |pulled| == |events|
  {
    if events == [] then []
    else
      var front, ev := events[..|events| - 1], events[|events| - 1];
      Pulled(line, start, front) +
      [if ev.Retain? then CatchUp.Retain(ev.e) else CatchUp.Page(Arrives(line, Run(line, start, front), ev.at))]
  }

  lemma {:induction false} RunIsPull(line: Line, initial: SyncLog.Entries, prior: RateLimiter.Calls, hello: real,
                                     events: seq<Event>)
    ensures var start := Opened(line, initial, prior, hello);
            Run(line, start, events).system ==
                CatchUp.Run(initial, Pulled(line, start, events), CatchUp.MAX_FRAMES_PER_PAGE)
  {
    if events != [] {
      var start, front, ev := Opened(line, initial, prior, hello), events[..|events| - 1], events[|events| - 1];
      RunIsPull(line, initial, prior, hello, front);
      var w := Run(line, start, front);
      if ev.Ask? && w.system.client.end.Some? {
        CatchUp.IdlePage(w.system, Arrives(line, w, ev.at), CatchUp.MAX_FRAMES_PER_PAGE);
      }
      assert Pulled(line, start, events)[..|events| - 1] == Pulled(line, start, front);
    }
  }

  /** Every page asked for arrived. */
  ghost predicate AllArrived(line: Line, start: Wire, events: seq<Event>) {
    events == [] ||
    (var front, ev := events[..|events| - 1], events[|events| - 1];
     AllArrived(line, start, front) &&
     (ev.Ask? && Run(line, start, front).system.client.end.None? ==> Arrives(line, Run(line, start, front), ev.at)))
  }

  lemma {:induction false} ArrivedIsAnswered(line: Line, initial: SyncLog.Entries, prior: RateLimiter.Calls,
                                             hello: real, events: seq<Event>)
    ensures var start := Opened(line, initial, prior, hello);
            AllArrived(line, start, events) <==>
            CatchUp.AllAnswered(initial, Pulled(line, start, events), CatchUp.MAX_FRAMES_PER_PAGE)
  {
    if events != [] {
      var start, front := Opened(line, initial, prior, hello), events[..|events| - 1];
      ArrivedIsAnswered(line, initial, prior, hello, front);
      RunIsPull(line, initial, prior, hello, front);
      assert Pulled(line, start, events)[..|events| - 1] == Pulled(line, start, front);
    }
  }

  /** Against an honest peer whose log is affordable an attempt that ends has
      caught up if and only if every page it asked for was let through and readable;
      none of its own budgets, and no stall, ever ends it. */
  lemma {:induction false} CatchesUpExactly(line: Line, initial: SyncLog.Entries, prior: RateLimiter.Calls,
                                            hello: real, events: seq<Event>)
    requires var h := Run(line, Opened(line, initial, prior, hello), events).system.history;
             CatchUp.Small(h) && CatchUp.Affordable(h, SyncLog.Start(initial))
    ensures var start := Opened(line, initial, prior, hello);
            var end := Run(line, start, events).system.client.end;
            && (end == Some(CatchUp.Failed) <==> !AllArrived(line, start, events))
            && (end.Some? ==> (end == Some(CatchUp.CaughtUp) <==> AllArrived(line, start, events)))
  {
    RunIsPull(line, initial, prior, hello, events);
    ArrivedIsAnswered(line, initial, prior, hello, events);
    var full, heavy := CatchUp.OnlyLostPagesCut(initial, Pulled(line, Opened(line, initial, prior, hello), events));
  }

  // ----- A log that does not change -----

  ghost function Asks(times: seq<real>, k: nat): (events: seq<Event>)
    requires k <= |times|
    ensures |events| == k
  {
    if k == 0 then [] else Asks(times, k - 1) + [Ask(times[k - 1])]
  }

  /** The peer's record after the hello and `k` pages, all let through. */
  ghost function Granted(prior: RateLimiter.Calls, hello: real, times: seq<real>, k: nat): (calls: RateLimiter.Calls)
    requires k <= |times|
    ensures |calls| == |prior| + k + 1
  {
    if k == 0 then prior + [RateLimiter.Call(hello, true)]
    else Granted(prior, hello, times, k - 1) + [RateLimiter.Call(times[k - 1], true)]
  }

  /** Page number `k` of the log can be read, and its request finds a token. */
  ghost predicate Passes(line: Line, history: SyncLog.Entries, prior: RateLimiter.Calls, hello: real,
                         times: seq<real>, k: nat)
    requires k < |times|
  {
    line.readable(CatchUp.PageAt(history, k)) && line.allow(Granted(prior, hello, times, k), times[k])
  }

  /** The hello finds a token, and every one of the first `n` pages passes. */
  ghost predicate FirstPass(line: Line, history: SyncLog.Entries, prior: RateLimiter.Calls, hello: real,
                            times: seq<real>, n: nat)
    requires n <= |times|
  {
    line.allow(prior, hello) && forall k :: 0 <= k < n ==> Passes(line, history, prior, hello, times, k)
  }

  lemma {:induction false} ArrivingPage(line: Line, w: Wire, at: real)
    requires w.system.client.end.None? && Arrives(line, w, at)
    ensures Next(line, w, Ask(at)) ==
            Wire(CatchUp.Next(w.system, CatchUp.Page(true), CatchUp.MAX_FRAMES_PER_PAGE),
                 w.calls + [RateLimiter.Call(at, true)], true)
  {
  }

  lemma {:induction false} PullNext(history: SyncLog.Entries, k: nat)
    requires k > 0
    ensures CatchUp.Run(history, CatchUp.Pages(k), CatchUp.MAX_FRAMES_PER_PAGE) ==
            CatchUp.Next(CatchUp.Run(history, CatchUp.Pages(k - 1), CatchUp.MAX_FRAMES_PER_PAGE), CatchUp.Page(true),
                         CatchUp.MAX_FRAMES_PER_PAGE)
  {
    assert CatchUp.Pages(k)[..k - 1] == CatchUp.Pages(k - 1);
  }

  lemma {:induction false} AskNext(line: Line, start: Wire, times: seq<real>, k: nat)
    requires 0 < k <= |times|
    ensures Run(line, start, Asks(times, k)) == Next(line, Run(line, start, Asks(times, k - 1)), Ask(times[k - 1]))
  {
    assert Asks(times, k)[..k - 1] == Asks(times, k - 1);
  }

  /** While all pass, the wire does what answered pages do. */
  lemma {:induction false} PassingWalks(line: Line, history: SyncLog.Entries, prior: RateLimiter.Calls, hello: real,
                                        times: seq<real>, k: nat)
    requires CatchUp.Small(history) && k <= |times| && k <= CatchUp.PageCount(history)
    requires FirstPass(line, history, prior, hello, times, k)
    ensures var w := Run(line, Opened(line, history, prior, hello), Asks(times, k));
            && w.system == CatchUp.Run(history, CatchUp.Pages(k), CatchUp.MAX_FRAMES_PER_PAGE)
            && w.calls == Granted(prior, hello, times, k) && w.open
  {
    if k > 0 {
      PassingWalks(line, history, prior, hello, times, k - 1);
      CatchUp.PagesSuffice(history, k - 1);
      CatchUp.PagesOnlyRead(history, k - 1);
      AskNext(line, Opened(line, history, prior, hello), times, k);
      PullNext(history, k);
      assert Passes(line, history, prior, hello, times, k - 1);
      ArrivingPage(line, Run(line, Opened(line, history, prior, hello), Asks(times, k - 1)), times[k - 1]);
    }
  }

  lemma {:induction false} EndedStays(line: Line, start: Wire, times: seq<real>, k: nat, n: nat)
    requires k <= n <= |times| && Run(line, start, Asks(times, k)).system.client.end.Some?
    ensures Run(line, start, Asks(times, n)) == Run(line, start, Asks(times, k))
  {
    if k < n {
      EndedStays(line, start, times, k, n - 1);
      AskNext(line, start, times, n);
    }
  }

  lemma {:induction false} OnePassMore(line: Line, history: SyncLog.Entries, prior: RateLimiter.Calls, hello: real,
                                       times: seq<real>, k: nat)
    requires k < |times| && FirstPass(line, history, prior, hello, times, k)
    requires Passes(line, history, prior, hello, times, k)
    ensures FirstPass(line, history, prior, hello, times, k + 1)
  {
  }

  /** The first page, from number `k` on, that does not pass. */
  lemma {:induction false} FirstLost(line: Line, history: SyncLog.Entries, prior: RateLimiter.Calls, hello: real,
                                     times: seq<real>, k: nat, n: nat) returns (lost: nat)
    requires k <= n <= |times|
    requires FirstPass(line, history, prior, hello, times, k) && !FirstPass(line, history, prior, hello, times, n)
    ensures k <= lost < n && FirstPass(line, history, prior, hello, times, lost)
    ensures !Passes(line, history, prior, hello, times, lost)
    decreases n - k
  {
    lost := k;
    if Passes(line, history, prior, hello, times, k) {
      OnePassMore(line, history, prior, hello, times, k);
      lost := FirstLost(line, history, prior, hello, times, k + 1, n);
    }
  }

  /** The hello was refused, or page number `k` is the first not to pass. */
  ghost predicate FailsAt(line: Line, history: SyncLog.Entries, prior: RateLimiter.Calls, hello: real,
                          times: seq<real>, k: nat)
    requires k < |times|
  {
    if line.allow(prior, hello) then
      FirstPass(line, history, prior, hello, times, k) && !Passes(line, history, prior, hello, times, k)
    else k == 0
  }

  lemma {:induction false} FindFailure(line: Line, history: SyncLog.Entries, prior: RateLimiter.Calls, hello: real,
                                       times: seq<real>, n: nat) returns (k: nat)
    requires 0 < n <= |times| && !FirstPass(line, history, prior, hello, times, n)
    ensures k < n && FailsAt(line, history, prior, hello, times, k)
  {
    k := 0;
    if line.allow(prior, hello) {
      k := FirstLost(line, history, prior, hello, times, 0, n);
    }
  }

  /** A refused hello, or the first page that does not pass, ends the attempt. */
  lemma {:induction false} LostPageFails(line: Line, history: SyncLog.Entries, prior: RateLimiter.Calls, hello: real,
                                         times: seq<real>, k: nat)
    requires CatchUp.Small(history) && k < CatchUp.PageCount(history) && k < |times|
    requires FailsAt(line, history, prior, hello, times, k)
    ensures var c := Run(line, Opened(line, history, prior, hello), Asks(times, k + 1)).system.client;
            c.end == Some(CatchUp.Failed) &&
            c.handed == CatchUp.Run(history, CatchUp.Pages(k), CatchUp.MAX_FRAMES_PER_PAGE).client.handed
  {
    var start := Opened(line, history, prior, hello);
    AskNext(line, start, times, k + 1);
    CatchUp.PagesSuffice(history, k);
    CatchUp.PagesOnlyRead(history, k);
    if line.allow(prior, hello) {
      PassingWalks(line, history, prior, hello, times, k);
    }
    assert !Arrives(line, Run(line, start, Asks(times, k)), times[k]);
  }

  /** Pulling a log that does not change hands over exactly the log if and only
      if the hello and the request of every one of its pages finds a token and
      every one of its pages can be read; otherwise the attempt fails. */
  lemma {:induction false} QuietPullExactly(line: Line, history: SyncLog.Entries, prior: RateLimiter.Calls,
                                            hello: real, times: seq<real>)
    requires CatchUp.Small(history) && CatchUp.PageCount(history) <= |times|
    ensures var c := Run(line, Opened(line, history, prior, hello), Asks(times, |times|)).system.client;
            if FirstPass(line, history, prior, hello, times, CatchUp.PageCount(history)) then
              c.end == Some(CatchUp.CaughtUp) && c.handed == SyncLog.Frames(SyncLog.Kept(history))
            else c.end == Some(CatchUp.Failed)
  {
    if FirstPass(line, history, prior, hello, times, CatchUp.PageCount(history)) {
      PassingPullCatchesUp(line, history, prior, hello, times);
    } else {
      FailingPullFails(line, history, prior, hello, times);
    }
  }

  lemma {:induction false} FailingPullFails(line: Line, history: SyncLog.Entries, prior: RateLimiter.Calls,
                                            hello: real, times: seq<real>)
    requires CatchUp.Small(history) && CatchUp.PageCount(history) <= |times|
    requires !FirstPass(line, history, prior, hello, times, CatchUp.PageCount(history))
    ensures Run(line, Opened(line, history, prior, hello), Asks(times, |times|)).system.client.end ==
            Some(CatchUp.Failed)
  {
    var k := FindFailure(line, history, prior, hello, times, CatchUp.PageCount(history));
    FailureFails(line, history, prior, hello, times, k);
  }

  lemma {:induction false} FailureFails(line: Line, history: SyncLog.Entries, prior: RateLimiter.Calls, hello: real,
                                        times: seq<real>, k: nat)
    requires CatchUp.Small(history) && k < CatchUp.PageCount(history) && k < |times|
    requires FailsAt(line, history, prior, hello, times, k)
    ensures Run(line, Opened(line, history, prior, hello), Asks(times, |times|)).system.client.end ==
            Some(CatchUp.Failed)
  {
    LostPageFails(line, history, prior, hello, times, k);
    FailsForGood(line, Opened(line, history, prior, hello), times, k + 1);
  }

  lemma {:induction false} FailsForGood(line: Line, start: Wire, times: seq<real>, k: nat)
    requires k <= |times| && Run(line, start, Asks(times, k)).system.client.end == Some(CatchUp.Failed)
    ensures Run(line, start, Asks(times, |times|)).system.client.end == Some(CatchUp.Failed)
  {
    EndedStays(line, start, times, k, |times|);
  }

  lemma {:induction false} PassingPullCatchesUp(line: Line, history: SyncLog.Entries, prior: RateLimiter.Calls,
                                                hello: real, times: seq<real>)
    requires CatchUp.Small(history) && CatchUp.PageCount(history) <= |times|
    requires FirstPass(line, history, prior, hello, times, CatchUp.PageCount(history))
    ensures var c := Run(line, Opened(line, history, prior, hello), Asks(times, |times|)).system.client;
            c.end == Some(CatchUp.CaughtUp) && c.handed == SyncLog.Frames(SyncLog.Kept(history))
  {
    PassingWalks(line, history, prior, hello, times, CatchUp.PageCount(history));
    CatchUp.PagesSuffice(history, CatchUp.PageCount(history));
    EndedStays(line, Opened(line, history, prior, hello), times, CatchUp.PageCount(history), |times|);
  }

  // ----- Conditions to check beforehand -----

  /** A server with its page limiter, and a client that reads what it is sent. */
  ghost const SERVER: Line :=
    Line((calls, at) => RateLimiter.HasToken(SYNC_PAGES, calls, at), r => Read(Encoded(r)) == Some(r))

  /** Everything at one instant: every time is that of the hello. */
  ghost function AtOnce(at: real, n: nat): (times: seq<real>)
    ensures |times| == n && forall k :: 0 <= k < n ==> times[k] == at
  {
    if n == 0 then [] else AtOnce(at, n - 1) + [at]
  }

  lemma {:induction false} TokensLeft(at: real, times: seq<real>, k: nat)
    requires k <= |times| && forall j :: 0 <= j < |times| ==> times[j] == at
    ensures RateLimiter.Before(SYNC_PAGES, Granted([], at, times, k), at) == 31.0 - k as real
  {
    if k > 0 {
      TokensLeft(at, times, k - 1);
      RateLimiter.Spent(SYNC_PAGES, Granted([], at, times, k - 1), at);
    } else {
      RateLimiter.Spent(SYNC_PAGES, [], at);
    }
  }

  ghost predicate AllFit(history: SyncLog.Entries) {
    forall k :: 0 <= k < CatchUp.PageCount(history) ==> Fits(CatchUp.PageAt(history, k))
  }

  /** On a fresh bucket and all at once, a log is pulled if and only if it takes
      at most 31 pages and each of them fits. */
  lemma {:induction false} InstantPullExactly(history: SyncLog.Entries, at: real, n: nat)
    requires CatchUp.Small(history) && |history| < Limit(10, 1) && CatchUp.PageCount(history) <= n
    ensures var c := Run(SERVER, Opened(SERVER, history, [], at), Asks(AtOnce(at, n), n)).system.client;
            if CatchUp.PageCount(history) <= 31 && AllFit(history) then
              c.end == Some(CatchUp.CaughtUp) && c.handed == SyncLog.Frames(SyncLog.Kept(history))
            else c.end == Some(CatchUp.Failed)
  {
    var times := AtOnce(at, n);
    QuietPullExactly(SERVER, history, [], at, times);
    PassAtOnce(history, at, times, CatchUp.PageCount(history));
  }

  lemma {:induction false} CursorsWithin(history: SyncLog.Entries, k: nat)
    ensures CatchUp.CursorAt(history, k) <= |history|
  {
    if k > 0 {
      CursorsWithin(history, k - 1);
      CatchUp.PageWithin(history, CatchUp.CursorAt(history, k - 1), CatchUp.MAX_FRAMES_PER_PAGE);
    }
  }

  /** The pages of a log counted in 64-bit words are readable if they fit. */
  lemma {:induction false} PageReadable(history: SyncLog.Entries, k: nat)
    requires |history| < Limit(10, 1)
    ensures HasWords(CatchUp.PageAt(history, k))
    ensures Read(Encoded(CatchUp.PageAt(history, k))) == Some(CatchUp.PageAt(history, k)) <==>
            Fits(CatchUp.PageAt(history, k))
  {
    CursorsWithin(history, k);
    SyncLog.KeptIsTail(history);
    CatchUp.PageMeaning(history, CatchUp.CursorAt(history, k), CatchUp.MAX_FRAMES_PER_PAGE);
    ReadableExactly(CatchUp.PageAt(history, k));
  }

  lemma {:induction false} PassAtOnce(history: SyncLog.Entries, at: real, times: seq<real>, n: nat)
    requires n <= |times| && forall j :: 0 <= j < |times| ==> times[j] == at
    requires |history| < Limit(10, 1)
    ensures FirstPass(SERVER, history, [], at, times, n) <==>
            n <= 31 && forall k :: 0 <= k < n ==> Fits(CatchUp.PageAt(history, k))
  {
    TokensLeft(at, times, 0);
    forall k | 0 <= k < n
      ensures Passes(SERVER, history, [], at, times, k) <==> k <= 30 && Fits(CatchUp.PageAt(history, k))
    {
      TokensLeft(at, times, k);
      PageReadable(history, k);
    }
    assert n > 0 && FirstPass(SERVER, history, [], at, times, n) ==> Passes(SERVER, history, [], at, times, n - 1);
  }

  /** When request number `i` is made: the hello, then the pages. */
  function RequestTime(hello: real, times: seq<real>, i: nat): real
    requires i <= |times|
  {
    if i == 0 then hello else times[i - 1]
  }

  lemma {:induction false} GrantedNext(hello: real, times: seq<real>, k: nat)
    requires 0 < k <= |times|
    ensures Granted([], hello, times, k)[..k] == Granted([], hello, times, k - 1)
    ensures Granted([], hello, times, k)[k] == RateLimiter.Call(times[k - 1], true)
  {
  }

  lemma {:induction false} GrantedAre(hello: real, times: seq<real>, k: nat, i: nat)
    requires i <= k <= |times|
    ensures Granted([], hello, times, k)[i] == RateLimiter.Call(RequestTime(hello, times, i), true)
    decreases k
  {
    if k > 0 {
      GrantedNext(hello, times, k);
      if i < k {
        GrantedAre(hello, times, k - 1, i);
        assert Granted([], hello, times, k)[..k][i] == Granted([], hello, times, k)[i];
      }
    }
  }

  lemma {:induction false} AllowedCount(calls: RateLimiter.Calls, i: nat)
    requires i <= |calls| && forall j :: 0 <= j < |calls| ==> calls[j].allowed
    ensures RateLimiter.Allowed(calls, i) == |calls| - i
    decreases |calls|
  {
    if i < |calls| {
      AllowedCount(calls[..|calls| - 1], i);
    }
  }

  /** One call more would exceed the burst and what flowed in since call `i`. */
  ghost predicate IsOverfull(calls: RateLimiter.Calls, i: nat, at: real)
    requires i <= |calls|
  {
    RateLimiter.Allowed(calls, i) as real + 1.0 > SYNC_PAGES.burst + RateLimiter.Refill(SYNC_PAGES, calls, i, at)
  }

  lemma {:induction false} RefusedIfOverfull(calls: RateLimiter.Calls, at: real)
    ensures !RateLimiter.HasToken(SYNC_PAGES, calls, at) <==> exists i :: 0 <= i <= |calls| && IsOverfull(calls, i, at)
  {
    var least := RateLimiter.LeastHeadroom(SYNC_PAGES, calls, at);
    if !RateLimiter.HasToken(SYNC_PAGES, calls, at) {
      assert IsOverfull(calls, least, at);
    }
    if i :| 0 <= i <= |calls| && IsOverfull(calls, i, at) {
      assert RateLimiter.Before(SYNC_PAGES, calls, at) <= RateLimiter.Headroom(SYNC_PAGES, calls, i, at);
    }
  }

  /** On a fresh bucket page number `k` is let through after all earlier
      requests if and only if no window of requests ending with it exceeds the
      burst plus what the window's time refills. */
  lemma {:induction false} PacedExactly(hello: real, times: seq<real>, k: nat)
    requires k < |times| && RateLimiter.Monotone(Granted([], hello, times, k), times[k])
    ensures RateLimiter.HasToken(SYNC_PAGES, Granted([], hello, times, k), times[k]) <==>
            forall i :: 0 <= i <= k ==>
              (k + 2 - i) as real <= 32.0 + 4.0 * (times[k] - RequestTime(hello, times, i))
  {
    var calls := Granted([], hello, times, k);
    forall j | 0 <= j <= k
      ensures calls[j] == RateLimiter.Call(RequestTime(hello, times, j), true)
    {
      GrantedAre(hello, times, k, j);
    }
    AllowedCount(calls, k + 1);
    RefusedIfOverfull(calls, times[k]);
    assert RateLimiter.Refill(SYNC_PAGES, calls, k + 1, times[k]) == 0.0;
    forall i | 0 <= i <= k
      ensures (k + 2 - i) as real <= 32.0 + 4.0 * (times[k] - RequestTime(hello, times, i)) <==>
              !IsOverfull(calls, i, times[k])
    {
      AllowedCount(calls, i);
      RateLimiter.RefillIsLinear(SYNC_PAGES, calls, i, times[k]);
      RateLimiter.FlowIs(SYNC_PAGES, times[k] - RequestTime(hello, times, i));
    }
    if !RateLimiter.HasToken(SYNC_PAGES, calls, times[k]) {
      var i :| 0 <= i <= |calls| && IsOverfull(calls, i, times[k]);
      assert i <= k;
      assert !((k + 2 - i) as real <= 32.0 + 4.0 * (times[k] - RequestTime(hello, times, i)));
    } else {
      forall i | 0 <= i <= k
        ensures (k + 2 - i) as real <= 32.0 + 4.0 * (times[k] - RequestTime(hello, times, i))
      {
        assert !IsOverfull(calls, i, times[k]);
      }
    }
  }

  lemma {:induction false} VarintLength(n: nat, left: nat, last: Byte)
    requires n < Limit(left, last) && last < 128
    ensures |Varint(n)| <= left
  {
    if n >= 128 {
      VarintLength(n / 128, left - 1, last);
    }
  }

  lemma {:induction false} ShortVarint(n: nat)
    ensures n < 0x4000 ==> |Varint(n)| <= 2
    ensures n < 0x20_0000 ==> |Varint(n)| <= 3
  {
    assert Limit(2, 127) == 0x4000 && Limit(3, 127) == 0x20_0000;
    if n < 0x4000 {
      VarintLength(n, 2, 127);
    } else if n < 0x20_0000 {
      VarintLength(n, 3, 127);
    }
  }

  lemma {:induction false} FramesSizeBound(w: SyncLog.Entries)
    requires CatchUp.Small(w)
    ensures FramesSize(SyncLog.Frames(w)) <= SyncLog.Size(w) + 3 * |w|
  {
    if w != [] {
      assert CatchUp.Small(w[1..]) by {
        assert forall i :: 0 <= i < |w[1..]| ==> w[1..][i] == w[i + 1];
      }
      FramesSizeBound(w[1..]);
      ShortVarint(|w[0].frame|);
    }
  }

  /** Thirty bytes of headers and three for each frame are enough. */
  const HEADERS: nat := 30

  const OVERHEAD: nat := 3 * CatchUp.MAX_FRAMES_PER_PAGE + HEADERS

  lemma {:induction false} RoomForOverhead(r: CatchUp.Response, w: SyncLog.Entries)
    requires r.frames == SyncLog.Frames(w) && CatchUp.Small(w) && |w| <= CatchUp.MAX_FRAMES_PER_PAGE && HasWords(r)
    requires SyncLog.Size(w) + 3 * |w| + HEADERS <= CatchUp.MAX_RESPONSE_BYTES
    ensures Fits(r)
  {
    FramesSizeBound(w);
    ShortVarint(|r.frames|);
    VarintLength(r.oldestCursor, 10, 1);
    if r.nextCursor.Some? {
      VarintLength(r.nextCursor.value, 10, 1);
    }
    ShortVarint(PayloadSize(r));
  }

  /** A log whose frames leave the overhead of one page free is readable page
      by page. */
  lemma {:induction false} LightLogFits(history: SyncLog.Entries)
    requires CatchUp.Small(history) && |history| < Limit(10, 1)
    requires SyncLog.Size(SyncLog.Kept(history)) + OVERHEAD <= CatchUp.MAX_RESPONSE_BYTES
    ensures AllFit(history)
  {
    forall k | 0 <= k < CatchUp.PageCount(history)
      ensures Fits(CatchUp.PageAt(history, k))
    {
      LightPageFits(history, k);
    }
  }

  lemma {:induction false} LightPageFits(history: SyncLog.Entries, k: nat)
    requires CatchUp.Small(history) && |history| < Limit(10, 1)
    requires SyncLog.Size(SyncLog.Kept(history)) + OVERHEAD <= CatchUp.MAX_RESPONSE_BYTES
    ensures Fits(CatchUp.PageAt(history, k))
  {
    var start, cursor := SyncLog.Start(history), CatchUp.CursorAt(history, k);
    var from, to := Max(cursor, start), CatchUp.PageEnd(history, cursor, CatchUp.MAX_FRAMES_PER_PAGE);
    CursorsWithin(history, k);
    CatchUp.PageWithin(history, cursor, CatchUp.MAX_FRAMES_PER_PAGE);
    PageIsShort(history, cursor);
    PartIsLighter(history, from, to);
    RoomForOverhead(CatchUp.PageAt(history, k), history[from..to]);
  }

  lemma {:induction false} PageIsShort(history: SyncLog.Entries, cursor: nat)
    requires cursor <= |history|
    ensures var page, from := CatchUp.Served(history, cursor, CatchUp.MAX_FRAMES_PER_PAGE),
            Max(cursor, SyncLog.Start(history));
            && CatchUp.PageEnd(history, cursor, CatchUp.MAX_FRAMES_PER_PAGE) - from <= CatchUp.MAX_FRAMES_PER_PAGE
            && page.oldestCursor == SyncLog.Start(history)
  {
    CatchUp.PageMeaning(history, cursor, CatchUp.MAX_FRAMES_PER_PAGE);
  }

  lemma {:induction false} PartIsLighter(history: SyncLog.Entries, from: nat, to: nat)
    requires CatchUp.Small(history) && SyncLog.Start(history) <= from <= to <= |history|
    ensures CatchUp.Small(history[from..to])
    ensures SyncLog.Size(history[from..to]) <= SyncLog.Size(SyncLog.Kept(history))
  {
    var start := SyncLog.Start(history);
    SyncLog.KeptIsTail(history);
    CatchUp.SizeSplit(history, start, from, to);
    CatchUp.SizeSplit(history, start, to, |history|);
    WholeTail(history, start);
    forall i | 0 <= i < to - from
      ensures |history[from..to][i].frame| <= MAX_MESSAGE_SIZE
    {
      assert history[from..to][i] == history[from + i];
    }
  }

  // ----- Two kinds of log that cannot be pulled -----

  ghost predicate AllSized(w: SyncLog.Entries, size: nat) {
    forall i :: 0 <= i < |w| ==> |w[i].frame| == size
  }

  function Times(n: nat, size: nat): nat {
    if n == 0 then 0 else size + Times(n - 1, size)
  }

  lemma {:induction false} SizedIs(w: SyncLog.Entries, size: nat)
    requires AllSized(w, size)
    ensures SyncLog.Size(w) == Times(|w|, size)
    ensures FramesSize(SyncLog.Frames(w)) == Times(|w|, Prefixed(size))
  {
    if w != [] {
      assert AllSized(w[1..], size) by {
        assert forall i :: 0 <= i < |w| - 1 ==> w[1..][i] == w[i + 1];
      }
      SizedIs(w[1..], size);
    }
  }

  lemma {:induction false} TimesIs(n: nat, size: nat)
    ensures Times(n, size) == n * size
  {
    if n > 0 {
      TimesIs(n - 1, size);
    }
  }

  lemma {:induction false} AllIsKept(history: SyncLog.Entries)
    requires SyncLog.Fits(history)
    ensures SyncLog.Start(history) == 0 && SyncLog.Kept(history) == history
  {
    SyncLog.KeptIsTail(history);
    assert history[0..] == history;
    if SyncLog.Start(history) > 0 {
      SyncLog.KeptIsLongest(history, 0);
      assert false;
    }
  }

  /** A page of equal frames: as many as the byte budget and the count allow. */
  lemma {:induction false} UniformPage(history: SyncLog.Entries, size: nat, cursor: nat)
    requires AllSized(history, size) && SyncLog.Start(history) == 0 && cursor < |history| && size > 0
    ensures var to := CatchUp.PageEnd(history, cursor, CatchUp.MAX_FRAMES_PER_PAGE);
            && cursor <= to <= |history| && to - cursor <= CatchUp.MAX_FRAMES_PER_PAGE
            && (to - cursor) * size <= CatchUp.MAX_RESPONSE_BYTES
            && (to < |history| && to - cursor < CatchUp.MAX_FRAMES_PER_PAGE ==>
                  (to - cursor + 1) * size > CatchUp.MAX_RESPONSE_BYTES)
    ensures var page := CatchUp.Served(history, cursor, CatchUp.MAX_FRAMES_PER_PAGE);
            var to := CatchUp.PageEnd(history, cursor, CatchUp.MAX_FRAMES_PER_PAGE);
            && page.frames == SyncLog.Frames(history[cursor..to]) && page.oldestCursor == 0
            && page.nextCursor == (if to == |history| then None else Some(to))
            && FramesSize(page.frames) == (to - cursor) * Prefixed(size)
  {
    var to := CatchUp.PageEnd(history, cursor, CatchUp.MAX_FRAMES_PER_PAGE);
    CatchUp.PageMeaning(history, cursor, CatchUp.MAX_FRAMES_PER_PAGE);
    SliceIs(history, size, cursor, to);
    if to < |history| {
      SliceIs(history, size, cursor, to + 1);
    }
  }

  lemma {:induction false} SliceIs(history: SyncLog.Entries, size: nat, from: nat, to: nat)
    requires AllSized(history, size) && from <= to <= |history|
    ensures SyncLog.Size(history[from..to]) == (to - from) * size
    ensures FramesSize(SyncLog.Frames(history[from..to])) == (to - from) * Prefixed(size)
  {
    assert AllSized(history[from..to], size) by {
      assert forall i :: 0 <= i < to - from ==> history[from..to][i] == history[from + i];
    }
    SizedIs(history[from..to], size);
    TimesIs(to - from, size);
    TimesIs(to - from, Prefixed(size));
  }

  lemma {:induction false} SizedIsKept(history: SyncLog.Entries, size: nat)
    requires AllSized(history, size)
    requires |history| <= SyncLog.SYNC_LOG_CAP && |history| * size <= SyncLog.SYNC_LOG_MAX_BYTES
    ensures SyncLog.Start(history) == 0 && SyncLog.Kept(history) == history
  {
    SizedIs(history, size);
    TimesIs(|history|, size);
    AllIsKept(history);
  }

  lemma {:induction false} FullPage(history: SyncLog.Entries)
    requires AllSized(history, 2048) && |history| == 256 && SyncLog.Start(history) == 0
    ensures !Fits(CatchUp.PageAt(history, 0))
  {
    UniformPage(history, 2048, 0);
    assert |Varint(2048)| == 2;
    assert FramesSize(CatchUp.PageAt(history, 0).frames) == 256 * 2050;
  }

  lemma {:induction false} SizedIsSmall(history: SyncLog.Entries, size: nat)
    requires AllSized(history, size) && size <= MAX_MESSAGE_SIZE
    ensures CatchUp.Small(history)
  {
  }

  /** Any 256 frames of 2048 bytes fill the server's page budget to the byte, and
      with their lengths no longer fit what the client reads: whenever it asks,
      it gets nothing. */
  lemma {:induction false} FullPageIsLost(history: SyncLog.Entries, prior: RateLimiter.Calls, hello: real, at: real)
    requires AllSized(history, 2048) && |history| == 256
    ensures SyncLog.Kept(history) == history
    ensures var c := Run(SERVER, Opened(SERVER, history, prior, hello), Asks([at], 1)).system.client;
            c.end == Some(CatchUp.Failed) && c.handed == []
  {
    SizedIsKept(history, 2048);
    FullPage(history);
    SizedIsSmall(history, 2048);
    LosesAll(history, prior, hello, at);
  }

  /** A log whose first page does not fit is lost whole. */
  lemma {:induction false} LosesAll(history: SyncLog.Entries, prior: RateLimiter.Calls, hello: real, at: real)
    requires CatchUp.Small(history) && |history| < Limit(10, 1) && !Fits(CatchUp.PageAt(history, 0))
    ensures var c := Run(SERVER, Opened(SERVER, history, prior, hello), Asks([at], 1)).system.client;
            c.end == Some(CatchUp.Failed) && c.handed == []
  {
    PageReadable(history, 0);
    assert !Passes(SERVER, history, prior, hello, [at], 0);
    LostPageFails(SERVER, history, prior, hello, [at], 0);
  }

  // ----- Frames of 40000 bytes, thirteen to a page -----

  const HEAVY: nat := 40000

  lemma {:induction false} HeavyEnd(history: SyncLog.Entries, cursor: nat)
    requires AllSized(history, HEAVY) && |history| == 416 && SyncLog.Start(history) == 0 && cursor <= 403
    ensures CatchUp.PageEnd(history, cursor, CatchUp.MAX_FRAMES_PER_PAGE) == cursor + 13
    ensures var page := CatchUp.Served(history, cursor, CatchUp.MAX_FRAMES_PER_PAGE);
            && |page.frames| == 13 && FramesSize(page.frames) == 13 * Prefixed(HEAVY) && page.oldestCursor == 0
            && (page.nextCursor.Some? ==> page.nextCursor.value == cursor + 13)
  {
    UniformPage(history, HEAVY, cursor);
  }

  lemma {:induction false} HeavyCursor(history: SyncLog.Entries, k: nat)
    requires AllSized(history, HEAVY) && |history| == 416 && SyncLog.Start(history) == 0 && k <= 32
    ensures CatchUp.CursorAt(history, k) == 13 * k
  {
    if k > 0 {
      HeavyCursor(history, k - 1);
      HeavyEnd(history, 13 * (k - 1));
    }
  }

  lemma {:induction false} HeavyPage(history: SyncLog.Entries, k: nat)
    requires AllSized(history, HEAVY) && |history| == 416 && SyncLog.Start(history) == 0 && k < 32
    ensures CatchUp.IsLast(history, k) <==> k == 31
    ensures Fits(CatchUp.PageAt(history, k))
  {
    HeavyCursor(history, k);
    HeavyCursor(history, k + 1);
    HeavyEnd(history, 13 * k);
    HeavyFits(CatchUp.PageAt(history, k));
  }

  lemma {:induction false} HeavyFits(page: CatchUp.Response)
    requires |page.frames| == 13 && FramesSize(page.frames) == 13 * Prefixed(HEAVY) && page.oldestCursor == 0
    requires page.nextCursor.Some? ==> page.nextCursor.value < 0x4000
    ensures Fits(page)
  {
    ShortVarint(HEAVY);
    ShortVarint(13);
    ShortVarint(0);
    if page.nextCursor.Some? {
      ShortVarint(page.nextCursor.value);
    }
    ShortVarint(PayloadSize(page));
  }

  lemma {:induction false} HeavyCount(history: SyncLog.Entries)
    requires AllSized(history, HEAVY) && |history| == 416 && SyncLog.Start(history) == 0
    ensures CatchUp.PageCount(history) == 32
  {
    var n := CatchUp.PageCount(history);
    HeavyPage(history, 31);
    if n > 32 {
      CatchUp.PagesFromAre(history, 0, 31);
    } else if n < 32 {
      CatchUp.PagesFromEnd(history, 0);
      HeavyPage(history, n - 1);
    }
  }

  /** Any 416 frames of 40000 bytes take 32 pages, and every page fits; but with
      the hello that is 33 requests, and pulled at once on a fresh bucket the last
      one is refused: the attempt fails 13 frames short. */
  lemma {:induction false} LongPullIsRefused(history: SyncLog.Entries, at: real)
    requires AllSized(history, HEAVY) && |history| == 416
    ensures SyncLog.Kept(history) == history && CatchUp.PageCount(history) == 32 && AllFit(history)
    ensures var c := Run(SERVER, Opened(SERVER, history, [], at), Asks(AtOnce(at, 32), 32)).system.client;
            c.end == Some(CatchUp.Failed) && c.handed == SyncLog.Frames(history[..403])
  {
    SizedIsKept(history, HEAVY);
    SizedIsSmall(history, HEAVY);
    HeavyCount(history);
    forall k | 0 <= k < 32
      ensures Fits(CatchUp.PageAt(history, k))
    {
      HeavyPage(history, k);
    }
    RefusedAt31(history, at);
  }

  lemma {:induction false} RefusedAt31(history: SyncLog.Entries, at: real)
    requires AllSized(history, HEAVY) && |history| == 416 && SyncLog.Start(history) == 0
    requires CatchUp.Small(history) && CatchUp.PageCount(history) == 32 && AllFit(history)
    ensures var c := Run(SERVER, Opened(SERVER, history, [], at), Asks(AtOnce(at, 32), 32)).system.client;
            c.end == Some(CatchUp.Failed) && c.handed == SyncLog.Frames(history[..403])
  {
    var times := AtOnce(at, 32);
    PassAtOnce(history, at, times, 31);
    PassAtOnce(history, at, times, 32);
    LostPageFails(SERVER, history, [], at, times, 31);
    CatchUp.PagesSuffice(history, 31);
    CatchUp.PagesOnlyRead(history, 31);
    CatchUp.QuietPull(history, 31);
    HeavyCursor(history, 31);
    assert history[0..403] == history[..403];
  }
}
