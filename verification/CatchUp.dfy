/** Catch-up: a late joiner pulls a peer's frame log page by page while that
    peer keeps retaining and evicting. */
module CatchUp {
  import opened Common
  import opened SyncLog
  import SyncRequest

  const MAX_RESPONSE_BYTES: nat := 512 * 1024
  const MAX_FRAMES_PER_PAGE: nat := 256
  const MAX_TOTAL_FRAMES: nat := 8192
  const MAX_PAGES_PER_ATTEMPT: nat := 128
  const MAX_TOTAL_BYTES_PER_ATTEMPT: nat := 64 * 1024 * 1024

  datatype Response = Response(nextCursor: Option<nat>, frames: seq<Bytes>, oldestCursor: nat, truncated: bool)

  // ----- The serving side -----

  /** How many frames fit a byte budget, counted from the front. */
  ghost function Cut(frames: seq<Bytes>, budget: nat): (kept: nat)
    ensures kept <= |frames|
  {
    if frames == [] || |frames[0]| > budget then 0 else 1 + Cut(frames[1..], budget - |frames[0]|)
  }

  ghost function PageSize(maxFrames: nat): (max: nat)
    ensures 1 <= max <= MAX_FRAMES_PER_PAGE
  {
    Max(1, Min(maxFrames, MAX_FRAMES_PER_PAGE))
  }

  ghost function Served(history: Entries, cursor: nat, maxFrames: nat): Response {
    var page := PageOf(history, cursor, PageSize(maxFrames));
    var kept := Cut(page.frames, MAX_RESPONSE_BYTES);
    var dropped := |page.frames| - kept;
    Response(if page.caughtUp && dropped == 0 then None else Some(Max(0, page.endCursor - dropped)),
             page.frames[..kept], page.oldestCursor, 0 < cursor < page.oldestCursor)
  }

  const REFUSAL := Response(None, [], 0, false)

  /** May the requester have this page? A private drop's only with a proof made
      with its key; a relay without the key serves nobody. */
  predicate MayServe(private: bool, key: Option<Bytes>, codes: set<SyncRequest.Code>, request: SyncRequest.Request,
                     peer: Bytes, self: Bytes)
  {
    private ==> SyncRequest.Proven(codes, key, request, peer, self)
  }

  /** One page for a session's log. There may be no session, and a private drop
      refuses: both get a page that looks like the end of an empty log. */
  method ServePage(log: FrameLog?, private: bool, key: Option<Bytes>, codes: set<SyncRequest.Code>,
                   request: SyncRequest.Request, peer: Bytes, self: Bytes) returns (response: Response)
    requires log != null ==> log.Valid()
    ensures response == if log == null || !MayServe(private, key, codes, request, peer, self) then REFUSAL
                        else Served(log.history, request.cursor, request.maxFrames)
    ensures log != null && !private ==> response == Served(log.history, request.cursor, request.maxFrames)
    ensures private && (key.None? || request.keyProof.None?) ==> response == Response(None, [], 0, false)
    ensures private && key.Some? && request.keyProof.Some? ==>
              var text := SyncRequest.ProofText(peer, self, request);
              response ==
              if log != null && SyncRequest.Code(key.value, request.topicId, text, request.keyProof.value) in codes
                  then Served(log.history, request.cursor, request.maxFrames)
                  else Response(None, [], 0, false)
  {
    if log == null {
      return REFUSAL;
    }
    if private {
      var proven := SyncRequest.Proven(codes, key, request, peer, self);
      if !proven {
        return REFUSAL;
      }
    }
    response := BuildPage(log, request.cursor, request.maxFrames);
  }

  /** What an honest keyed client sends is decoded to the page it asked for, and
      a server with its key may serve it; a server without a key never may. */
  lemma {:induction false} HonestIsServed(key: Bytes, codes: set<SyncRequest.Code>, request: SyncRequest.Request,
                                          proof: Bytes, peer: Bytes, self: Bytes, tail: Bytes)
    requires SyncRequest.RequestCodec.ok(request.(keyProof := Some(proof)))
    requires SyncRequest.Code(key, request.topicId, SyncRequest.ProofText(peer, self, request), proof) in codes
    ensures var got := SyncRequest.Decode(SyncRequest.Sent(request, proof) + tail);
            && got.Some? && got.value.cursor == request.cursor && got.value.maxFrames == request.maxFrames
            && MayServe(true, Some(key), codes, got.value, peer, self)
            && !MayServe(true, None, codes, got.value, peer, self)
  {
    SyncRequest.HonestProofHolds(codes, key, request, proof, peer, self, tail);
  }

  /** A private drop's page goes to nobody but the one the proof was made for, by
      the one it was made to, and for the page it asked for. */
  lemma {:induction false} OnlyTheAskerIsServed(key: Option<Bytes>, codes: set<SyncRequest.Code>,
                                                request: SyncRequest.Request, peer: Bytes, self: Bytes,
                                                made: SyncRequest.Request, client: Bytes, server: Bytes)
    requires MayServe(true, key, codes, request, peer, self)
    requires SyncRequest.RequestCodec.ok(request) && SyncRequest.RequestCodec.ok(made)
    requires |peer| == |self| == |client| == |server| == 32
    requires forall c :: c in codes && key == Some(c.key) && request.keyProof == Some(c.code) &&
                         c.topic == request.topicId ==>
                c.text == SyncRequest.ProofText(client, server, made)
    ensures key.Some? && request.keyProof.Some?
    ensures peer == client && self == server
    ensures request.topicId == made.topicId && request.cursor == made.cursor && request.maxFrames == made.maxFrames
  {
    SyncRequest.ProofIsNotPortable(codes, key.value, request, peer, self, made, client, server);
    assert SyncRequest.Stripped(request) == SyncRequest.Stripped(made);
  }

  /** The page itself: by count first, then by bytes. */
  method BuildPage(log: FrameLog, cursor: nat, maxFrames: nat) returns (response: Response)
    requires log.Valid()
    ensures response == Served(log.history, cursor, maxFrames)
  {
    var max := Max(1, Min(maxFrames, MAX_FRAMES_PER_PAGE));
    var page := log.SyncFrames(cursor, max);
    var budget: nat := MAX_RESPONSE_BYTES;
    var kept := |page.frames|;
    var i := 0;
    while i < |page.frames|
      invariant i <= |page.frames| == kept
      invariant Cut(page.frames, MAX_RESPONSE_BYTES) == i + Cut(page.frames[i..], budget)
    {
      var frame := page.frames[i];
      CutNext(page.frames, i, budget);
      if |frame| > budget {
        kept := i;
        break;
      }
      budget := budget - |frame|;
      i := i + 1;
    }
    var dropped := |page.frames| - kept;
    var nextCursor := if page.caughtUp && dropped == 0 then None else Some(Max(0, page.endCursor - dropped));
    response := Response(nextCursor, page.frames[..kept], page.oldestCursor, cursor != 0 && cursor < page.oldestCursor);
  }

  lemma {:induction false} CutNext(frames: seq<Bytes>, i: nat, budget: nat)
    requires i < |frames|
    ensures Cut(frames[i..], budget) ==
            if |frames[i]| > budget then 0 else 1 + Cut(frames[i + 1..], budget - |frames[i]|)
  {
    assert frames[i..][1..] == frames[i + 1..];
  }

  /** Persisting the history reads the quiescent log page by page and gets
      exactly the log. */
  method ExportHistory(log: FrameLog) returns (frames: seq<Bytes>)
    requires log.Valid()
    ensures frames == Frames(Kept(log.history))
  {
    ghost var history := log.history;
    var end := log.syncLogStart + |log.syncLog|;
    frames := [];
    var cursor := 0;
    KeptIsWhole(history);
    assert history[Start(history)..Start(history)] == [];
    while true
      invariant cursor <= |history| == end
      invariant frames == Frames(history[Start(history)..Max(cursor, Start(history))])
      decreases end - cursor, |frames| == 0
    {
      var page := log.SyncFrames(cursor, 256);
      ExportStep(history, cursor);
      if page.frames == [] {
        break;
      }
      cursor := page.endCursor;
      frames := frames + page.frames;
      if page.caughtUp {
        break;
      }
    }
  }

  lemma {:induction false} ExportStep(history: Entries, cursor: nat)
    requires cursor <= |history|
    ensures var page, start := PageOf(history, cursor, 256), Start(history);
            if page.frames == [] then Max(cursor, start) == |history|
            else start <= Max(cursor, start) < page.endCursor <= |history| &&
                 (page.caughtUp ==> page.endCursor == |history|) &&
                 Frames(history[start..Max(cursor, start)]) + page.frames == Frames(history[start..page.endCursor])
  {
    var page, start := PageOf(history, cursor, 256), Start(history);
    var from := Max(cursor, start);
    if from < |history| {
      var to := Min(from + 256, |history|);
      FramesSplit(history, start, from, to);
    }
  }

  lemma {:induction false} FramesSplit(history: Entries, i: nat, j: nat, k: nat)
    requires i <= j <= k <= |history|
    ensures Frames(history[i..j]) + Frames(history[j..k]) == Frames(history[i..k])
  {
    assert history[i..k] == history[i..j] + history[j..k];
    FramesConcat(history[i..j], history[j..k]);
  }

  lemma {:induction false} KeptIsWhole(history: Entries)
    ensures Kept(history) == history[Start(history)..|history|]
  {
    KeptIsTail(history);
    WholeTail(history, Start(history));
  }

  // ----- What a page means -----

  /** Where the page stops: one past the last frame in it. */
  ghost function PageEnd(history: Entries, cursor: nat, maxFrames: nat): nat {
    Max(cursor, Start(history)) + |Served(history, cursor, maxFrames).frames|
  }

  lemma {:induction false} CutIsLargest(w: Entries, budget: nat)
    ensures var kept := Cut(Frames(w), budget);
            Size(w[..kept]) <= budget && (kept < |w| ==> Size(w[..kept + 1]) > budget)
  {
    if w != [] && |w[0].frame| <= budget {
      var kept := Cut(Frames(w[1..]), budget - |w[0].frame|);
      CutIsLargest(w[1..], budget - |w[0].frame|);
      assert w[..kept + 1][1..] == w[1..][..kept];
      if kept + 1 < |w| {
        assert w[..kept + 2][1..] == w[1..][..kept + 1];
      }
    }
  }

  lemma {:induction false} ServedAt(history: Entries, cursor: nat, maxFrames: nat, from: nat, end: nat, kept: nat)
    requires from == Max(cursor, Start(history)) < |history|
    requires end == Min(from + PageSize(maxFrames), |history|)
    requires kept == Cut(Frames(history[from..end]), MAX_RESPONSE_BYTES)
    ensures from + kept <= end
    ensures Served(history, cursor, maxFrames) ==
            Response(if from + kept == |history| then None else Some(from + kept),
                     Frames(history[from..end])[..kept], Start(history), 0 < cursor < Start(history))
  {
    var page := PageOf(history, cursor, PageSize(maxFrames));
    assert page == SyncPage(Frames(history[from..end]), end, end == |history|, Start(history));
  }

  /** A page is the longest run of consecutive frames, from the first one asked
      for that is still kept, within the frame limit and the byte budget; the
      next cursor is where it stops, or none at the end of the log. */
  lemma {:induction false} PageMeaning(history: Entries, cursor: nat, maxFrames: nat)
    ensures var r := Served(history, cursor, maxFrames);
            var from, to := Max(cursor, Start(history)), PageEnd(history, cursor, maxFrames);
            var limit := if maxFrames == 0 then 1 else if maxFrames <= 256 then maxFrames else 256;
            && r.oldestCursor == Start(history)
            && (r.truncated <==> 0 < cursor < Start(history))
            && (from >= |history| ==> r.frames == [] && r.nextCursor == None)
            && (from < |history| ==>
                  && from <= to <= |history| && to - from <= limit
                  && r.frames == Frames(history[from..to])
                  && Size(history[from..to]) <= MAX_RESPONSE_BYTES
                  && (to < |history| && to - from < limit ==>
                      Size(history[from..to + 1]) > MAX_RESPONSE_BYTES)
                  && r.nextCursor == if to == |history| then None else Some(to))
  {
    PageSizeIs(maxFrames);
    PageRuns(history, cursor, maxFrames);
  }

  lemma {:induction false} PageSizeIs(maxFrames: nat)
    ensures PageSize(maxFrames) == if maxFrames == 0 then 1 else if maxFrames <= 256 then maxFrames else 256
  {
  }

  lemma {:induction false} PageRuns(history: Entries, cursor: nat, maxFrames: nat)
    ensures var r := Served(history, cursor, maxFrames);
            var from, to := Max(cursor, Start(history)), PageEnd(history, cursor, maxFrames);
            && r.oldestCursor == Start(history)
            && (r.truncated <==> 0 < cursor < Start(history))
            && (from >= |history| ==> r.frames == [] && r.nextCursor == None)
            && (from < |history| ==>
                  && from <= to <= |history| && to - from <= PageSize(maxFrames)
                  && r.frames == Frames(history[from..to])
                  && Size(history[from..to]) <= MAX_RESPONSE_BYTES
                  && (to < |history| && to - from < PageSize(maxFrames) ==>
                      Size(history[from..to + 1]) > MAX_RESPONSE_BYTES)
                  && r.nextCursor == if to == |history| then None else Some(to))
  {
    var from := Max(cursor, Start(history));
    if from < |history| {
      var end := Min(from + PageSize(maxFrames), |history|);
      var w := history[from..end];
      var kept := Cut(Frames(w), MAX_RESPONSE_BYTES);
      ServedAt(history, cursor, maxFrames, from, end, kept);
      assert PageEnd(history, cursor, maxFrames) == from + kept;
      RunFits(history, from, end, kept);
    }
  }

  lemma {:induction false} RunFits(history: Entries, from: nat, end: nat, kept: nat)
    requires from <= end <= |history|
    requires kept == Cut(Frames(history[from..end]), MAX_RESPONSE_BYTES)
    ensures from + kept <= end
    ensures Frames(history[from..end])[..kept] == Frames(history[from..from + kept])
    ensures Size(history[from..from + kept]) <= MAX_RESPONSE_BYTES
    ensures from + kept < end ==> Size(history[from..from + kept + 1]) > MAX_RESPONSE_BYTES
  {
    var w := history[from..end];
    CutIsLargest(w, MAX_RESPONSE_BYTES);
    FramesSlice(w, 0, kept);
    assert w[0..kept] == w[..kept] == history[from..from + kept];
    assert Frames(w)[0..kept] == Frames(w)[..kept];
    if kept < |w| {
      assert w[..kept + 1] == history[from..from + kept + 1];
    }
  }

  /** The same for a cursor within the history, as every honest one is. */
  lemma {:induction false} PageWithin(history: Entries, cursor: nat, maxFrames: nat)
    requires cursor <= |history|
    ensures var r := Served(history, cursor, maxFrames);
            var from, to := Max(cursor, Start(history)), PageEnd(history, cursor, maxFrames);
            && from <= to <= |history|
            && r.frames == Frames(history[from..to])
            && r.nextCursor == if to == |history| then None else Some(to)
  {
    PageMeaning(history, cursor, maxFrames);
    var from := Max(cursor, Start(history));
    if from == |history| {
      assert history[from..from] == [];
    }
  }

  // ----- The pulling side -----

  datatype End = CaughtUp | Stalled | Failed | PageBudget | FrameBudget | ByteBudget

  /** One attempt against one peer: its counters, the frames handed to replay,
      and how it ended, once it has. */
  datatype Client = Client(cursor: nat, total: nat, totalBytes: nat, pages: nat, handed: seq<Bytes>, end: Option<End>)

  const FRESH := Client(0, 0, 0, 0, [], None)

  ghost function HandOver(c: Client, frames: seq<Bytes>): Client
    decreases |frames|
  {
    if frames == [] || c.end.Some? then c
    else
      var total, totalBytes := c.total + 1, c.totalBytes + |frames[0]|;
      var counted := c.(total := total, totalBytes := totalBytes);
      if total > MAX_TOTAL_FRAMES then counted.(end := Some(FrameBudget))
      else if totalBytes > MAX_TOTAL_BYTES_PER_ATTEMPT then counted.(end := Some(ByteBudget))
      else HandOver(counted.(handed := c.handed + [frames[0]]), frames[1..])
  }

  /** One round trip; no reply stands for every way a request can fail. */
  ghost function TakePage(c: Client, reply: Option<Response>): Client {
    if c.end.Some? then c
    else if reply.None? then c.(end := Some(Failed))
    else
      var r := reply.value;
      var asked := c.(pages := c.pages + 1);
      if asked.pages > MAX_PAGES_PER_ATTEMPT then asked.(end := Some(PageBudget))
      else
        var after := HandOver(asked, r.frames);
        if after.end.Some? then after
        else if r.nextCursor.None? then after.(end := Some(CaughtUp))
        else if r.nextCursor.value > c.cursor then after.(cursor := r.nextCursor.value)
        else after.(end := Some(Stalled))
  }

  ghost function Pull(replies: seq<Option<Response>>): Client {
    if replies == [] then FRESH
    else TakePage(Pull(replies[..|replies| - 1]), replies[|replies| - 1])
  }

  /** The page loop, against a peer that may answer anything: `replies` is what
      it would say, request by request. Once they run out it says nothing. */
  method SyncCatchup(replies: seq<Option<Response>>) returns (handed: seq<Bytes>, asked: nat, ghost c: Client)
    ensures asked <= |replies| && c == Pull(replies[..asked]) && c.handed == handed
    ensures c.end.Some? || asked == |replies|
  {
    var cursor: nat, total: nat, totalBytes: nat, pages: nat := 0, 0, 0, 0;
    handed, asked, c := [], 0, FRESH;
    while asked < |replies|
      invariant asked <= |replies| && c == Pull(replies[..asked])
      invariant c == Client(cursor, total, totalBytes, pages, handed, None)
    {
      var reply := replies[asked];
      assert replies[..asked + 1][..asked] == replies[..asked];
      c, asked := TakePage(c, reply), asked + 1;
      if reply.None? {
        return;
      }
      var response := reply.value;
      pages := pages + 1;
      if pages > MAX_PAGES_PER_ATTEMPT {
        return;
      }
      ghost var begun := Client(cursor, total, totalBytes, pages, handed, None);
      var i := 0;
      while i < |response.frames|
        invariant i <= |response.frames|
        invariant HandOver(begun, response.frames) ==
                  HandOver(Client(cursor, total, totalBytes, pages, handed, None), response.frames[i..])
      {
        var frame := response.frames[i];
        assert response.frames[i..][1..] == response.frames[i + 1..];
        total := total + 1;
        totalBytes := totalBytes + |frame|;
        if total > MAX_TOTAL_FRAMES {
          return;
        }
        if totalBytes > MAX_TOTAL_BYTES_PER_ATTEMPT {
          return;
        }
        handed := handed + [frame];
        i := i + 1;
      }
      if response.nextCursor.Some? && response.nextCursor.value > cursor {
        cursor := response.nextCursor.value;
      } else {
        return;
      }
    }
  }

  ghost function TotalBytes(frames: seq<Bytes>): nat {
    if frames == [] then 0 else TotalBytes(frames[..|frames| - 1]) + |frames[|frames| - 1]|
  }

  lemma {:induction false} TotalBytesPush(frames: seq<Bytes>, f: Bytes)
    ensures TotalBytes(frames + [f]) == TotalBytes(frames) + |f|
  {
    assert (frames + [f])[..|frames|] == frames;
  }

  /** The counters of an attempt that has not ended are exact, and within
      their limits. */
  ghost predicate Within(c: Client) {
    && |c.handed| <= MAX_TOTAL_FRAMES
    && TotalBytes(c.handed) <= MAX_TOTAL_BYTES_PER_ATTEMPT
    && (c.end.None? ==> c.total == |c.handed| && c.totalBytes == TotalBytes(c.handed))
  }

  lemma {:induction false} HandOverKeeps(c: Client, frames: seq<Bytes>)
    requires c.end.None?
    ensures var after := HandOver(c, frames);
            && after.cursor == c.cursor && after.pages == c.pages
            && after.end in {None, Some(FrameBudget), Some(ByteBudget)}
    decreases |frames|
  {
    if frames != [] {
      var total, totalBytes := c.total + 1, c.totalBytes + |frames[0]|;
      HandOverKeeps(c.(total := total, totalBytes := totalBytes, handed := c.handed + [frames[0]]), frames[1..]);
    }
  }

  lemma {:induction false} HandOverWithin(c: Client, frames: seq<Bytes>)
    requires Within(c) && c.end.None?
    ensures Within(HandOver(c, frames))
    decreases |frames|
  {
    if frames != [] {
      TotalBytesPush(c.handed, frames[0]);
      var total, totalBytes := c.total + 1, c.totalBytes + |frames[0]|;
      if total <= MAX_TOTAL_FRAMES && totalBytes <= MAX_TOTAL_BYTES_PER_ATTEMPT {
        HandOverWithin(c.(total := total, totalBytes := totalBytes, handed := c.handed + [frames[0]]), frames[1..]);
      }
    }
  }

  /** Did a budget end the attempt only because one frame more would exceed it? */
  ghost predicate Bitten(before: nat, frames: seq<Bytes>, after: Client) {
    var n := |after.handed| - before;
    && (after.end == Some(FrameBudget) ==> 0 <= n < |frames| && |after.handed| == 8192)
    && (after.end == Some(ByteBudget) ==>
          0 <= n < |frames| && TotalBytes(after.handed) + |frames[n]| > 64 * 1024 * 1024)
  }

  lemma {:induction false} BudgetsBite(c: Client, frames: seq<Bytes>)
    requires Within(c) && c.end.None?
    ensures Bitten(|c.handed|, frames, HandOver(c, frames))
    decreases |frames|
  {
    if frames != [] {
      TotalBytesPush(c.handed, frames[0]);
      var total, totalBytes := c.total + 1, c.totalBytes + |frames[0]|;
      if total <= MAX_TOTAL_FRAMES && totalBytes <= MAX_TOTAL_BYTES_PER_ATTEMPT {
        var next := c.(total := total, totalBytes := totalBytes, handed := c.handed + [frames[0]]);
        BudgetsBite(next, frames[1..]);
        BittenNext(|c.handed|, frames, HandOver(next, frames[1..]));
      }
    }
  }

  lemma {:induction false} BittenNext(before: nat, frames: seq<Bytes>, after: Client)
    requires frames != [] && Bitten(before + 1, frames[1..], after)
    ensures Bitten(before, frames, after)
  {
  }

  lemma {:induction false} HandOverTakes(c: Client, frames: seq<Bytes>) returns (n: nat)
    requires c.end.None?
    ensures n <= |frames| && HandOver(c, frames).handed == c.handed + frames[..n]
    ensures HandOver(c, frames).end.None? ==> n == |frames|
    decreases |frames|
  {
    n := 0;
    assert c.handed + [] == c.handed;
    if frames != [] {
      var total, totalBytes := c.total + 1, c.totalBytes + |frames[0]|;
      if total <= MAX_TOTAL_FRAMES && totalBytes <= MAX_TOTAL_BYTES_PER_ATTEMPT {
        n := HandOverTakes(c.(total := total, totalBytes := totalBytes, handed := c.handed + [frames[0]]), frames[1..]);
        assert c.handed + [frames[0]] + frames[1..][..n] == c.handed + frames[..n + 1];
        n := n + 1;
      }
    }
  }

  /** Handing over takes a prefix of the frames, all of them unless a budget is
      reached, and touches nothing but what it counts. */
  lemma {:induction false} HandOverMeaning(c: Client, frames: seq<Bytes>)
    requires Within(c) && c.end.None?
    ensures var after := HandOver(c, frames);
            && Within(after)
            && after.cursor == c.cursor && after.pages == c.pages
            && after.end in {None, Some(FrameBudget), Some(ByteBudget)}
            && |c.handed| <= |after.handed| <= |c.handed| + |frames|
            && after.handed == c.handed + frames[..|after.handed| - |c.handed|]
            && (after.end.None? ==> |after.handed| == |c.handed| + |frames|)
  {
    HandOverKeeps(c, frames);
    HandOverWithin(c, frames);
    var n := HandOverTakes(c, frames);
    assert |HandOver(c, frames).handed| - |c.handed| == n;
  }

  /** Against any peer at all, an attempt hands over no more than its frame and
      byte budgets, and it has ended after one request more than its page
      budget. */
  lemma {:induction false} BudgetsHold(replies: seq<Option<Response>>)
    ensures Within(Pull(replies))
    ensures Pull(replies).end.None? ==> Pull(replies).pages == |replies| <= MAX_PAGES_PER_ATTEMPT
  {
    if replies != [] {
      var c, reply := Pull(replies[..|replies| - 1]), replies[|replies| - 1];
      BudgetsHold(replies[..|replies| - 1]);
      if c.end.None? && reply.Some? {
        HandOverMeaning(c.(pages := c.pages + 1), reply.value.frames);
      }
    }
  }

  // ----- Pulling from a log that keeps moving -----

  /** The peer's full history, the attempt against it, and the positions in
      that history of the frames handed over so far. */
  datatype System = System(history: Entries, client: Client, indices: seq<nat>)

  /** The peer retains a frame, or is asked for a page and answers or not. */
  datatype Event = Retain(e: Entry) | Page(answered: bool)

  ghost function Range(from: nat, n: nat): (r: seq<nat>)
    ensures |r| == n
    ensures forall i :: 0 <= i < n ==> r[i] == from + i
  {
    if n == 0 then [] else Range(from, n - 1) + [from + n - 1]
  }

  ghost function Next(s: System, ev: Event, pageSize: nat): System {
    match ev
    case Retain(e) => s.(history := s.history + [e])
    case Page(answered) =>
      var after := TakePage(s.client, if answered then Some(Served(s.history, s.client.cursor, pageSize)) else None);
      var n := Max(0, |after.handed| - |s.client.handed|);
      System(s.history, after, s.indices + Range(Max(s.client.cursor, Start(s.history)), n))
  }

  ghost function Run(initial: Entries, events: seq<Event>, pageSize: nat): System {
    if events == [] then System(initial, FRESH, [])
    else Next(Run(initial, events[..|events| - 1], pageSize), events[|events| - 1], pageSize)
  }

  /** The frames handed over are the history's, each at its own position. */
  ghost predicate Faithful(s: System) {
    && |s.indices| == |s.client.handed|
    && (forall k :: 0 <= k < |s.indices| ==> s.indices[k] < |s.history|)
    && (forall k :: 0 <= k < |s.indices| ==> s.client.handed[k] == s.history[s.indices[k]].frame)
  }

  ghost predicate Increasing(indices: seq<nat>) {
    forall i, j :: 0 <= i < j < |indices| ==> indices[i] < indices[j]
  }

  /** Everything kept before position `end` has been handed over. */
  ghost predicate Complete(s: System, end: nat) {
    forall j :: Start(s.history) <= j < end ==> j in s.indices
  }

  ghost predicate Inv(s: System) {
    && Within(s.client)
    && Faithful(s)
    && Increasing(s.indices)
    && s.client.cursor <= |s.history|
    && (s.client.end.None? ==>
          Complete(s, s.client.cursor) && (forall k :: 0 <= k < |s.indices| ==> s.indices[k] < s.client.cursor))
  }

  lemma {:induction false} RetainKeepsInv(s: System, e: Entry, pageSize: nat)
    requires Inv(s)
    ensures Inv(Next(s, Retain(e), pageSize))
  {
    StartAdvances(s.history, e);
  }

  /** What one reply does to an attempt within its page budget. */
  lemma {:induction false} TakePageMeaning(c: Client, r: Response)
    requires Within(c) && c.end.None? && c.pages < MAX_PAGES_PER_ATTEMPT
    ensures var after := TakePage(c, Some(r));
            var n := |after.handed| - |c.handed|;
            && Within(after) && after.pages == c.pages + 1
            && 0 <= n <= |r.frames| && after.handed == c.handed + r.frames[..n]
            && (after.end.None? ==> n == |r.frames| && r.nextCursor == Some(after.cursor) && c.cursor < after.cursor)
            && (after.end.Some? ==> after.cursor == c.cursor)
            && (after.end == Some(CaughtUp) ==> n == |r.frames| && r.nextCursor == None)
            && (after.end == Some(Stalled) ==> n == |r.frames| && r.nextCursor.Some? && r.nextCursor.value <= c.cursor)
            && after.end in {None, Some(CaughtUp), Some(Stalled), Some(FrameBudget), Some(ByteBudget)}
  {
    HandOverMeaning(c.(pages := c.pages + 1), r.frames);
  }

  /** One round trip, whatever comes back: nothing, and the attempt has failed; the
      129th page, and it stops; or frames, taken in order while the budgets last,
      and then the end of the log, a cursor further on, or a stall. */
  lemma {:induction false} RoundTripExactly(c: Client, reply: Option<Response>)
    requires Within(c) && c.end.None?
    ensures var after := TakePage(c, reply);
            && (reply.None? ==> after == c.(end := Some(Failed)))
            && (reply.Some? && c.pages >= 128 ==> after.end == Some(PageBudget) && after.handed == c.handed)
    ensures reply.Some? && c.pages < 128 ==>
              var after, frames, next := TakePage(c, reply), reply.value.frames, reply.value.nextCursor;
              var n := |after.handed| - |c.handed|;
              && 0 <= n <= |frames| && after.handed == c.handed + frames[..n] && after.pages == c.pages + 1
              && (n < |frames| <==> after.end == Some(FrameBudget) || after.end == Some(ByteBudget))
              && (after.end == Some(FrameBudget) ==> n < |frames| && |after.handed| == 8192)
              && (after.end == Some(ByteBudget) ==>
                    n < |frames| && TotalBytes(after.handed) + |frames[n]| > 64 * 1024 * 1024)
              && (n == |frames| ==>
                    if next.None? then after.end == Some(CaughtUp)
                    else if next.value > c.cursor then after.end == None && after.cursor == next.value
                    else after.end == Some(Stalled))
  {
    if reply.Some? && c.pages < 128 {
      TakePageMeaning(c, reply.value);
      BudgetsBite(c.(pages := c.pages + 1), reply.value.frames);
    }
  }

  lemma {:induction false} PrefixHanded(history: Entries, from: nat, to: nat, before: seq<Bytes>, frames: seq<Bytes>,
                                        after: seq<Bytes>, n: nat)
    requires from + n <= to <= |history|
    requires frames == Frames(history[from..to]) && after == before + frames[..n]
    ensures after == before + Frames(history[from..from + n])
  {
    FramesSlice(history[from..to], 0, n);
    assert history[from..to][0..n] == history[from..from + n];
    assert frames[0..n] == frames[..n];
  }

  lemma {:induction false} TakeAdds(c: Client, r: Response, history: Entries, from: nat, to: nat)
    requires Within(c) && c.end.None? && c.pages < MAX_PAGES_PER_ATTEMPT
    requires c.cursor <= from <= to <= |history| && r.frames == Frames(history[from..to])
    requires r.nextCursor == if to == |history| then None else Some(to)
    ensures AddedTo(c, TakePage(c, Some(r)), history, from, to)
  {
    TakePageMeaning(c, r);
    var after := TakePage(c, Some(r));
    PrefixHanded(history, from, to, c.handed, r.frames, after.handed, |after.handed| - |c.handed|);
  }

  /** `after` is `c` with the frames up to `to` taken, or as many of them as the
      budgets allow. */
  ghost predicate AddedTo(c: Client, after: Client, history: Entries, from: nat, to: nat)
    requires to <= |history|
  {
    var n := |after.handed| - |c.handed|;
    && 0 <= n <= to - from
    && after.handed == c.handed + Frames(history[from..from + n])
    && (after.end.None? ==> n == to - from && after.cursor == to < |history|)
    && (after.end == Some(CaughtUp) ==> n == to - from && to == |history|)
    && (after.end == Some(Stalled) ==> to == c.cursor < |history|)
  }

  ghost predicate Added(s: System, after: System, from: nat, to: nat)
    requires to <= |s.history|
  {
    && AddedTo(s.client, after.client, s.history, from, to)
    && after.indices == s.indices + Range(from, |after.client.handed| - |s.client.handed|)
  }

  /** What a page adds, whether or not a budget cuts it short. */
  lemma {:induction false} PageAdds(s: System, pageSize: nat)
    requires Within(s.client) && s.client.cursor <= |s.history|
    requires s.client.end.None? && s.client.pages < MAX_PAGES_PER_ATTEMPT
    ensures var from, to := Max(s.client.cursor, Start(s.history)), PageEnd(s.history, s.client.cursor, pageSize);
            to <= |s.history| && Added(s, Next(s, Page(true), pageSize), from, to)
  {
    var from, to := Max(s.client.cursor, Start(s.history)), PageEnd(s.history, s.client.cursor, pageSize);
    PageWithin(s.history, s.client.cursor, pageSize);
    TakeAdds(s.client, Served(s.history, s.client.cursor, pageSize), s.history, from, to);
    PageTaken(s, pageSize);
  }

  lemma {:induction false} PageTaken(s: System, pageSize: nat)
    ensures var after := TakePage(s.client, Some(Served(s.history, s.client.cursor, pageSize)));
            var n := Max(0, |after.handed| - |s.client.handed|);
            Next(s, Page(true), pageSize) ==
                System(s.history, after, s.indices + Range(Max(s.client.cursor, Start(s.history)), n))
  {
  }

  lemma {:induction false} FaithfulPush(s: System, after: System, from: nat, n: nat)
    requires Faithful(s) && after.history == s.history && from + n <= |s.history|
    requires after.client.handed == s.client.handed + Frames(s.history[from..from + n])
    requires after.indices == s.indices + Range(from, n)
    ensures Faithful(after)
  {
    var w := s.history[from..from + n];
    forall k | |s.indices| <= k < |after.indices|
      ensures after.client.handed[k] == s.history[after.indices[k]].frame
    {
      FramesAt(w, k - |s.indices|);
    }
  }

  lemma {:induction false} RangeHolds(indices: seq<nat>, from: nat, n: nat, j: nat)
    ensures j in indices ==> j in indices + Range(from, n)
    ensures from <= j < from + n ==> j in indices + Range(from, n)
  {
    if from <= j < from + n {
      assert (indices + Range(from, n))[|indices| + (j - from)] == j;
    }
  }

  /** An attempt that has ended, runs out of pages or gets no answer takes
      nothing more. */
  lemma {:induction false} IdlePage(s: System, answered: bool, pageSize: nat)
    requires !answered || s.client.end.Some? || s.client.pages >= MAX_PAGES_PER_ATTEMPT
    ensures var after := Next(s, Page(answered), pageSize);
            after.history == s.history && after.indices == s.indices && after.client.end.Some? &&
            after.client.handed == s.client.handed && after.client.cursor == s.client.cursor
    ensures s.client.end.Some? ==> Next(s, Page(answered), pageSize) == s
  {
    assert s.indices + Range(Max(s.client.cursor, Start(s.history)), 0) == s.indices;
  }

  lemma {:induction false} IncreasingPush(indices: seq<nat>, from: nat, n: nat)
    requires Increasing(indices) && forall k :: 0 <= k < |indices| ==> indices[k] < from
    ensures Increasing(indices + Range(from, n))
    ensures forall k :: 0 <= k < |indices| + n ==> (indices + Range(from, n))[k] < from + n
  {
  }

  lemma {:induction false} PageKeepsInv(s: System, answered: bool, pageSize: nat)
    requires Inv(s)
    ensures Inv(Next(s, Page(answered), pageSize))
  {
    if !answered || s.client.end.Some? || s.client.pages >= MAX_PAGES_PER_ATTEMPT {
      IdlePage(s, answered, pageSize);
    } else {
      LivePageKeepsInv(s, pageSize);
    }
  }

  lemma {:induction false} LivePageKeepsInv(s: System, pageSize: nat)
    requires Inv(s) && s.client.end.None? && s.client.pages < MAX_PAGES_PER_ATTEMPT
    ensures Inv(Next(s, Page(true), pageSize))
  {
    var after := Next(s, Page(true), pageSize);
    var from, n := Max(s.client.cursor, Start(s.history)), |after.client.handed| - |s.client.handed|;
    PageAdds(s, pageSize);
    FaithfulPush(s, after, from, n);
    IncreasingPush(s.indices, from, n);
    PageCompletes(s, after, from, n);
    TakePageMeaning(s.client, Served(s.history, s.client.cursor, pageSize));
  }

  lemma {:induction false} PageCompletes(s: System, after: System, from: nat, n: nat)
    requires Complete(s, s.client.cursor) && from == Max(s.client.cursor, Start(s.history))
    requires after.history == s.history && after.indices == s.indices + Range(from, n)
    ensures Complete(after, from + n)
  {
    forall j | Start(s.history) <= j < from + n
      ensures j in after.indices
    {
      RangeHolds(s.indices, from, n, j);
    }
  }

  lemma {:induction false} RunKeepsInv(initial: Entries, events: seq<Event>, pageSize: nat)
    ensures Inv(Run(initial, events, pageSize))
  {
    if events != [] {
      var s := Run(initial, events[..|events| - 1], pageSize);
      RunKeepsInv(initial, events[..|events| - 1], pageSize);
      match events[|events| - 1]
      case Retain(e) => RetainKeepsInv(s, e, pageSize);
      case Page(answered) => PageKeepsInv(s, answered, pageSize);
    }
  }

  // ----- Main results -----

  /** Whatever the peer retains and evicts meanwhile, the frames handed to
      replay are its own, in its own order, and none twice. */
  lemma {:induction false} HandedOverInOrder(initial: Entries, events: seq<Event>, pageSize: nat)
    ensures var s := Run(initial, events, pageSize);
            && |s.indices| == |s.client.handed|
            && (forall i, j :: 0 <= i < j < |s.indices| ==> s.indices[i] < s.indices[j])
            && (forall k :: 0 <= k < |s.indices| ==>
                  s.indices[k] < |s.history| && s.client.handed[k] == s.history[s.indices[k]].frame)
  {
    RunKeepsInv(initial, events, pageSize);
  }

  /** When a page ends the attempt by reporting the end of the log, every frame
      the peer keeps at that moment has been handed over: what is missing was
      evicted before it could be asked for. */
  lemma {:induction false} CaughtUpMeansEverything(initial: Entries, events: seq<Event>, answered: bool, pageSize: nat)
    requires Run(initial, events, pageSize).client.end.None?
    requires Run(initial, events + [Page(answered)], pageSize).client.end == Some(CaughtUp)
    ensures var s := Run(initial, events + [Page(answered)], pageSize);
            forall j :: Start(s.history) <= j < |s.history| ==> j in s.indices
  {
    var s := Run(initial, events, pageSize);
    assert (events + [Page(answered)])[..|events|] == events;
    RunKeepsInv(initial, events, pageSize);
    PageAdds(s, pageSize);
    var after := Next(s, Page(true), pageSize);
    PageCompletes(s, after, Max(s.client.cursor, Start(s.history)), |after.client.handed| - |s.client.handed|);
  }

  /** A page after the first says it is truncated exactly when frames that had
      not been handed over were evicted since the last one, and then those
      frames stay missing for good. */
  lemma {:induction false} TruncationIsExact(initial: Entries, events: seq<Event>, more: seq<Event>, pageSize: nat,
                                             j: nat)
    requires Run(initial, events, pageSize).client.end.None? && Run(initial, events, pageSize).client.cursor > 0
    ensures var s := Run(initial, events, pageSize);
            && (Served(s.history, s.client.cursor, pageSize).truncated <==>
                  exists i :: s.client.cursor <= i < Start(s.history) && i !in s.indices)
            && (s.client.cursor <= j < Start(s.history) ==>
                j !in s.indices && j !in Run(initial, events + more, pageSize).indices)
  {
    RunKeepsInv(initial, events, pageSize);
    var s := Run(initial, events, pageSize);
    PageMeaning(s.history, s.client.cursor, pageSize);
    assert s.client.cursor !in s.indices;
    if s.client.cursor <= j < Start(s.history) {
      EvictedStaysMissing(initial, events, more, pageSize, j);
    }
  }

  lemma {:induction false} EvictedStaysMissing(initial: Entries, events: seq<Event>, more: seq<Event>, pageSize: nat,
                                               j: nat)
    requires var s := Run(initial, events, pageSize); j !in s.indices && j < Start(s.history)
    ensures var s := Run(initial, events + more, pageSize); j !in s.indices && j < Start(s.history)
  {
    if more == [] {
      assert events + more == events;
    } else {
      var front, last := more[..|more| - 1], more[|more| - 1];
      EvictedStaysMissing(initial, events, front, pageSize, j);
      assert (events + more)[..|events + more| - 1] == events + front;
      var s := Run(initial, events + front, pageSize);
      match last
      case Retain(e) => StartAdvances(s.history, e);
      case Page(_) =>
    }
  }

  // ----- The budgets are large enough for an honest peer -----

  /** No frame exceeds the largest message the protocol carries. */
  ghost predicate Small(history: Entries) {
    forall i :: 0 <= i < |history| ==> |history[i].frame| <= MAX_MESSAGE_SIZE
  }

  /** A page that is neither last nor full carries more bytes than this. */
  const LEAN: nat := MAX_RESPONSE_BYTES - MAX_MESSAGE_SIZE

  /** The frames from position `start` on are few and small enough that their
      pages, their number and their bytes stay within one attempt's budgets. */
  ghost predicate Affordable(history: Entries, start: nat) {
    && start <= |history|
    && |history| - start <= MAX_TOTAL_FRAMES
    && Size(history[start..]) <= MAX_TOTAL_BYTES_PER_ATTEMPT
    && (|history| - start) / MAX_FRAMES_PER_PAGE + Size(history[start..]) / (LEAN + 1) < MAX_PAGES_PER_ATTEMPT
  }

  lemma {:induction false} SizeSplit(history: Entries, i: nat, j: nat, k: nat)
    requires i <= j <= k <= |history|
    ensures Size(history[i..k]) == Size(history[i..j]) + Size(history[j..k])
  {
    assert history[i..k] == history[i..j] + history[j..k];
    SizeConcat(history[i..j], history[j..k]);
  }

  lemma {:induction false} SizeOne(history: Entries, i: nat)
    requires i < |history|
    ensures Size(history[i..i + 1]) == |history[i].frame|
  {
    assert history[i..i + 1][1..] == [];
  }

  lemma {:induction false} TotalBytesOfFrames(w: Entries)
    ensures TotalBytes(Frames(w)) == Size(w)
  {
    if w != [] {
      var front, last := w[..|w| - 1], w[|w| - 1];
      SplitLast(w);
      TotalBytesOfFrames(front);
      FramesConcat(front, [last]);
      SizeConcat(front, [last]);
      TotalBytesPush(Frames(front), last.frame);
    }
  }

  lemma {:induction false} TotalBytesConcat(a: seq<Bytes>, b: seq<Bytes>)
    ensures TotalBytes(a + b) == TotalBytes(a) + TotalBytes(b)
  {
    if b == [] {
      assert a + b == a;
    } else {
      var front, last := b[..|b| - 1], b[|b| - 1];
      TotalBytesConcat(a, front);
      assert (a + b)[..|a + b| - 1] == a + front;
    }
  }

  lemma {:induction false} EarlierIsAffordable(history: Entries, e: Entry, start: nat)
    requires Affordable(history + [e], start) && Small(history + [e]) && start <= |history|
    ensures Affordable(history, start) && Small(history)
  {
    PushToTail(history, e, start);
    SizeConcat(history[start..], [e]);
    QuotientsGrow(|history| - start, Size(history[start..]), |history| + 1 - start, Size((history + [e])[start..]));
    forall i | 0 <= i < |history|
      ensures |history[i].frame| <= MAX_MESSAGE_SIZE
    {
      assert (history + [e])[i] == history[i];
    }
  }

  lemma {:induction false} QuotientsGrow(frames: nat, bytes: nat, frames': nat, bytes': nat)
    requires frames <= frames' && bytes <= bytes'
    ensures frames / MAX_FRAMES_PER_PAGE + bytes / (LEAN + 1) <= frames' / MAX_FRAMES_PER_PAGE + bytes' / (LEAN + 1)
  {
  }

  /** Frames that stay within the budgets are all handed over. */
  lemma {:induction false} HandOverFits(c: Client, frames: seq<Bytes>)
    requires c.end.None?
    requires c.total + |frames| <= MAX_TOTAL_FRAMES && c.totalBytes + TotalBytes(frames) <= MAX_TOTAL_BYTES_PER_ATTEMPT
    ensures HandOver(c, frames).end.None?
    decreases |frames|
  {
    if frames != [] {
      assert frames == [frames[0]] + frames[1..];
      TotalBytesConcat([frames[0]], frames[1..]);
      TotalBytesPush([], frames[0]);
      assert [] + [frames[0]] == [frames[0]];
      HandOverFits(c.(total := c.total + 1, totalBytes := c.totalBytes + |frames[0]|,
          handed := c.handed + [frames[0]]), frames[1..]);
    }
  }

  /** Where an attempt stands in the history it started on. */
  ghost function Position(s: System, start: nat): nat {
    Max(s.client.cursor, start)
  }

  /** Every page so far was full or heavy: `full` of them and `heavy` of them. */
  ghost predicate PaidFor(s: System, start: nat, full: nat, heavy: nat) {
    var at := Position(s, start);
    && start <= at <= |s.history|
    && full + heavy == s.client.pages
    && MAX_FRAMES_PER_PAGE * full <= at - start
    && (LEAN + 1) * heavy <= Size(s.history[start..at])
    && |s.client.handed| <= at - start
    && TotalBytes(s.client.handed) <= Size(s.history[start..at])
  }

  lemma {:induction false} PageCost(history: Entries, cursor: nat)
    requires Small(history) && cursor <= |history|
    ensures var size := MAX_FRAMES_PER_PAGE;
            var from, to := Max(cursor, Start(history)), PageEnd(history, cursor, size);
            && from <= to <= |history|
            && (to < |history| ==> from < to && (to - from == size || Size(history[from..to]) > LEAN))
            && (var r := Served(history, cursor, size);
                r.frames == Frames(history[from..to]) &&
                r.nextCursor == if to == |history| then None else Some(to))
  {
    var size := MAX_FRAMES_PER_PAGE;
    var from, to := Max(cursor, Start(history)), PageEnd(history, cursor, size);
    PageWithin(history, cursor, size);
    PageMeaning(history, cursor, size);
    if from < |history| && to < |history| {
      SizeSplit(history, from, to, to + 1);
      SizeOne(history, to);
      assert history[from..from] == [];
    }
  }

  lemma {:induction false} HonestTake(c: Client, r: Response)
    requires Within(c) && c.end.None? && c.pages < MAX_PAGES_PER_ATTEMPT
    requires |c.handed| + |r.frames| <= MAX_TOTAL_FRAMES
    requires TotalBytes(c.handed) + TotalBytes(r.frames) <= MAX_TOTAL_BYTES_PER_ATTEMPT
    requires r.nextCursor.Some? ==> r.nextCursor.value > c.cursor
    ensures var after := TakePage(c, Some(r));
            && after.handed == c.handed + r.frames
            && TotalBytes(after.handed) == TotalBytes(c.handed) + TotalBytes(r.frames)
            && after.pages == c.pages + 1
            && match r.nextCursor {
                 case None => after.end == Some(CaughtUp)
                 case Some(next) => after.end == None && after.cursor == next
               }
  {
    HandOverFits(c.(pages := c.pages + 1), r.frames);
    HandOverMeaning(c.(pages := c.pages + 1), r.frames);
    TotalBytesConcat(c.handed, r.frames);
    assert r.frames[..|r.frames|] == r.frames;
  }

  /** What the frames up to a position cost, split at the page about to come. */
  lemma {:induction false} SpentSoFar(history: Entries, start: nat, at: nat, from: nat, to: nat)
    requires start <= at <= from <= to <= |history|
    ensures Size(history[start..at]) + Size(history[from..to]) <= Size(history[start..to]) <= Size(history[start..])
    ensures TotalBytes(Frames(history[from..to])) == Size(history[from..to])
  {
    SizeSplit(history, start, at, from);
    SizeSplit(history, start, from, to);
    SizeSplit(history, start, to, |history|);
    assert history[start..] == history[start..|history|];
    TotalBytesOfFrames(history[from..to]);
  }

  lemma {:induction false} PagesLeft(full: nat, heavy: nat, frames: nat, bytes: nat)
    requires MAX_FRAMES_PER_PAGE * full <= frames && (LEAN + 1) * heavy <= bytes
    ensures full + heavy <= frames / MAX_FRAMES_PER_PAGE + bytes / (LEAN + 1)
  {
  }

  lemma {:induction false} PageIsPaidFor(s: System, after: System, start: nat, full: nat, heavy: nat, from: nat,
                                         to: nat) returns (full': nat, heavy': nat)
    requires PaidFor(s, start, full, heavy) && Position(s, start) <= from < to <= |s.history|
    requires after.history == s.history && after.client.cursor == to
    requires after.client.pages == s.client.pages + 1
    requires |after.client.handed| == |s.client.handed| + (to - from)
    requires TotalBytes(after.client.handed) == TotalBytes(s.client.handed) + Size(s.history[from..to])
    requires to - from == MAX_FRAMES_PER_PAGE || Size(s.history[from..to]) > LEAN
    ensures PaidFor(after, start, full', heavy')
  {
    SpentSoFar(s.history, start, Position(s, start), from, to);
    var size := Size(s.history[start..to]);
    assert Position(after, start) == to;
    if to - from == MAX_FRAMES_PER_PAGE {
      full', heavy' := full + 1, heavy;
      assert MAX_FRAMES_PER_PAGE * full' == MAX_FRAMES_PER_PAGE * full + MAX_FRAMES_PER_PAGE;
    } else {
      full', heavy' := full, heavy + 1;
      assert (LEAN + 1) * heavy' == (LEAN + 1) * heavy + LEAN + 1 <= size;
    }
  }

  lemma {:induction false} PageFits(s: System, start: nat, full: nat, heavy: nat, from: nat, to: nat)
    requires Affordable(s.history, start) && PaidFor(s, start, full, heavy)
    requires Position(s, start) <= from <= to <= |s.history|
    ensures s.client.pages < MAX_PAGES_PER_ATTEMPT
    ensures |s.client.handed| + (to - from) <= MAX_TOTAL_FRAMES
    ensures TotalBytes(s.client.handed) + Size(s.history[from..to]) <= MAX_TOTAL_BYTES_PER_ATTEMPT
  {
    SpentSoFar(s.history, start, Position(s, start), from, to);
    PagesLeft(full, heavy, |s.history| - start, Size(s.history[start..]));
  }

  /** A page of an honest, affordable log either ends the attempt as caught up
      or is paid for. */
  lemma {:induction false} HonestPage(s: System, start: nat, full: nat, heavy: nat) returns (full': nat, heavy': nat)
    requires Within(s.client) && s.client.end.None? && start <= Start(s.history)
    requires Small(s.history) && Affordable(s.history, start) && PaidFor(s, start, full, heavy)
    ensures var after := Next(s, Page(true), MAX_FRAMES_PER_PAGE);
            after.client.end == Some(CaughtUp) || (after.client.end == None && PaidFor(after, start, full', heavy'))
  {
    full', heavy' := full, heavy;
    var c, after := s.client, Next(s, Page(true), MAX_FRAMES_PER_PAGE);
    var from, to := Max(c.cursor, Start(s.history)), PageEnd(s.history, c.cursor, MAX_FRAMES_PER_PAGE);
    PageCost(s.history, c.cursor);
    PageFits(s, start, full, heavy, from, to);
    TotalBytesOfFrames(s.history[from..to]);
    HonestTake(c, Served(s.history, c.cursor, MAX_FRAMES_PER_PAGE));
    if to < |s.history| {
      full', heavy' := PageIsPaidFor(s, after, start, full, heavy, from, to);
    }
  }

  /** Every page asked for while the attempt lasted was answered. */
  ghost predicate AllAnswered(initial: Entries, events: seq<Event>, pageSize: nat) {
    events == [] ||
    (var front, ev := events[..|events| - 1], events[|events| - 1];
     AllAnswered(initial, front, pageSize) &&
     (ev.Page? && Run(initial, front, pageSize).client.end.None? ==> ev.answered))
  }

  /** An attempt against an honest peer is never cut short by its budgets, nor
      stalled, while what the peer kept at the start and retained since is
      affordable: it ends by catching up, or fails exactly if a page it asked
      for got no answer. */
  lemma {:induction false} OnlyLostPagesCut(initial: Entries, events: seq<Event>) returns (full: nat, heavy: nat)
    requires var h := Run(initial, events, MAX_FRAMES_PER_PAGE).history;
             Small(h) && Affordable(h, Start(initial))
    ensures var s := Run(initial, events, MAX_FRAMES_PER_PAGE);
            && s.client.end in {None, Some(CaughtUp), Some(Failed)}
            && (s.client.end == Some(Failed) <==> !AllAnswered(initial, events, MAX_FRAMES_PER_PAGE))
            && (s.client.end.None? ==> PaidFor(s, Start(initial), full, heavy))
  {
    var size := MAX_FRAMES_PER_PAGE;
    full, heavy := 0, 0;
    if events != [] {
      var front, ev := events[..|events| - 1], events[|events| - 1];
      var s := Run(initial, front, size);
      HistoryGrows(initial, front, size);
      if ev.Retain? {
        EarlierIsAffordable(s.history, ev.e, Start(initial));
      }
      full, heavy := OnlyLostPagesCut(initial, front);
      if ev.Retain? && s.client.end.None? {
        RetainKeepsPaid(s, ev.e, Start(initial), full, heavy);
      } else if ev.Page? && (!ev.answered || s.client.end.Some?) {
        IdlePage(s, ev.answered, size);
      } else if ev.Page? {
        RunKeepsInv(initial, front, size);
        full, heavy := HonestPage(s, Start(initial), full, heavy);
      }
    }
  }

  lemma {:induction false} RetainKeepsPaid(s: System, e: Entry, start: nat, full: nat, heavy: nat)
    requires PaidFor(s, start, full, heavy)
    ensures PaidFor(Next(s, Retain(e), MAX_FRAMES_PER_PAGE), start, full, heavy)
  {
    assert (s.history + [e])[start..Position(s, start)] == s.history[start..Position(s, start)];
  }

  lemma {:induction false} HistoryGrows(initial: Entries, events: seq<Event>, pageSize: nat)
    ensures var h := Run(initial, events, pageSize).history;
            |initial| <= |h| && h[..|initial|] == initial && Start(initial) <= Start(h)
  {
    if events != [] {
      HistoryGrows(initial, events[..|events| - 1], pageSize);
      var s := Run(initial, events[..|events| - 1], pageSize);
      match events[|events| - 1]
      case Retain(e) => StartAdvances(s.history, e);
      case Page(_) =>
    }
  }

  ghost function Pages(n: nat): (events: seq<Event>)
    ensures |events| == n
  {
    if n == 0 then [] else Pages(n - 1) + [Page(true)]
  }

  /** Nothing but the log's own frames so far, from the first kept to the
      cursor, and all of them once caught up. */
  ghost predicate Quiet(s: System) {
    var h, start := s.history, Start(s.history);
    && (s.client.end.None? ==> Max(s.client.cursor, start) <= |h|)
    && (s.client.end.None? ==> s.client.handed == Frames(h[start..Max(s.client.cursor, start)]))
    && (s.client.end == Some(CaughtUp) ==> s.client.handed == Frames(Kept(h)))
  }

  lemma {:induction false} QuietPage(s: System)
    requires Inv(s) && Quiet(s)
    ensures Quiet(Next(s, Page(true), MAX_FRAMES_PER_PAGE))
  {
    if s.client.end.Some? || s.client.pages >= MAX_PAGES_PER_ATTEMPT {
      IdlePage(s, true, MAX_FRAMES_PER_PAGE);
    } else {
      LiveQuietPage(s, Max(s.client.cursor, Start(s.history)));
    }
  }

  lemma {:induction false} LiveQuietPage(s: System, from: nat)
    requires Inv(s) && s.client.end.None? && s.client.pages < MAX_PAGES_PER_ATTEMPT
    requires from == Max(s.client.cursor, Start(s.history))
    requires s.client.handed == Frames(s.history[Start(s.history)..from])
    ensures Quiet(Next(s, Page(true), MAX_FRAMES_PER_PAGE))
  {
    var after := Next(s, Page(true), MAX_FRAMES_PER_PAGE);
    PageAdds(s, MAX_FRAMES_PER_PAGE);
    var n := |after.client.handed| - |s.client.handed|;
    HandedGrows(s.history, from, n, s.client.handed, after.client.handed);
    QuietAt(after, from + n);
  }

  lemma {:induction false} QuietAt(s: System, at: nat)
    requires Start(s.history) <= at <= |s.history| && s.client.handed == Frames(s.history[Start(s.history)..at])
    requires s.client.end.None? ==> Max(s.client.cursor, Start(s.history)) == at
    requires s.client.end == Some(CaughtUp) ==> s.client.handed == Frames(Kept(s.history))
    ensures Quiet(s)
  {
  }

  /** Pages alone leave the history as it is, and each counts as one. */
  lemma {:induction false} PagesOnlyRead(history: Entries, n: nat)
    ensures var s := Run(history, Pages(n), MAX_FRAMES_PER_PAGE);
            s.history == history && (s.client.end.None? ==> s.client.pages == n)
  {
    if n > 0 {
      PagesOnlyRead(history, n - 1);
      assert Pages(n)[..n - 1] == Pages(n - 1);
      PageCounts(Run(history, Pages(n - 1), MAX_FRAMES_PER_PAGE));
    }
  }

  lemma {:induction false} PageCounts(s: System)
    ensures var after := Next(s, Page(true), MAX_FRAMES_PER_PAGE);
            after.client.end.None? ==> s.client.end.None? && after.client.pages == s.client.pages + 1
  {
    var r := Served(s.history, s.client.cursor, MAX_FRAMES_PER_PAGE);
    if s.client.end.None? {
      HandOverKeeps(s.client.(pages := s.client.pages + 1), r.frames);
    }
  }

  /** Pulling a quiet log hands over its frames in order and nothing else. */
  lemma {:induction false} QuietPull(history: Entries, n: nat)
    ensures Quiet(Run(history, Pages(n), MAX_FRAMES_PER_PAGE))
  {
    if n == 0 {
      assert history[Start(history)..Start(history)] == [];
    } else {
      QuietPull(history, n - 1);
      assert Pages(n)[..n - 1] == Pages(n - 1);
      RunKeepsInv(history, Pages(n - 1), MAX_FRAMES_PER_PAGE);
      QuietPage(Run(history, Pages(n - 1), MAX_FRAMES_PER_PAGE));
    }
  }

  lemma {:induction false} HandedGrows(history: Entries, from: nat, n: nat, before: seq<Bytes>, after: seq<Bytes>)
    requires Start(history) <= from && from + n <= |history|
    requires before == Frames(history[Start(history)..from])
    requires after == before + Frames(history[from..from + n])
    ensures after == Frames(history[Start(history)..from + n])
    ensures from + n == |history| ==> after == Frames(Kept(history))
  {
    FramesSplit(history, Start(history), from, from + n);
    KeptIsWhole(history);
  }

  lemma {:induction false} PagesAreAnswered(history: Entries, n: nat)
    ensures AllAnswered(history, Pages(n), MAX_FRAMES_PER_PAGE)
  {
    if n > 0 {
      PagesAreAnswered(history, n - 1);
      assert Pages(n)[..n - 1] == Pages(n - 1);
    }
  }

  /** Ninety answered pages suffice for a log that does not change. */
  lemma {:induction false} NinetyPagesSuffice(history: Entries)
    requires Small(history)
    ensures Run(history, Pages(90), MAX_FRAMES_PER_PAGE).client.end == Some(CaughtUp)
  {
    var start := Start(history);
    KeptIsTail(history);
    KeptIsCheap(history);
    PagesOnlyRead(history, 90);
    PagesAreAnswered(history, 90);
    var full, heavy := OnlyLostPagesCut(history, Pages(90));
    var s := Run(history, Pages(90), MAX_FRAMES_PER_PAGE);
    if s.client.end.None? {
      SpentSoFar(history, start, Position(s, start), |history|, |history|);
      PagesLeft(full, heavy, |history| - start, Size(history[start..]));
      assert false;
    }
  }

  // ----- The pages of a log that does not change -----

  /** Where page number `k` begins. */
  ghost function CursorAt(history: Entries, k: nat): nat {
    if k == 0 then 0 else PageEnd(history, CursorAt(history, k - 1), MAX_FRAMES_PER_PAGE)
  }

  ghost function PageAt(history: Entries, k: nat): Response {
    Served(history, CursorAt(history, k), MAX_FRAMES_PER_PAGE)
  }

  /** Is page number `k` the last one? */
  ghost predicate IsLast(history: Entries, k: nat) {
    CursorAt(history, k + 1) >= |history|
  }

  /** How many pages it takes, counting from page number `k`, ninety at most. */
  ghost function PagesFrom(history: Entries, k: nat): (n: nat)
    requires k < 90
    ensures 1 <= n <= 90 - k
    decreases 90 - k, |history|
  {
    if k == 89 || IsLast(history, k) then 1 else 1 + PagesFrom(history, k + 1)
  }

  ghost function PageCount(history: Entries): nat {
    PagesFrom(history, 0)
  }

  lemma {:induction false} PagesFromAre(history: Entries, k: nat, j: nat)
    requires k < 90
    ensures k <= j < k + PagesFrom(history, k) - 1 ==> !IsLast(history, j)
    decreases 90 - k
  {
    if k < 89 && !IsLast(history, k) {
      PagesFromAre(history, k + 1, j);
    }
  }

  lemma {:induction false} PagesFromEnd(history: Entries, k: nat)
    requires k < 90
    ensures k + PagesFrom(history, k) < 90 ==> IsLast(history, k + PagesFrom(history, k) - 1)
    decreases 90 - k
  {
    if k < 89 && !IsLast(history, k) {
      PagesFromEnd(history, k + 1);
    }
  }

  /** After `k` answered pages the attempt stands where page number `k` begins,
      or some page before it was the last. */
  ghost predicate Reached(history: Entries, k: nat, s: System) {
    && s.history == history
    && (s.client.end.None? || s.client.end == Some(CaughtUp))
    && (s.client.end.None? ==> s.client.cursor == CursorAt(history, k))
    && (s.client.end.None? ==> forall j :: 0 <= j < k ==> !IsLast(history, j))
    && (s.client.end == Some(CaughtUp) ==> exists j :: 0 <= j < k && IsLast(history, j))
  }

  lemma {:induction false} AnsweredPagesReach(history: Entries, k: nat)
    requires Small(history)
    ensures Reached(history, k, Run(history, Pages(k), MAX_FRAMES_PER_PAGE))
  {
    if k > 0 {
      assert Pages(k)[..k - 1] == Pages(k - 1);
      AnsweredPagesReach(history, k - 1);
      RunKeepsInv(history, Pages(k - 1), MAX_FRAMES_PER_PAGE);
      AnsweredEnds(history, k);
      ReachNext(history, Run(history, Pages(k - 1), MAX_FRAMES_PER_PAGE), k - 1);
    }
  }

  lemma {:induction false} AnsweredEnds(history: Entries, k: nat)
    requires Small(history)
    ensures var end := Run(history, Pages(k), MAX_FRAMES_PER_PAGE).client.end; end.None? || end == Some(CaughtUp)
  {
    KeptIsCheap(history);
    PagesOnlyRead(history, k);
    PagesAreAnswered(history, k);
    var full, heavy := OnlyLostPagesCut(history, Pages(k));
  }

  lemma {:induction false} ReachNext(history: Entries, s: System, k: nat)
    requires Reached(history, k, s) && Inv(s)
    requires var end := Next(s, Page(true), MAX_FRAMES_PER_PAGE).client.end; end.None? || end == Some(CaughtUp)
    ensures Reached(history, k + 1, Next(s, Page(true), MAX_FRAMES_PER_PAGE))
  {
    if s.client.end.Some? {
      IdlePage(s, true, MAX_FRAMES_PER_PAGE);
    } else if s.client.pages < MAX_PAGES_PER_ATTEMPT {
      PageAdds(s, MAX_FRAMES_PER_PAGE);
      assert Next(s, Page(true), MAX_FRAMES_PER_PAGE).client.end == Some(CaughtUp) ==> IsLast(history, k);
    }
  }

  /** The log takes exactly `PageCount` pages, and they bring all it keeps. */
  lemma {:induction false} PagesSuffice(history: Entries, k: nat)
    requires Small(history)
    ensures var c := Run(history, Pages(k), MAX_FRAMES_PER_PAGE).client;
            if k < PageCount(history) then c.end.None? && c.cursor == CursorAt(history, k)
            else c.end == Some(CaughtUp) && c.handed == Frames(Kept(history))
  {
    AnsweredPagesReach(history, k);
    QuietPull(history, k);
    if k < PageCount(history) {
      forall j | 0 <= j < k
        ensures !IsLast(history, j)
      {
        PagesFromAre(history, 0, j);
      }
    } else if PageCount(history) == 90 {
      NinetyPagesSuffice(history);
      AnsweredPagesReach(history, 90);
    } else {
      PagesFromEnd(history, 0);
    }
  }

  lemma {:induction false} KeptIsBounded(history: Entries)
    requires Small(history)
    ensures |Kept(history)| <= SYNC_LOG_CAP && Size(Kept(history)) <= SYNC_LOG_MAX_BYTES
  {
    KeptIsTail(history);
    KeptIsWhole(history);
    if |history| == Start(history) + 1 {
      SizeOne(history, Start(history));
    }
  }

  lemma {:induction false} KeptIsCheap(history: Entries)
    requires Small(history)
    ensures Affordable(history, Start(history))
    ensures (|history| - Start(history)) / MAX_FRAMES_PER_PAGE + Size(history[Start(history)..]) / (LEAN + 1) <= 89
  {
    KeptIsTail(history);
    KeptIsBounded(history);
    BoundedQuotients(|Kept(history)|, Size(Kept(history)));
  }

  lemma {:induction false} BoundedQuotients(frames: nat, bytes: nat)
    requires frames <= SYNC_LOG_CAP && bytes <= SYNC_LOG_MAX_BYTES
    ensures frames / MAX_FRAMES_PER_PAGE + bytes / (LEAN + 1) <= 89
  {
  }
}
