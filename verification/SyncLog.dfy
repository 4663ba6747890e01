/** The retained history of signed frames that late joiners are caught up from:
    bounded by count and by bytes, addressed by absolute cursors. */
module SyncLog {
  import opened Common

  const SYNC_LOG_CAP: nat := 4096
  const SYNC_LOG_MAX_BYTES: nat := 32 * 1024 * 1024
  const MAX_UNKNOWN_FRAMES: nat := 256
  const UNKNOWN_FRAMES_MAX_BYTES: nat := 4 * 1024 * 1024

  /** A signed frame and whether it is history (offers and provider
      announcements) or an extension this build merely relays. */
  datatype Entry = Entry(frame: Bytes, core: bool)

  type Entries = seq<Entry>

  ghost function Size(w: Entries): nat {
    if w == [] then 0 else |w[0].frame| + Size(w[1..])
  }

  ghost function Frames(w: Entries): (frames: seq<Bytes>)
    ensures |frames| == |w|
  {
    if w == [] then [] else [w[0].frame] + Frames(w[1..])
  }

  lemma {:induction false} FramesAt(w: Entries, i: nat)
    requires i < |w|
    ensures Frames(w)[i] == w[i].frame
  {
    if i > 0 {
      FramesAt(w[1..], i - 1);
    }
  }

  lemma {:induction false} SizeConcat(a: Entries, b: Entries)
    ensures Size(a + b) == Size(a) + Size(b)
  {
    if a == [] {
      assert a + b == b;
    } else {
      SizeConcat(a[1..], b);
      DropFirst(a, b);
    }
  }

  lemma {:induction false} FramesConcat(a: Entries, b: Entries)
    ensures Frames(a + b) == Frames(a) + Frames(b)
  {
    if a == [] {
      assert a + b == b;
    } else {
      FramesConcat(a[1..], b);
      DropFirst(a, b);
    }
  }

  // ----- Eviction, one frame at a time -----

  /** Forgetting from the front until a frame of `n` bytes may follow. */
  ghost function Evict(w: Entries, n: nat): (kept: Entries)
    ensures |kept| <= |w|
  {
    if w == [] || (|w| < SYNC_LOG_CAP && Size(w) + n <= SYNC_LOG_MAX_BYTES) then w
    else Evict(w[1..], n)
  }

  /** What is still kept of everything ever retained. */
  ghost function Kept(history: Entries): (kept: Entries)
    ensures |kept| <= |history|
  {
    if history == [] then []
    else
      var last := history[|history| - 1];
      Evict(Kept(history[..|history| - 1]), |last.frame|) + [last]
  }

  /** The absolute cursor of the oldest frame kept. */
  ghost function Start(history: Entries): nat {
    |history| - |Kept(history)|
  }

  lemma {:induction false} KeptPush(history: Entries, e: Entry)
    ensures Kept(history + [e]) == Evict(Kept(history), |e.frame|) + [e]
  {
    assert (history + [e])[..|history|] == history;
  }

  // ----- The budget for frames of unknown kinds -----

  ghost function UnknownCount(w: Entries): nat {
    if w == [] then 0
    else UnknownCount(w[..|w| - 1]) + (if w[|w| - 1].core then 0 else 1)
  }

  ghost function UnknownBytes(w: Entries): nat {
    if w == [] then 0
    else UnknownBytes(w[..|w| - 1]) + (if w[|w| - 1].core then 0 else |w[|w| - 1].frame|)
  }

  ghost predicate Admitted(history: Entries, e: Entry) {
    e.core ||
    (UnknownCount(history) < MAX_UNKNOWN_FRAMES && UnknownBytes(history) + |e.frame| <= UNKNOWN_FRAMES_MAX_BYTES)
  }

  /** What is retained, at least for a while, of everything that arrives. */
  ghost function Retained(arrivals: Entries): Entries {
    if arrivals == [] then []
    else
      var before, last := Retained(arrivals[..|arrivals| - 1]), arrivals[|arrivals| - 1];
      if Admitted(before, last) then before + [last] else before
  }

  /** One page of consecutive frames, as the log hands it out. */
  datatype SyncPage = SyncPage(frames: seq<Bytes>, endCursor: nat, caughtUp: bool, oldestCursor: nat)

  /** The same page read off the full history. */
  ghost function PageOf(history: Entries, cursor: nat, max: nat): SyncPage {
    var start, end := Start(history), |history|;
    var from := Max(cursor, start);
    if from >= end then SyncPage([], end, true, start)
    else
      var to := Min(from + max, end);
      SyncPage(Frames(history[from..to]), to, to == end, start)
  }

  class FrameLog {
    var unknownFrames: nat
    var unknownFramesBytes: nat
    var syncLog: seq<Bytes>
    var syncLogBytes: nat
    var syncLogStart: nat

    /** Everything that arrived, what of it was retained, what is still kept. */
    ghost var arrivals: Entries
    ghost var history: Entries
    ghost var window: Entries

    /** The log holds `window`, the tail of `history` from its cursor on. */
    ghost predicate Stored()
      reads this
    {
      && syncLog == Frames(window)
      && syncLogBytes == Size(window)
      && syncLogStart + |window| == |history|
    }

    ghost predicate Valid()
      reads this
    {
      && Stored()
      && window == Kept(history)
      && history == Retained(arrivals)
      && unknownFrames == UnknownCount(history)
      && unknownFramesBytes == UnknownBytes(history)
    }

    constructor ()
      ensures Valid() && arrivals == []
    {
      unknownFrames, unknownFramesBytes := 0, 0;
      syncLog, syncLogBytes, syncLogStart := [], 0, 0;
      arrivals, history, window := [], [], [];
    }

    /** The eviction loop and the append, which every retained frame takes. */
    method Append(e: Entry)
      requires Stored()
      modifies `syncLog, `syncLogBytes, `syncLogStart, `window, `history
      ensures Stored() && history == old(history) + [e]
      ensures window == Evict(old(window), |e.frame|) + [e]
    {
      var frame := e.frame;
      while syncLog != [] && (|syncLog| >= SYNC_LOG_CAP || syncLogBytes + |frame| > SYNC_LOG_MAX_BYTES)
        invariant Stored() && history == old(history)
        invariant Evict(window, |frame|) == Evict(old(window), |frame|)
        decreases |syncLog|
      {
        var evicted := syncLog[0];
        syncLog := syncLog[1..];
        syncLogBytes := syncLogBytes - |evicted|;
        syncLogStart := syncLogStart + 1;
        window := window[1..];
      }
      FramesConcat(window, [e]);
      SizeConcat(window, [e]);
      syncLogBytes := syncLogBytes + |frame|;
      syncLog := syncLog + [frame];
      window, history := window + [e], history + [e];
    }

    /** Retain an offer or a provider announcement. */
    method RetainFrame(frame: Bytes)
      requires Valid()
      modifies this
      ensures Valid() && arrivals == old(arrivals) + [Entry(frame, true)]
      ensures history == old(history) + [Entry(frame, true)]
    {
      var e := Entry(frame, true);
      RetainedPush(arrivals, e);
      KeptPush(history, e);
      UnknownPush(history, e);
      Append(e);
      arrivals := arrivals + [e];
    }

    /** Retain a frame of an unknown kind, while the budget for those lasts. */
    method RetainUnknownFrame(frame: Bytes)
      requires Valid()
      modifies this
      ensures Valid() && arrivals == old(arrivals) + [Entry(frame, false)]
      ensures history == if old(unknownFrames) < 256 && old(unknownFramesBytes) + |frame| <= 4 * 1024 * 1024
                         then old(history) + [Entry(frame, false)] else old(history)
    {
      var e := Entry(frame, false);
      RetainedPush(arrivals, e);
      KeptPush(history, e);
      UnknownPush(history, e);
      arrivals := arrivals + [e];
      if unknownFrames >= MAX_UNKNOWN_FRAMES || unknownFramesBytes + |frame| > UNKNOWN_FRAMES_MAX_BYTES {
        return;
      }
      unknownFrames := unknownFrames + 1;
      unknownFramesBytes := unknownFramesBytes + |frame|;
      Append(e);
    }

    /** A page from `cursor` on, clamped to what is still kept. */
    method SyncFrames(cursor: nat, max: nat) returns (page: SyncPage)
      requires Valid()
      ensures page == PageOf(history, cursor, max)
    {
      PageFromKept(history, cursor, max);
      var start := if cursor >= syncLogStart then cursor - syncLogStart else 0;
      var oldestCursor := syncLogStart;
      if start >= |syncLog| {
        return SyncPage([], syncLogStart + |syncLog|, true, oldestCursor);
      }
      var end := Min(start + max, |syncLog|);
      var frames := syncLog[start..end];
      page := SyncPage(frames, syncLogStart + end, end == |syncLog|, oldestCursor);
    }
  }

  /** The page read off the full history is the one read off the window. */
  lemma {:induction false} PageFromKept(history: Entries, cursor: nat, max: nat)
    ensures var kept := Kept(history);
            var start := if cursor >= Start(history) then cursor - Start(history) else 0;
            var end := Min(start + max, |kept|);
            PageOf(history, cursor, max) ==
            if start >= |kept| then SyncPage([], |history|, true, Start(history))
            else SyncPage(Frames(kept)[start..end], Start(history) + end, end == |kept|, Start(history))
  {
    var kept := Kept(history);
    var start := if cursor >= Start(history) then cursor - Start(history) else 0;
    var end := Min(start + max, |kept|);
    if start < |kept| {
      KeptSlice(history, start, end);
      var from, to := Start(history) + start, Start(history) + end;
      assert Max(cursor, Start(history)) == from && Min(from + max, |history|) == to;
    }
  }

  lemma {:induction false} KeptSlice(history: Entries, i: nat, j: nat)
    requires i <= j <= |Kept(history)|
    ensures Frames(Kept(history))[i..j] == Frames(history[Start(history) + i..Start(history) + j])
  {
    KeptIsTail(history);
    FramesSlice(Kept(history), i, j);
    SliceOfTail(history, Start(history), i, j);
  }

  lemma {:induction false} FramesSlice(w: Entries, i: nat, j: nat)
    requires i <= j <= |w|
    ensures Frames(w)[i..j] == Frames(w[i..j])
  {
    assert w == w[..i] + (w[i..j] + w[j..]);
    FramesConcat(w[..i], w[i..j] + w[j..]);
    FramesConcat(w[i..j], w[j..]);
  }

  lemma {:induction false} RetainedPush(arrivals: Entries, e: Entry)
    ensures Retained(arrivals + [e]) ==
            if Admitted(Retained(arrivals), e) then Retained(arrivals) + [e] else Retained(arrivals)
  {
    assert (arrivals + [e])[..|arrivals|] == arrivals;
  }

  lemma {:induction false} UnknownPush(w: Entries, e: Entry)
    ensures UnknownCount(w + [e]) == UnknownCount(w) + (if e.core then 0 else 1)
    ensures UnknownBytes(w + [e]) == UnknownBytes(w) + (if e.core then 0 else |e.frame|)
  {
    assert (w + [e])[..|w|] == w;
  }

  // ----- The log is the longest suffix that fits -----

  /** The newest frame is kept whatever its size; beyond it both bounds hold. */
  ghost predicate Fits(w: Entries) {
    |w| <= SYNC_LOG_CAP && (|w| <= 1 || Size(w) <= SYNC_LOG_MAX_BYTES)
  }

  lemma {:induction false} EvictIsTail(w: Entries, n: nat)
    ensures Evict(w, n) == w[|w| - |Evict(w, n)|..]
    ensures forall i :: 0 <= i < |w| - |Evict(w, n)| ==>
            |w[i..]| >= SYNC_LOG_CAP || Size(w[i..]) + n > SYNC_LOG_MAX_BYTES
    ensures Evict(w, n) != [] ==> |Evict(w, n)| < SYNC_LOG_CAP && Size(Evict(w, n)) + n <= SYNC_LOG_MAX_BYTES
  {
    if w != [] && !(|w| < SYNC_LOG_CAP && Size(w) + n <= SYNC_LOG_MAX_BYTES) {
      EvictIsTail(w[1..], n);
      forall i | 0 <= i < |w| - |Evict(w, n)|
        ensures |w[i..]| >= SYNC_LOG_CAP || Size(w[i..]) + n > SYNC_LOG_MAX_BYTES
      {
        if i == 0 {
          assert w[0..] == w;
        } else {
          assert w[i..] == w[1..][i - 1..];
        }
      }
    }
  }

  lemma {:induction false} KeptIsTail(history: Entries)
    ensures Kept(history) == history[Start(history)..]
    ensures Fits(Kept(history))
    ensures history != [] ==> Kept(history) != []
  {
    KeptFits(history);
    if history != [] {
      var front, last := history[..|history| - 1], history[|history| - 1];
      var kept := Evict(Kept(front), |last.frame|);
      KeptIsTail(front);
      EvictTail(Kept(front), |last.frame|);
      TailPush(front, last, Kept(front), kept);
      SplitLast(history);
      assert Start(history) == |front| - |kept|;
    }
  }

  lemma {:induction false} EvictTail(w: Entries, n: nat)
    ensures Evict(w, n) == w[|w| - |Evict(w, n)|..]
  {
    EvictIsTail(w, n);
  }

  lemma {:induction false} TailPush(front: Entries, last: Entry, before: Entries, kept: Entries)
    requires |kept| <= |before| <= |front|
    requires before == front[|front| - |before|..] && kept == before[|before| - |kept|..]
    ensures kept + [last] == (front + [last])[|front| - |kept|..]
  {
    TailByLength(front, before, kept);
    PushToTail(front, last, |front| - |kept|);
  }

  lemma {:induction false} KeptFits(history: Entries)
    ensures Fits(Kept(history)) && (history != [] ==> Kept(history) != [])
  {
    if history != [] {
      var last := history[|history| - 1];
      var kept := Evict(Kept(history[..|history| - 1]), |last.frame|);
      EvictIsTail(Kept(history[..|history| - 1]), |last.frame|);
      SizeConcat(kept, [last]);
    }
  }

  /** No longer suffix fits: the log forgets nothing it has room for. */
  lemma {:induction false} KeptIsLongest(history: Entries, i: nat)
    requires i < Start(history)
    ensures !Fits(history[i..])
  {
    var front, last := history[..|history| - 1], history[|history| - 1];
    var before := Kept(front);
    KeptIsTail(front);
    EvictIsTail(before, |last.frame|);
    SplitLast(history);
    PushToTail(front, last, i);
    SizeConcat(front[i..], [last]);
    if i < Start(front) {
      KeptIsLongest(front, i);
    } else {
      TailOfTail(front, Start(front), i - Start(front));
    }
  }

  /** The start only moves forward. */
  lemma {:induction false} StartAdvances(history: Entries, e: Entry)
    ensures Start(history) <= Start(history + [e])
  {
    KeptPush(history, e);
  }

  lemma {:induction false} StartMonotone(h: Entries, more: Entries)
    ensures Start(h) <= Start(h + more)
  {
    if more == [] {
      assert h + more == h;
    } else {
      var front, last := more[..|more| - 1], more[|more| - 1];
      StartMonotone(h, front);
      StartAdvances(h + front, last);
      assert h + more == h + front + [last];
    }
  }

  // ----- Junk cannot displace history -----

  ghost function CoreCount(w: Entries): nat {
    if w == [] then 0
    else CoreCount(w[..|w| - 1]) + (if w[|w| - 1].core then 1 else 0)
  }

  ghost function CoreBytes(w: Entries): nat {
    if w == [] then 0
    else CoreBytes(w[..|w| - 1]) + (if w[|w| - 1].core then |w[|w| - 1].frame| else 0)
  }

  /** The budget is for the whole session, not for a sliding window. */
  lemma {:induction false} UnknownBudgetHolds(arrivals: Entries)
    ensures UnknownCount(Retained(arrivals)) <= MAX_UNKNOWN_FRAMES
    ensures UnknownBytes(Retained(arrivals)) <= UNKNOWN_FRAMES_MAX_BYTES
  {
    if arrivals != [] {
      var front := arrivals[..|arrivals| - 1];
      UnknownBudgetHolds(front);
      UnknownPush(Retained(front), arrivals[|arrivals| - 1]);
    }
  }

  lemma {:induction false} UnknownNext(w: Entries)
    requires w != []
    ensures UnknownCount(w) >= UnknownCount(w[..|w| - 1]) && UnknownBytes(w) >= UnknownBytes(w[..|w| - 1])
  {
  }

  /** While the unknown frames that arrived are within the budget, nothing is
      turned away. */
  lemma {:induction false} WithinBudgetAllIsRetained(arrivals: Entries)
    requires UnknownCount(arrivals) <= 256 && UnknownBytes(arrivals) <= 4 * 1024 * 1024
    ensures Retained(arrivals) == arrivals
  {
    if arrivals != [] {
      UnknownNext(arrivals);
      WithinBudgetAllIsRetained(arrivals[..|arrivals| - 1]);
      SplitLast(arrivals);
    }
  }

  /** In every run a frame that arrives is retained if and only if it is core, or
      the unknown frames retained before it leave room for one more and for its
      bytes. */
  lemma {:induction false} RetainedExactly(arrivals: Entries, e: Entry)
    ensures var before := Retained(arrivals);
            Retained(arrivals + [e]) ==
            if e.core || (UnknownCount(before) < 256 && UnknownBytes(before) + |e.frame| <= 4 * 1024 * 1024)
                then before + [e] else before
  {
    RetainedPush(arrivals, e);
  }

  /** What is retained of `later`, once `before` has been. */
  ghost function RetainedAfter(before: Entries, later: Entries): Entries {
    if later == [] then []
    else
      var r, last := RetainedAfter(before, later[..|later| - 1]), later[|later| - 1];
      if Admitted(before + r, last) then r + [last] else r
  }

  lemma {:induction false} RetainedSplit(earlier: Entries, later: Entries)
    ensures Retained(earlier + later) == Retained(earlier) + RetainedAfter(Retained(earlier), later)
  {
    if later == [] {
      assert earlier + later == earlier;
    } else {
      var front, last := later[..|later| - 1], later[|later| - 1];
      RetainedSplit(earlier, front);
      SplitLast(later);
      ConcatPush(earlier, front, last);
      RetainedPush(earlier + front, last);
      ConcatPush(Retained(earlier), RetainedAfter(Retained(earlier), front), last);
    }
  }

  /** What is retained of later arrivals is all their core frames, and unknown
      ones only out of what the budget had left. */
  lemma {:induction false} RetainedCounts(before: Entries, later: Entries)
    ensures var r := RetainedAfter(before, later);
            && |r| == CoreCount(later) + UnknownCount(before + r) - UnknownCount(before)
            && Size(r) == CoreBytes(later) + UnknownBytes(before + r) - UnknownBytes(before)
  {
    if later == [] {
      assert before + [] == before;
    } else {
      var front, last := later[..|later| - 1], later[|later| - 1];
      RetainedCounts(before, front);
      var r := RetainedAfter(before, front);
      UnknownPush(before + r, last);
      assert before + (r + [last]) == before + r + [last];
      SizeConcat(r, [last]);
      assert Size([last]) == |last.frame|;
    }
  }

  lemma {:induction false} CoreArrivalIsRetained(before: Entries, later: Entries)
    requires later != [] && later[0].core
    ensures RetainedAfter(before, later) != [] && RetainedAfter(before, later)[0] == later[0]
  {
    if |later| > 1 {
      CoreArrivalIsRetained(before, later[..|later| - 1]);
    }
  }

  /** A core frame among the newest core frames is still in the log, whatever
      frames of unknown kinds arrived around it. */
  lemma {:induction false} JunkCannotDisplaceHistory(arrivals: Entries, i: nat)
    requires i < |arrivals| && arrivals[i].core
    requires CoreCount(arrivals[i..]) <= SYNC_LOG_CAP - MAX_UNKNOWN_FRAMES
    requires CoreBytes(arrivals[i..]) <= SYNC_LOG_MAX_BYTES - UNKNOWN_FRAMES_MAX_BYTES
    ensures var position, history := |Retained(arrivals[..i])|, Retained(arrivals);
            Start(history) <= position < |history| && history[position] == arrivals[i]
  {
    var before, history := Retained(arrivals[..i]), Retained(arrivals);
    var later := RetainedAfter(before, arrivals[i..]);
    assert arrivals == arrivals[..i] + arrivals[i..];
    RetainedSplit(arrivals[..i], arrivals[i..]);
    UnknownBudgetHolds(arrivals);
    RetainedCounts(before, arrivals[i..]);
    CoreArrivalIsRetained(before, arrivals[i..]);
    assert history[|before|..] == later;
    if |before| < Start(history) {
      KeptIsLongest(history, |before|);
      assert false;
    }
  }
}
