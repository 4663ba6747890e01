# iroh-drop, verified

A Dafny 4.11 model of the core of iroh-drop, a peer-to-peer file drop: the
replicated state of a drop session, the protocol by which late joiners catch up
with it, its flood control and fetch accounting, its wire formats, and the
daemon's consent flow. `dafny verify dfyconfig.toml` checks everything.

What changes state in the program is a class with the program's own fields and
loops, proved against a function of its history; what is concurrent is a state
machine over its atomic steps; what is a codec is a pair of functions.

| file | models |
|---|---|
| Common.dfy | identities and sequence facts |
| DedupCache.dfy | the message deduplication cache |
| SyncLog.dfy | the retained history of signed frames |
| CatchUp.dfy | serving, pulling and exporting that history |
| Transfer.dfy | whether a page arrives: the encoded reply and the page limiter |
| Replay.dfy | whether a frame handed over is applied: the message limiter |
| ProviderSet.dfy | one blob's newest-wins provider register |
| OfferTable.dfy | the offer table, its quotas, and the peers known |
| Convergence.dfy, Session.dfy | a session over all of these, and why sessions agree |
| Restore.dfy, Joining.dfy | restoring an exported history; pulling from a peer and from each other |
| RateLimiter.dfy | per-peer token buckets |
| AutoFetch.dfy | reserving and refunding automatic fetches |
| Consent.dfy | the ask router and concurrent consent flows |
| Postcard.dfy, TextMap.dfy, Base32.dfy, Unicode.dfy | encodings shared by the wire formats |
| Ticket.dfy | tickets, links, and finding a ticket in a text |
| Messages.dfy, Frames.dfy | bodies, envelopes, signed and sealed frames |
| Decoding.dfy, OfferLogs.dfy | frames as the session sees them; logs of genuine offers that do not arrive in full |
| SyncRequest.dfy | page requests and key proofs |

## How it is modelled

- Keys, hashes and frame ids are numbers read from their bytes; only equality
  and order matter. Clock readings and other inputs from outside are parameters.
- Convergence assumes what the program's own limits assume: no table or
  provider cap can be reached by the frames in question (`Roomy`, a condition
  on the set of frames), an author never reuses an id (`UniqueIds`), the default
  decider, no local fetches. It holds with the dedup cache at work as well as
  with frames applied again after it forgot them.
- Token counts and elapsed times are exact reals where the program uses `f64`.
- Signatures, seals and proof codes are ideal: a set of those made, in which
  none is good for two inputs. Public-key and URL validity are parameters.
- The byte counter of automatic fetches wraps at 2^64, as the program's does.
- A pull is modelled twice: in CatchUp.dfy a page is answered or not, for no
  reason; in Transfer.dfy the reasons are the size of the encoded reply and the
  server's page limiter, which charges the hello too and closes the connection.
  The theorems there hold for any limiter and any reader of replies; those about
  instants, paces and failing logs are of the real ones.
- The theorems on sessions and replay hold for any decoder of frames;
  Decoding.dfy is the one of a public drop.
- What methods are proved against is stated a second time, in numbers and
  without naming those functions, by the lemmas called `...Exactly`, `...Layout`
  and `...Ok`.
- A handler admits a frame under one lock and applies it under another; frames
  admitted and not yet applied are in flight.

## What the code does differently from its comments

- `ordered()` sorts by failures before the original offerer
  (crates/iroh-drop/src/provider.rs:154): `Providers.OriginalFirstExactly`.
- `add` and `mark_failure` never enforce the provider cap
  (crates/iroh-drop/src/provider.rs:50, :131): `Providers.CapHoldsExactly`,
  `Providers.RegisterCount`.
- Neighbors that come up unknown take known peers over their bound, and after
  them so does a noted peer (crates/iroh-drop/src/session.rs:1470):
  `Offers.BoundBreaksExactly`.
- The server fills a page with 512 KiB of frames alone
  (crates/iroh-drop/src/sync.rs:344) and the client reads 512 KiB of the whole
  reply (crates/iroh-drop/src/sync.rs:577): `Transfer.FullPageIsLost`,
  `OfferLogs.GenuinePageIsLost`.
- A pull of more than 31 pages at once runs into the server's page limiter
  (crates/iroh-drop/src/sync.rs:215): `Transfer.LongPullIsRefused`,
  `OfferLogs.GenuinePullIsRefused`.
- Frames pulled are charged to the message limiter
  (crates/iroh-drop/src/session.rs:1603), so pulling from each other makes two
  neighbors converge (crates/iroh-drop/src/session.rs:1556) when every arrival
  finds a token, and frames are lost otherwise: `Joining.BothDirectionsConverge`,
  `Replay.InstantCatchUpExactly`, `OfferLogs.SixtyFifthOfferIsLost`.
- The UI asked is the last to reach the list, which two registrations at once
  can do against the order of their tokens: `Consent.TokensAreNoOrder`.
- A dedup cache of capacity 0 still remembers the newest key
  (crates/iroh-drop/src/state.rs:143); the properties hold with capacity 1 there.
- The limits on automatic fetches are exceeded when handlers overlap:
  `AutoFetch.LimitIsKeptOnlyAlone`, `AutoFetch.BudgetIsKeptOnlyAlone`.
- A sealed envelope within forty bytes of the body limit is accepted by members
  and refused by blind relays: `Frames.RelayGap`.
- A public frame met by a sealed session is reported as version 2, the version
  it carries, where crates/iroh-drop/src/seal.rs:254 speaks of 3.

## Model

| member | source | states |
|---|---|---|
| `Dedup.DedupCache.CheckAndInsert` | crates/iroh-drop/src/state.rs:138-153 | Answers `false` exactly when the key was accepted at most TTL ago with fewer than `capacity` keys accepted since, over everything ever asked; the table stays within its capacity. |
| `Dedup.DedupCache.EvictExpired` | crates/iroh-drop/src/state.rs:155-170 | Drops exactly the expired entries at the front; table and queue stay in bijection. |
| `Dedup.RunIsExact` | crates/iroh-drop/src/state.rs:138-170 | Over every run on a clock that does not go back, the bounded cache accepts exactly what the unbounded history rule accepts. |
| `Dedup.RunsNeverRepeatEarly` | crates/iroh-drop/src/state.rs:116-153 | In every run a key is accepted again only after its TTL or `capacity` other acceptances. |
| `Dedup.LatestAcceptanceDecides` | crates/iroh-drop/src/state.rs:138-153 | Only the last acceptance of a key matters to the answer. |
| `Dedup.ReplayIsSilent` | crates/iroh-drop/src/state.rs:138-153 | A batch no larger than the capacity, presented again in any order within the TTL, is refused entirely. |
| `SyncLog.FrameLog.RetainFrame` | crates/iroh-drop/src/state.rs:390-402 | The log becomes the eviction rule applied to the whole history plus the new frame; counters and cursor base stay exact. |
| `SyncLog.FrameLog.RetainUnknownFrame` | crates/iroh-drop/src/state.rs:407-416 | Retained if and only if fewer than 256 unknown frames were, and their bytes and its own come to at most 4 MiB; otherwise the history stays as it is. |
| `SyncLog.FrameLog.SyncFrames` | crates/iroh-drop/src/state.rs:429-448 | The page equals the one read off the full, never evicted history between clamped absolute cursors. |
| `SyncLog.KeptIsTail` | crates/iroh-drop/src/state.rs:390-402 | The log is always a suffix of everything retained and fits both bounds (a single oversized frame is kept alone). |
| `SyncLog.KeptIsLongest` | crates/iroh-drop/src/state.rs:390-402 | No longer suffix fits: with `KeptIsTail`, the log is the longest fitting suffix. |
| `SyncLog.UnknownBudgetHolds` | crates/iroh-drop/src/state.rs:407-416 | In any run at most 256 unknown frames and 4 MiB of them are ever retained. |
| `SyncLog.RetainedExactly` | crates/iroh-drop/src/state.rs:388-416 | In every run a frame that arrives is retained if and only if it is core or that budget has room for it. |
| `SyncLog.WithinBudgetAllIsRetained` | crates/iroh-drop/src/state.rs:407-416 | In a run whose unknown frames are within the budget nothing is turned away. |
| `SyncLog.JunkCannotDisplaceHistory` | crates/iroh-drop/src/state.rs:388-416 | A core frame among the newest core frames within the caps less the unknown budgets is still in the log, whatever unknown frames arrived. |
| `CatchUp.ServePage` | crates/iroh-drop/src/sync.rs:291-363 | A public drop serves the page asked for; a private one serves it if and only if it has the key and the request a proof, and the code of that proof was made with the key for the topic and the text of asker, asked and request; everyone else, and every unknown drop, gets the page of an empty log. |
| `CatchUp.HonestIsServed` | crates/iroh-drop/src/sync.rs:299-332 | What an honest keyed client sends decodes to the page it asked for and passes the check of a server with its key; a server without a key serves nobody. |
| `CatchUp.OnlyTheAskerIsServed` | crates/iroh-drop/src/sync.rs:299-332 | A page of a private drop goes only to the peer the proof was made for, by the one it was made to, and is the page of the topic, cursor and size it was made for. |
| `CatchUp.BuildPage` | crates/iroh-drop/src/sync.rs:334-370 | The served page is the cut of the log by count and bytes. |
| `CatchUp.PageMeaning` | crates/iroh-drop/src/sync.rs:334-370 | A page is the longest run of consecutive retained frames from the cursor on within both limits; next cursor and truncation flag say exactly where it stopped and what was lost. |
| `CatchUp.ExportHistory` | crates/iroh-drop/src/session.rs:1312-1327 | Reading a quiescent log page by page yields exactly the log. |
| `CatchUp.SyncCatchup` | crates/iroh-drop/src/sync.rs:457-554 | The loop is the budgeted fold of replies, for any replies, and stops as soon as it has ended. |
| `CatchUp.BudgetsHold` | crates/iroh-drop/src/sync.rs:486-543 | Against any peer: at most 128 pages taken, 8192 frames and 64 MiB handed over, and the attempt has ended by the 129th reply. |
| `CatchUp.RoundTripExactly` | crates/iroh-drop/src/sync.rs:472-543 | One round trip, whatever comes back: frames are taken in order, all of them unless one more would exceed 8192 frames or 64 MiB; then the attempt ends at the end of the log, goes on at a cursor further on, or stalls; a missing reply fails it and the 129th page stops it. |
| `CatchUp.HandedOverInOrder` | crates/iroh-drop/src/sync.rs:457-543 | Under any interleaving of server retention and client pages, what is handed over is a strictly increasing subsequence of the full history. |
| `CatchUp.CaughtUpMeansEverything` | crates/iroh-drop/src/sync.rs:539-542 | When a page reports the end, every frame retained at that moment has been handed over. |
| `CatchUp.TruncationIsExact` | crates/iroh-drop/src/sync.rs:364-370 | A later page is flagged truncated if and only if frames not handed over were evicted since, and those are never handed over afterwards. |
| `CatchUp.OnlyLostPagesCut` | crates/iroh-drop/src/sync.rs:457-543 | Against an honest peer whose affordable log keeps growing, none of the three client budgets and no stall ends an attempt: it fails if and only if a page it asked for got no answer. |
| `CatchUp.NinetyPagesSuffice` | crates/iroh-drop/src/sync.rs:457-543 | If every page is answered, 90 pages end the pull of any unchanging log as caught up. |
| `CatchUp.PagesSuffice` | crates/iroh-drop/src/sync.rs:457-543 | If every page is answered, an unchanging log takes exactly its number of pages, and they hand over exactly the log. |
| `Transfer.ReplySizeIs` | crates/iroh-drop/src/sync.rs:270-288 | A reply is as long as its frames, their length prefixes and the headers, spelled out. |
| `Transfer.ReplyLayout` | crates/iroh-drop/src/sync.rs:158-176 | The bytes of a reply: version, next cursor, frames with their lengths, oldest cursor, flag. |
| `Transfer.ControlLayout` | crates/iroh-drop/src/sync.rs:82-90 | The bytes around it: version, operation, payload with its length. |
| `Transfer.ReadableExactly` | crates/iroh-drop/src/sync.rs:573-598 | A page is read, and read as it was sent, if and only if that sum is at most 512 KiB; the connection of the theorems on instants and failing logs is the one that reads this way. |
| `Transfer.CatchesUpExactly` | crates/iroh-drop/src/sync.rs:457-543 | Under any interleaving with a growing affordable log, an attempt that ends has caught up if and only if every page it asked for was let through and could be read; it fails in every other case. |
| `Transfer.QuietPullExactly` | crates/iroh-drop/src/sync.rs:457-543 | An unchanging log is handed over exactly if and only if the hello and the request of each of its pages is let through and each of its pages can be read; otherwise the attempt fails. |
| `Transfer.InstantPullExactly` | crates/iroh-drop/src/sync.rs:214-219 | On a fresh page bucket and all at once, that is: at most 31 pages, each short enough. |
| `Transfer.PacedExactly` | crates/iroh-drop/src/sync.rs:214-219 | On a fresh page bucket a request is let through if and only if no window of requests ending with it exceeds 32 plus 4 a second. |
| `Transfer.LightLogFits` | crates/iroh-drop/src/sync.rs:344-352 | Every page of a log is short enough if all its frames together leave 798 bytes of one page budget free. |
| `Transfer.FullPageIsLost` | crates/iroh-drop/src/sync.rs:573-579 | Failing input: any log of 256 frames of 2048 bytes is never handed over, whenever it is asked for. |
| `Transfer.LongPullIsRefused` | crates/iroh-drop/src/sync.rs:214-219 | Failing input: any log of 416 frames of 40000 bytes, every page of which is short enough, pulled at once, fails at its 33rd request, 13 frames short. |
| `Replay.ReplayAttempt` | crates/iroh-drop/src/session.rs:1602-1623 | Of the frames replayed, exactly those that find a token in the bucket of the peer they came from reach the session. |
| `Replay.DroppedExactly` | crates/iroh-drop/src/session.rs:1602-1610 | A frame is dropped if and only if some window of calls ending with it would exceed burst plus refill. |
| `Replay.ReplayIsBounded` | crates/iroh-drop/src/session.rs:1602-1610 | However many frames one replay hands over, at most burst plus rate times elapsed reach the session. |
| `Replay.InstantReplayExactly` | crates/iroh-drop/src/session.rs:1602-1610 | At one instant on a fresh bucket everything is delivered if and only if at most 64 frames were handed over; otherwise 64 are. |
| `Replay.InstantCatchUpExactly` | crates/iroh-drop/src/sync.rs:457-543 | Pulled and replayed at one instant on fresh buckets, a log is caught up with and all of it that decodes reaches the session if and only if it takes at most 31 pages, each short enough, and at most 64 of its frames decode. |
| `Replay.OnePageIsCutAt64` | crates/iroh-drop/src/session.rs:1602-1610 | A log of up to 256 decodable frames that leaves a page its overhead is handed over whole; the session gets all of it if and only if there are at most 64 frames, and otherwise exactly the first 64. |
| `OfferLogs.GenuinePageIsLost` | crates/iroh-drop/src/sync.rs:573-579 | Failing input, down to the bytes: 256 different signed offers of 2048 bytes, each of which a member decodes, are kept by a log and never handed over. |
| `OfferLogs.GenuinePullIsRefused` | crates/iroh-drop/src/sync.rs:214-219 | Failing input, down to the bytes: 416 such offers of 40000 bytes, pulled at once, come 13 short. |
| `OfferLogs.SixtyFifthOfferIsLost` | crates/iroh-drop/src/session.rs:1602-1610 | Failing input, down to the bytes: 65 such offers are handed over in full and exactly the last one never reaches the session. |
| `Decoding.IdentityIsKept` | crates/iroh-drop/src/session.rs:1448-1463 | What a member of a public drop decodes has the same author and id as a frame of the model exactly if it has them as a message. |
| `Decoding.NumbersAreOrdered` | crates/iroh-drop/src/provider.rs:79-84 | Ids of one length are ordered as numbers exactly as they are byte by byte. |
| `Decoding.HonestIsUnderstood` | crates/iroh-drop/src/session.rs:1448-1463 | An honest message within bounds reaches the tables under its author and id. |
| `Decoding.BodyMeans` | crates/iroh-drop/src/session.rs:1644-1676 | What the tables make of each body: state 1 of a claim is a withdrawal, a claim without a time counts as made at time 0. |
| `Providers.ProviderSet.Add` | crates/iroh-drop/src/provider.rs:50-55 | A known provider is left as it is; the first original offerer stays. |
| `Providers.ProviderSet.Record` | crates/iroh-drop/src/provider.rs:71-95 | A stale assertion changes nothing; otherwise the register is the asserted one, capped, and the answer says whether the claim changed. |
| `Providers.RecordedExactly` | crates/iroh-drop/src/provider.rs:71-95 | By times and ids: an assertion earlier than what is known, or as early with a smaller frame id, changes nothing; any other is written down, takes the original mark away if it withdraws, and only then is the register capped. |
| `Providers.ProviderSet.EnforceCap` | crates/iroh-drop/src/provider.rs:106-128 | Leaves exactly min(size, 64) entries, each ranked above every one removed, and clears the original if it was removed. |
| `Providers.TrimmedExactly` | crates/iroh-drop/src/provider.rs:106-128 | In plain terms: what is kept is at most 64 entries, and one entry goes before another if it alone is withdrawn, else if it failed more often, else if it claimed less recently, else by id. |
| `Providers.ProviderSet.Remove` | crates/iroh-drop/src/provider.rs:98-103 | Forgets the entry, tombstone and original mark. |
| `Providers.ProviderSet.MarkAnnounced` | crates/iroh-drop/src/provider.rs:58-60 | An assertion at the largest timestamp and frame id. |
| `Providers.ProviderSet.MarkFailure` | crates/iroh-drop/src/provider.rs:131-135 | Failures grow by one, saturating; an unknown peer is created. |
| `Providers.ProviderSet.MarkSuccess` | crates/iroh-drop/src/provider.rs:138-143 | Resets a known peer's failures and touches nothing else. |
| `Providers.ProviderSet.Ordered` | crates/iroh-drop/src/provider.rs:147-165 | Lists exactly the live providers, strictly increasing by failures, original first, id. |
| `Providers.FetchOrderExactly` | crates/iroh-drop/src/provider.rs:147-165 | In plain terms: the live providers, each before another if it failed less often, else if it alone is the original, else by id. |
| `Providers.FetchOrderIsUnique` | crates/iroh-drop/src/provider.rs:147-165 | The fetch order is determined by the register alone, not by map order. |
| `Providers.TrimIsUnique` | crates/iroh-drop/src/provider.rs:106-128 | What the cap keeps is determined by the entries alone, not by map order. |
| `Providers.NewestWins` | crates/iroh-drop/src/provider.rs:62-95 | Over any run, a provider whose entry is not dropped holds the newest claim it ever made. |
| `Providers.LatestClaimStands` | crates/iroh-drop/src/provider.rs:62-95 | By times and ids: what a register says of a provider it did not drop is a claim that provider made (or what was known before), and none of its claims is later, or as late with a larger id. |
| `Providers.WinnerIsNewest` | crates/iroh-drop/src/provider.rs:79-84 | No claim made is newer than the winning one. |
| `Providers.WinnerWasMade` | crates/iroh-drop/src/provider.rs:79-84 | The winning claim was made, unless nothing as new as the starting claim was. |
| `Providers.WinnerIsOrderFree` | crates/iroh-drop/src/provider.rs:79-84 | The same claims in any order, repeated at will, have the same winner. |
| `Providers.NoResurrection` | crates/iroh-drop/src/provider.rs:62-95 | After a withdrawal no adding, failing, succeeding or older claim makes the provider live while its tombstone is kept. |
| `Providers.CapHoldsExactly` | crates/iroh-drop/src/provider.rs:50-55 | A register within the cap leaves it exactly by adding or failing an unknown peer when full, since neither enforces the cap. |
| `Providers.RegisterCount` | crates/iroh-drop/src/provider.rs:50-135 | Over every run the register holds what it held when the cap was last enforced, at most 64, and one more for each unknown peer added or marked failed since. |
| `Providers.AddsBreakTheCap` | crates/iroh-drop/src/provider.rs:50-55 | Failing input: 65 different peers added to an empty register make 65 entries. |
| `Providers.OriginalFirstExactly` | crates/iroh-drop/src/provider.rs:145-165 | A live original offerer comes first if and only if no live provider has failed less often. |
| `Providers.OriginalCanComeSecond` | crates/iroh-drop/src/provider.rs:145-165 | Failing input: after one failure of the original an untried provider comes before it. |
| `Offers.OfferTable.RecordOfferInner` | crates/iroh-drop/src/state.rs:470-504 | New state and outcome of an offer, quota, aliases and eviction included. |
| `Offers.RefusedOverQuota` | crates/iroh-drop/src/state.rs:470-476 | An offer is refused, and changes nothing, if and only if its hash is unknown and 512 offers of its author are in the table. |
| `Offers.KnownOfferIs` | crates/iroh-drop/src/state.rs:477-487 | An offer of a known hash moves the hash to the back of the queue, adds its name while there are fewer than 16 and its author to the register, and changes nothing else. |
| `Offers.NewOfferIs` | crates/iroh-drop/src/state.rs:488-504 | A new offer below the cap is recorded under its one name and queued last, with its author in the register; nothing leaves. |
| `Offers.NewOfferReplaces` | crates/iroh-drop/src/state.rs:361-386 | A new offer in a full table takes the place of the offer seen longest ago, which is reported and leaves with its register, and only it. |
| `Offers.OfferTable.RecordOfferBounded` | crates/iroh-drop/src/state.rs:458-461 | The same, and the author noted as a peer. |
| `Offers.OfferTable.RecordProvider` | crates/iroh-drop/src/state.rs:325-350 | A claim about a hash reaches the register of that hash and nothing else, and the answer says whether it told anything new. |
| `Offers.OfferTable.TouchOffer` | crates/iroh-drop/src/state.rs:354-359 | Moves the hash to the end of the queue, once. |
| `Offers.OfferTable.EnforceOfferCap` | crates/iroh-drop/src/state.rs:368-386 | The fitted table and the list of forgotten hashes, oldest first. |
| `Offers.OfferTable.NotePeer` | crates/iroh-drop/src/state.rs:312-321 | A new peer is queued and the oldest queued ones forgotten past the cap. |
| `Offers.NotedExactly` | crates/iroh-drop/src/state.rs:312-321 | A new peer is queued last and, of a full queue, the peer queued longest is forgotten; a known peer changes nothing. |
| `Offers.OfferTable.NeighborUp` | crates/iroh-drop/src/session.rs:1467-1471 | A neighbor becomes known without being queued. |
| `Offers.OfferedIsSound` | crates/iroh-drop/src/state.rs:470-504 | Every offer keeps the invariant (queue = keys without repetition, exact author counts without zeros and within quota, every hash has providers, names bounded); a new offer forgets at most the oldest and never itself. |
| `Offers.SoundExactly` | crates/iroh-drop/src/state.rs:470-504 | That invariant in plain terms: a queue without repetition of exactly the hashes held, counts that are numbers of offers, at least 1 and at most 512, a register for every hash, at most 16 names and 4096 offers. |
| `Offers.RunIsSound` | crates/iroh-drop/src/state.rs:470-504 | The invariant holds in every run of offers and claims. |
| `Offers.QueueIsRecent` | crates/iroh-drop/src/state.rs:354-386 | The queue is always the newest 4096 of all accepted sightings by last occurrence. |
| `Offers.TableIsLeastRecentlySeen` | crates/iroh-drop/src/state.rs:352-386 | A hash is in the table if and only if fewer than 4096 other hashes were sighted since its own last accepted sighting. |
| `Offers.DamageIsBounded` | crates/iroh-drop/src/state.rs:361-386 | In any run whose offers come from authors in S, evicted offers of others plus what S held before are at most 512 |S|. |
| `Offers.BoundBreaksExactly` | crates/iroh-drop/src/session.rs:1467-1471 | From within the bound on known peers an event leaves it if and only if its peer is unknown, the bound is reached, and it is a neighbor coming up or the queue has room. |
| `Offers.KnownPeersBound` | crates/iroh-drop/src/state.rs:311-321 | In every run the known peers number the unknown peers noted, counted up to 1024, plus the neighbors that came up unknown. |
| `Offers.NeighborsBreakTheBound` | crates/iroh-drop/src/session.rs:1467-1471 | Failing input: 1025 neighbors coming up make 1025 known peers. |
| `Convergence.NobodyDropped` | crates/iroh-drop/src/provider.rs:71-95 | Below the cap a register holds exactly the peers that spoke. |
| `Convergence.SettledIs` | crates/iroh-drop/src/provider.rs:62-95 | A register below the cap is the newest claim of every peer that spoke of the hash. |
| `Convergence.HeardMirrors` | crates/iroh-drop/src/session.rs:1648-1676 | Below the caps the tables are a function of the frames applied. |
| `Convergence.LiveExactly` | crates/iroh-drop/src/session.rs:1648-1676 | Below the caps a peer is shown as serving a blob if and only if it offered it or claimed something about it, and its last word on it, by time and then id, is not a withdrawal. |
| `Convergence.SessionsConverge` | crates/iroh-drop/src/session.rs:1610-1676 | Two sessions that applied the same news in any order, repeated at will, agree on the offers and on everyone's provider state but their own. |
| `Convergence.AgreeExactly` | crates/iroh-drop/src/session.rs:1610-1676 | Agreement in plain terms: the same hashes offered, and of everyone else the same providers with the same state, time and id. |
| `Convergence.FewAreRoomy` | crates/iroh-drop/src/provider.rs:16-16 | Any 64 frames are below every cap. |
| `Session.Session.Admit` | crates/iroh-drop/src/session.rs:1602-1628 | The first lock section: a frame let through is deduplicated and retained by kind, its deliverer noted as a peer, and it is its handler's to apply if it is core and new; a frame not let through changes nothing. |
| `Session.Session.Finish` | crates/iroh-drop/src/session.rs:1644-1676 | The second lock section: a handler applies its frame, in whatever order handlers get there, and the author of an offer is noted as a peer. |
| `Session.Session.HandleMessage` | crates/iroh-drop/src/session.rs:1581-1676 | Both sections, one after the other; the session state stays the one its deliveries and applied frames account for, and the known peers are exactly those noted on the way. |
| `Session.Session.Broadcast` | crates/iroh-drop/src/session.rs:1139-1168 | An own frame is made known to dedup and log; only own offers reach the tables. |
| `Session.Session.RestoreFrame` | crates/iroh-drop/src/session.rs:1336-1384 | A restored frame is applied exactly if it is core and its id is new, and no peer is credited for it. |
| `Session.RestoreHistory` | crates/iroh-drop/src/session.rs:1336-1384 | The number applied is the number of core frames the session had not seen; the known peers stay as they are. |
| `Session.GainedIsApplied` | crates/iroh-drop/src/session.rs:1336-1384 | That number is by how many the applied frames grow. |
| `Session.ExpectedIs` | crates/iroh-drop/src/session.rs:1581-1676 | What a session keeps up to date step by step equals dedup calls, frames due and log arrivals of the whole run. |
| `Session.LoggedExactly` | crates/iroh-drop/src/session.rs:1588-1628 | What a delivery puts into the log: offers and claims if own or new, extensions likewise unless restored, requests never. |
| `Session.AppliedExactly` | crates/iroh-drop/src/session.rs:1610-1676 | What a delivery gives the tables: own offers always, offers and claims of others if new, nothing else. |
| `Session.DeliveredIsApplied` | crates/iroh-drop/src/session.rs:1619-1622 | Deduplication loses nothing: whatever was delivered is applied, own claims excepted. |
| `Session.DeliveriesConverge` | crates/iroh-drop/src/session.rs:1610-1676 | Two sessions handed the same news, relayed, announced or restored, in any order and any number of times, that applied what was due in any order, agree on offers and on the live providers other than themselves. |
| `Session.QuietSessionsAgree` | crates/iroh-drop/src/session.rs:1610-1676 | So do two running sessions with no frame in flight, in the tables they hold. |
| `Session.ShownExactly` | crates/iroh-drop/src/session.rs:1610-1676 | A running session with nothing in flight shows exactly the hashes offered to it, and of everyone but itself exactly the providers that offered or claimed a blob and whose last word, of all delivered, is not a withdrawal. |
| `Restore.ExportCarriesNews` | crates/iroh-drop/src/session.rs:1312-1327 | While the log has evicted nothing, what is exported carries all the news that was delivered and nothing else. |
| `Restore.RestoredAgrees` | crates/iroh-drop/src/session.rs:1312-1384 | A session given that export, as history or by a peer, agrees with the exporting one on offers and on the live providers other than the two. |
| `Joining.JoinerAgrees` | crates/iroh-drop/src/session.rs:1553-1579 | An empty session that pulls an unchanging, never evicted log in full, and whose replay finds a token for every frame, agrees with the serving session. |
| `Joining.InstantAttemptExactly` | crates/iroh-drop/src/sync.rs:457-543 | At one instant and on fresh buckets, an attempt gets through in that sense if and only if the log takes at most 31 pages, each short enough, and at most 64 of its frames decode. |
| `Joining.BothDirectionsConverge` | crates/iroh-drop/src/session.rs:1553-1579 | Two running sessions that pull each other's log in full, in either order or at the same time, agree on offers and on the live providers other than the two. |
| `Session.RestoringAgainIsSilent` | crates/iroh-drop/src/session.rs:1344-1346 | Restoring what was delivered again, within TTL and dedup capacity, applies nothing. |
| `Session.RestoredLogIsRemembered` | crates/iroh-drop/src/session.rs:1344-1346 | With the real cache this covers every exported log for ten minutes. |
| `RateLimiter.PeerRateLimiter.AllowAt` | crates/iroh-drop/src/limits.rs:79-102 | The answer is whether the refilled bucket holds a whole token, and the one token is taken; it is the bucket of that peer's tracked calls alone, and others' are untouched but for eviction. |
| `RateLimiter.RefilledExactly` | crates/iroh-drop/src/limits.rs:84-92 | In numbers: what was left, and the rate for every second that passed on a clock that does not count backwards, but never more than the burst. |
| `RateLimiter.PeerRateLimiter.Evict` | crates/iroh-drop/src/limits.rs:105-111 | The oldest tracked peers past 4096 are forgotten. |
| `RateLimiter.LeastHeadroom` | crates/iroh-drop/src/limits.rs:79-102 | The bucket equals the least of burst plus refill minus passes over all windows ending now. |
| `RateLimiter.RefusedExactly` | crates/iroh-drop/src/limits.rs:79-102 | A call is refused if and only if some window ending with it would exceed burst plus refill. |
| `RateLimiter.RefusedOnClock` | crates/iroh-drop/src/limits.rs:79-102 | On a clock that does not go back, in numbers: refused if and only if, from some earlier call on, one more than the burst and the rate times the time since would have passed, or the burst is below one. |
| `RateLimiter.WindowIsBounded` | crates/iroh-drop/src/limits.rs:79-102 | In any window at most the burst plus the rate times the seconds that passed go through. |
| `RateLimiter.PeersAreIndependent` | crates/iroh-drop/src/limits.rs:79-111 | While the table is not over-full every peer is answered as if it were alone. |
| `RateLimiter.TrackedIsAlone` | crates/iroh-drop/src/limits.rs:79-111 | In every run, however many peers call, a tracked peer is answered as if it were alone since the call with which it entered the table it has not left since; a peer not tracked finds a full bucket. |
| `AutoFetch.CheckExactly` | crates/iroh-drop/src/policy.rs:53-85 | An offer passes if and only if its size, its type, the free slots and the bytes left allow it, and the first of these that fails is the reason; a budget of 2^64 - 1 is never short. |
| `AutoFetch.StepKeepsSlots` | crates/iroh-drop/src/session.rs:1797-1845 | Every interleaved step keeps the count of active fetches exact and within the limit, counting the slots handlers may still take. |
| `AutoFetch.StepKeepsBytes` | crates/iroh-drop/src/session.rs:1797-1845 | The same of the bytes, where the bound fits a word and the budget is below the largest. |
| `AutoFetch.SlotLimitHolds` | crates/iroh-drop/src/session.rs:1797-1845 | With k handlers at once active <= limit + k - 1, always; settled, the count is the running fetches. |
| `AutoFetch.ByteLimitHolds` | crates/iroh-drop/src/session.rs:1797-1845 | And bytes <= budget + (k - 1) * the largest blob that can pass; settled, they are those of running and succeeded fetches. |
| `AutoFetch.AloneLimitsAreExact` | crates/iroh-drop/src/policy.rs:71-83 | With one handler the policy limits hold exactly. |
| `AutoFetch.LimitIsKeptOnlyAlone` | crates/iroh-drop/src/session.rs:1797-1823 | The bound on concurrent fetches is reached for every k, so the policy limit is kept in all runs if and only if k = 1. |
| `AutoFetch.ByteBoundIsReached` | crates/iroh-drop/src/session.rs:1797-1823 | Some run reserves exactly as many bytes as the bound allows, for every k. |
| `AutoFetch.BudgetIsKeptOnlyAlone` | crates/iroh-drop/src/session.rs:1797-1823 | The byte budget is kept in all runs if and only if k = 1. |
| `AutoFetch.BytesCountExactly` | crates/iroh-drop/src/session.rs:1820-1843 | The byte counter is exact in all runs if and only if the budget is below 2^64 - 1 and the bound fits a 64-bit word. |
| `AutoFetch.UnlimitedBudgetWraps` | crates/iroh-drop/src/policy.rs:77-83 | Failing input: with a budget of 2^64 - 1 the saturating check always passes and the counter wraps, even with one handler. |
| `AutoFetch.SlotsNeverUnderflow` | crates/iroh-drop/src/session.rs:1838-1844 | A slot given back was taken, in every run. |
| `AutoFetch.BytesNeverWrap` | crates/iroh-drop/src/session.rs:1820-1844 | A refund was reserved and no reservation wraps, where the counter is exact. |
| `AutoFetch.OnlyEligibleAreFetched` | crates/iroh-drop/src/policy.rs:59-70 | Nothing is ever reserved for a blob the policy refuses by size or media type. |
| `Consent.AskRouter.RegisterUi` | crates/iroh-drop-daemon/src/service.rs:236-240 | Takes a token of its own, then appends the UI under it. |
| `Consent.AskRouter.UnregisterUi` | crates/iroh-drop-daemon/src/service.rs:242-247 | Keeps exactly the UIs with another token, in order. |
| `Consent.AskRouter.ForgetClosed` | crates/iroh-drop-daemon/src/service.rs:249-254 | Keeps exactly the UIs whose channel is open, in order. |
| `Consent.AskRouter.HasLiveUi` | crates/iroh-drop-daemon/src/service.rs:257-263 | True if and only if some registered channel is open. |
| `Consent.AskRouter.ChooseTarget` | crates/iroh-drop-daemon/src/service.rs:284-290 | The last open channel in registration order. |
| `Consent.AskRouter.TakeAsker` | crates/iroh-drop-daemon/src/service.rs:265-269 | An answer takes the asker waiting under its id, and nothing if there is none. |
| `Consent.Ask` | crates/iroh-drop-daemon/src/service.rs:276-318 | One question, undisturbed: it answers yes exactly if a live UI was found, was not gone and a yes came in time; an error is no answer, and nothing of the question stays pending. |
| `Consent.NewestIsAsked` | crates/iroh-drop-daemon/src/service.rs:281-290 | The channel asked is open and every channel after it in the list is closed; nobody is asked only if all are closed. |
| `Consent.ListIsInOrder` | crates/iroh-drop-daemon/src/service.rs:236-254 | Under every interleaving, registrations in two steps among them, the list is in the order in which UIs reached it. |
| `Consent.TokensAreNoOrder` | crates/iroh-drop-daemon/src/service.rs:236-240 | Two registrations at once can reach the list against the order of their tokens; the one asked is then the last to reach it. |
| `Consent.LeavingIsExact` | crates/iroh-drop-daemon/src/service.rs:242-247 | In every run a connection that unregisters takes out its own entry and no other. |
| `Consent.ForgettingAsksTheSame` | crates/iroh-drop-daemon/src/service.rs:249-290 | Forgetting closed channels never changes who is asked. |
| `Consent.StepKeepsInv` | crates/iroh-drop-daemon/src/service.rs:236-318 | Under every interleaving ids are unique, pending questions belong to unfinished flows, posted unanswered questions are pending, and every token was given out once, to a registration on its way or in the list. |
| `Consent.FetchesExactly` | crates/iroh-drop-daemon/src/service.rs:1249-1284 | A flow fetches if and only if it took a yes given to its own id while it waited, or was let through with no live UI at the check. |
| `Consent.SilenceIsNeverConsent` | crates/iroh-drop-daemon/src/service.rs:271-275 | Without auto-accept and without any yes nothing is fetched, in any interleaving. |
| `Consent.YesIsHonoured` | crates/iroh-drop-daemon/src/service.rs:276-318 | In every reachable state with an open UI, an offer about to ask can be asked, answered with a yes, and fetched. |
| `Consent.OnlyAwaitedAnswersCount` | crates/iroh-drop-daemon/src/service.rs:265-269 | An answer changes anything if and only if its id is pending; repeating it changes nothing. |
| `Consent.FinishedIsFinal` | crates/iroh-drop-daemon/src/service.rs:310-317 | A finished flow never changes again and has no question pending. |
| `Consent.LateIsNoConsent` | crates/iroh-drop-daemon/src/service.rs:305-317 | After a timeout or a failed send a flow never fetches, whatever is answered later. |
| `Consent.ClosedIsNoConsent` | crates/iroh-drop-daemon/src/service.rs:303-309 | A question whose channel closed before it was sent is never consented to. |
| `Ticket.TicketIsLawful` | crates/iroh-drop/src/ticket.rs:163-202 | The ticket's wire form round-trips with any bytes behind it, and no accepted input is shorter than the encoding of what it means. |
| `Ticket.TicketLayout` | crates/iroh-drop/src/ticket.rs:163-183 | The bytes of a ticket, field by field. |
| `Ticket.TicketOk` | crates/iroh-drop/src/ticket.rs:163-183 | Every ticket with a topic and a key of 32 bytes, a text for a name and nodes that can be encoded can be encoded. |
| `Ticket.SoundExactly` | crates/iroh-drop/src/ticket.rs:361-391 | A ticket passes validation if and only if it is public without a key or sealed, has at most 16 nodes, each with a key, at most 8 addresses of a kind and a URL of at most 255 bytes for a relay, and a name of at most 255 bytes. |
| `Ticket.AcceptedExactly` | crates/iroh-drop/src/ticket.rs:338-359 | Whatever is accepted has, trimmed, at most 8192 bytes and a prefix, and decodes to a sound ticket of schema 3. |
| `Ticket.RefusedExactly` | crates/iroh-drop/src/ticket.rs:338-359 | And why a text is refused, in order: length, prefix, base 32, postcard, version. |
| `Ticket.TrimExactly` | crates/iroh-drop/src/ticket.rs:339-339 | Trimming takes exactly the white space off both ends. |
| `Ticket.BlanksAround` | crates/iroh-drop/src/ticket.rs:338-359 | A printed ticket with blanks, tabs and line ends around it parses to the same. |
| `Ticket.SizeExactly` | crates/iroh-drop/src/ticket.rs:340-342 | The length of a text is that of its UTF-8 encoding. |
| `Ticket.PrintParse` | crates/iroh-drop/src/ticket.rs:316-359 | A sound ticket, with any bytes appended to its body, parses back if and only if its text is at most 8192 long. |
| `Ticket.ParsePrintParse` | crates/iroh-drop/src/ticket.rs:316-359 | Printing whatever was parsed parses to the same ticket and is no longer than the original text. |
| `Ticket.TicketIsFound` | crates/iroh-drop-cli/src/main.rs:974-987 | A printed ticket is extracted from any surrounding text without an earlier prefix and without a letter or digit right after it. |
| `Ticket.ExtractedExactly` | crates/iroh-drop-cli/src/main.rs:974-987 | What is extracted from a text begins at the first prefix in it, runs exactly as far as lower-case letters and digits do, and is longer than 32. |
| `Ticket.LinkRoundTrip` | crates/iroh-drop-daemon/src/service.rs:130-132 | The ticket in an app link is extracted and read back. |
| `Base32.DecodeEncode` | crates/iroh-drop/src/ticket.rs:320-326 | Unpadded base 32 inverts on every byte string. |
| `Base32.EncodeDecode` | crates/iroh-drop/src/ticket.rs:347-349 | Nothing decodes but what encoding produces: wrong lengths and non-zero filling are refused. |
| `Base32.EncodeSpells` | crates/iroh-drop/src/ticket.rs:320-326 | The text of some bytes is written in the alphabet A-Z, 2-7 and, as a number to base 32, is the number the bytes spell to base 256, moved up by the filling bits. |
| `Postcard.VarintSpells` | crates/iroh-drop/src/message.rs:310-320 | An integer is spelled seven bits a byte, least significant first, the top bit set on all but the last, and no shorter way exists. |
| `Unicode.Utf8Exactly` | crates/iroh-drop/src/message.rs:223-238 | Bytes pass as a text if and only if they are the UTF-8 encoding of some characters. |
| `Messages.BodyRoundTrip` | crates/iroh-drop/src/message.rs:142-172 | Every body comes back from its envelope, with appended bytes ignored. |
| `Messages.BodyPasses` | crates/iroh-drop/src/message.rs:346-355 | A body within its bounds passes all checks on the way in. |
| `Messages.GoodNameExactly` | crates/iroh-drop/src/message.rs:510-536 | A name passes, character by character, if and only if it is not empty, has at most 255 bytes, no separator, no control character, no dot in front, and no dot or space at the end. |
| `Messages.CheckedIsAllowed` | crates/iroh-drop/src/message.rs:346-355 | Whatever passes the checks, honest or not, is of its kind and within the bounds of its kind. |
| `Messages.CheckedExactly` | crates/iroh-drop/src/message.rs:466-503 | A body made here passes if and only if it is within bounds: the name and the metadata of an offer (16 entries, keys of 64 and values of 512 bytes), the payload of an extension. |
| `Messages.OfferLayout` | crates/iroh-drop/src/message.rs:223-238 | The bytes of an offer, field by field. |
| `Messages.OfferOk` | crates/iroh-drop/src/message.rs:223-238 | Every offer with a 32-byte hash, words that fit, texts and ordered metadata can be encoded. |
| `Messages.ProviderLayout` | crates/iroh-drop/src/message.rs:242-267 | The bytes of a claim: hash, 0 or 1, time. |
| `Messages.ProviderOk` | crates/iroh-drop/src/message.rs:242-267 | Every claim about a 32-byte hash, available or withdrawing, can be encoded, and nothing else. |
| `Messages.ExtensionLayout` | crates/iroh-drop/src/message.rs:209-222 | The bytes of an extension, field by field. |
| `Messages.ExtensionOk` | crates/iroh-drop/src/message.rs:209-222 | Every extension with a 16-byte namespace and words that fit can be encoded. |
| `Messages.BodyLayout` | crates/iroh-drop/src/message.rs:142-172 | The kind numbers of the four bodies. |
| `Messages.MessageLayout` | crates/iroh-drop/src/message.rs:115-140 | The bytes of a message: version, id, time, kind, payload with its length. |
| `Messages.MessageOk` | crates/iroh-drop/src/message.rs:115-140 | Every message with a 16-byte id and words that fit can be encoded. |
| `Messages.OfferIsLawful` | crates/iroh-drop/src/message.rs:223-238 | The offer's wire form round-trips, its ordered metadata included, whatever follows. |
| `TextMap.TextsAreLawful` | crates/iroh-drop/src/message.rs:235-238 | Metadata is read into ascending keys and round-trips. |
| `TextMap.LastGivenWins` | crates/iroh-drop/src/message.rs:235-238 | Pairs read in any order make the one ascending map in which every key has the value given last. |
| `TextMap.BeforeExactly` | crates/iroh-drop/src/message.rs:235-238 | The order of keys, byte by byte: up to some place two keys agree, and there the first has ended or has the smaller byte. |
| `Frames.SigningInputInjective` | crates/iroh-drop/src/message.rs:93-102 | Domain, topic and payload can be read off the signed bytes. |
| `Frames.DomainsAreApart` | crates/iroh-drop/src/message.rs:77-91 | The three signature domains are equally long and pairwise different. |
| `Frames.PublicRoundTrip` | crates/iroh-drop/src/message.rs:310-356 | Every message that fits, honestly signed, decodes to its author, envelope and checked body, whatever is appended to the frame; another version or a body over 63 KiB is named as the error. |
| `Frames.BodyArrives` | crates/iroh-drop/src/message.rs:142-172 | A body arrives as it was sent if and only if it is within its bounds, and the error names the bound. |
| `Frames.AcceptedPublic` | crates/iroh-drop/src/message.rs:332-356 | Whatever bytes a member of a public drop accepts: their author signed the topic and the message in the public domain, the message has version 2 and at most 63 KiB, and its body is of its kind and within bounds. |
| `Frames.RefusedUnread` | crates/iroh-drop/src/message.rs:332-345 | Why bytes are refused before their signature counts: length, encoding, author, signature length. |
| `Frames.FrameLayout` | crates/iroh-drop/src/message.rs:274-285 | The bytes of a frame: author, signature and payload with their lengths. |
| `Frames.SignedText` | crates/iroh-drop/src/message.rs:93-102 | What is signed is the domain, then the topic, then the envelope, and nothing else. |
| `Frames.UnknownKindArrives` | crates/iroh-drop/src/message.rs:348-355 | A kind this build does not know arrives verified with its payload intact and no body. |
| `Frames.FamiliesAndTopicsAreSeparate` | crates/iroh-drop/src/message.rs:358-400 | An honest frame of either family is a bad signature on every other topic, and on its own topic the other family reports the version it carries. |
| `Frames.MetByOther` | crates/iroh-drop/src/seal.rs:267-280 | The diagnosis of a frame met by the other family, in either order of domains tried. |
| `Frames.SealedRoundTrip` | crates/iroh-drop/src/seal.rs:147-220 | What was sealed under a key and topic decodes to its author, id, time, envelope and checked body. |
| `Frames.SealedBodyArrives` | crates/iroh-drop/src/seal.rs:147-220 | A sealed body arrives if and only if it is within its bounds. |
| `Frames.AcceptedSealed` | crates/iroh-drop/src/seal.rs:282-334 | Whatever bytes a member of a private drop accepts: their author signed the topic and an outer message of version 4 in the sealed domain, its seal was made with the key for topic, author and id, and the body inside is of its kind and within bounds. |
| `Frames.MemberAndRelayAgree` | crates/iroh-drop/src/seal.rs:226-334 | On a frame a member accepts, the keyless relay accepts if and only if the sealed body is within the body limit, and derives the same author and id. |
| `Frames.RelayGap` | crates/iroh-drop/src/seal.rs:153-157 | Every member accepts an honest frame with a sound body; a relay refuses it if and only if its envelope is within forty bytes of the limit. |
| `Frames.GapIsReached` | crates/iroh-drop/src/seal.rs:244-248 | Failing input: a frame in that gap, within the message limit, in a world with one seal and one signature. |
| `SyncRequest.CurrentRoundTrip` | crates/iroh-drop/src/sync.rs:108-127 | A request decodes to itself, whatever follows. |
| `SyncRequest.LegacyRoundTrip` | crates/iroh-drop/src/sync.rs:129-157 | A request of the older form decodes to one without a proof, unless what follows it reads as a proof. |
| `SyncRequest.RequestLayout` | crates/iroh-drop/src/sync.rs:108-127 | The bytes of a request, field by field. |
| `SyncRequest.RequestOk` | crates/iroh-drop/src/sync.rs:108-127 | Every request with a topic and a proof of 32 bytes and words that fit can be encoded. |
| `SyncRequest.ProofTextIs` | crates/iroh-drop/src/seal.rs:84-110 | What is proven: 32 bytes of the asker, 32 of the asked, then the request as it travels without a proof. |
| `SyncRequest.HonestProofHolds` | crates/iroh-drop/src/sync.rs:304-318 | The server rebuilds exactly the bytes an honest keyed client proved, for every topic, cursor and page size, and the proof verifies. |
| `SyncRequest.ProofIsNotPortable` | crates/iroh-drop/src/seal.rs:84-90 | A proof that verifies was made for that asker, that responder and that version, topic, cursor and page size. |

## Left out

- Endpoint, gossip, blob store, downloads, QUIC streams and relays: foreign
  libraries; delivery is an arbitrary sequence of steps, a download succeeds or
  fails.
- The mathematics of signatures, AEAD, HKDF and HMAC, and secrecy.
- Rounding of `f64` in the limiter, and arithmetic of monotonic clocks.
- Overflow of the 64-bit sync cursor, the ask id and the UI token, and the
  narrowing of a cursor to a 32-bit `usize`.
- `find_offer`, `local_status`, `first_seen_at` and `last_failure`: lookups and
  display state that no modelled property depends on.
- Choosing peers to pull from, the hello exchange and page-size negotiation:
  every pull starts with the page size it ends up with.
- The bound on concurrent serving, the request's own envelope and the other
  control operations' payloads. Timeouts and failed requests are the missing
  reply of the client loop.
- Eviction from the page limiter's table between two requests of one pull, which
  would refill the client's bucket: a request is judged by the calls on record.
- Restoring always uses the public family; decoding of persisted bytes is taken
  as done before `Session.RestoreHistory`.
- Request answers and their per-hash interval, extension subscriptions, events.
- The rest of an answer to a consent question (the output path), and the fetch
  that follows it.
- `ReadTicket`'s file form (an argument starting with `@`), QR codes and web
  links other than as surrounding text.
- Event replay and task tables of the daemon: their steps are not atomic, and
  the claims that hold when serialised are easy.
- Disk persistence, rooms, configuration, path handling and user interfaces.
- Offers.OfferTable.RecordProvider: providers of a hash are held as a value and
  copied into a register object for the update, so sharing of one register
  between table and caller is not modelled.
- RateLimiter.PeersAreIndependent: says nothing of peers after the table has
  evicted one of them; `AllowAt` states what eviction does.
- Session.Session.Broadcast: recording an own offer and announcing it are one
  step, where the program takes the lock twice.
- AutoFetch.StepKeepsSlots: the handler's earlier policy check, which only informs
  the decider, is the decider's answer here (`Decline`).
