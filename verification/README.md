# Verified models of the packs repository

A Dafny 4.11 project that models the parts of this repository that keep state across crashes, speak a wire
protocol or edit files other tools depend on, and proves what their comments and tests promise.
`dafny verify dfyconfig.toml` checks everything.

## What is modelled

**The board watcher** (`Ledger`, `Settle`, `SettleProperties`, `Engine`, `EngineProperties`, `EngineRuns`,
`OwnWrites`). The own-writes ledger is a text whose lines decode to entries at byte offsets; how often a line is
spent is a count per key, kept in a map that the ledger's methods update in place. The engine is a class with the
snapshot, its counts, the pending changes and the cycle's boundary. Listing, fetching, notifying and persisting may
each fail. A run is any interleaving of appended own writes, boundaries drawn, polls, settles, crashes and restarts;
a crash falls back to what was persisted. The main results are that the counts refine a plain set of live lines,
that no run loses a change or lets one line explain two, that superseded own states stay superseded, that a late own
write survives its cycle, and that the watcher converges.

**The Discord gateway** (`Frames`, `WireBytes`, `Gateway`, `Reassembly`, `Timeouts`, `Delivery`,
`DeliveryProperties`, `Claims`, `ClaimsProperties`, `ClaimsLimits`). The WebSocket client reads and writes frames of
sections 5.2 to 5.5 of RFC 6455 from a buffer and a socket that cuts its bytes anywhere. Ingress delivery is a class
over one receipt that logs every save, submission, answer and API error without an answer; what the API does, and
which saves raise, are inputs of a pass; a crash is any prefix of a log, and a claim's life is a first run and any
number of recoveries. Claiming, reclaiming and the process lock are a state machine over any number of threads, with
pruning and restarts.

**Smaller algorithms** (`Backend`, `Listing`, `ListingLines`, `Registry`, `RegistryProperties`, `RegistryText`,
`RegistryCharacters`, `Bindings`, `Manifest`). Shell quoting is read back by the rules of sections 2.2.1 and 2.2.2
of the POSIX.1-2017 Shell Command Language; the remote listing, the registry edit, the import bindings and the
content manifest each have a loop proved against a specification and the properties of that specification.

`Finite`, `Sequences` and `Wrappers` hold general facts and the Option and Result types. Every lemma carries
`{:induction false}`: no proof rests on automatic induction.

## What the proofs found

- The watcher's README says a change is suppressed if it matches any ledger line; the code matches only lines that
  are not yet spent. The model follows the code.
- The comment on `boundary` says every entry on record lies before the boundary and every later one at or past it.
  That holds whatever lines decode to exactly for a ledger that ends at a line end
  (`SettleProperties.BoundaryClaimExact`), and for one decoder also when nothing can complete the last line to a new
  entry (`SettleProperties.BoundaryClaimFor`).
- A poll timeout while a frame header is awaited loses a header byte that had arrived and the fragments of the
  message under way; resuming is transparent exactly when there were none (`Timeouts.ResumeExact`).
- A pong frame ends `recv_event` with no event and drops the fragments so far (`Reassembly.ReassemblyExact`).
- A target is saved as failed not only when the API says so: an API error without an answer, for want of an address
  or over an unreadable reply, is saved as failed too, even for a request that had been accepted
  (`DeliveryProperties.FailedUnanswered`; exactly when, in `DeliveryProperties.FinalExact` and
  `DeliveryProperties.AcceptedExact`).
- The process lock does not look at the receipt again, so at most one delivery holds per claim, not per message
  (`ClaimsProperties.DeliveriesAreClaimed`); a claim is sure to be the newest only within the stale time, or within
  the retry time when its receipt is saved as failed meanwhile (`ClaimsLimits.EntersSupersededExact`).
- Retention that prunes a receipt and its locks breaks exclusion exactly when a thread is on its way to delivery, from
  a claim or from having listed the receipt for recovery (`ClaimsLimits.PruneExact`).

## Model

| member | source | states |
|---|---|---|
| Ledger.KeyInjective | board-watcher/watcher/ledger.go:49-53 | two entries share a key only if they are the same entry, because no field holds the separator |
| Ledger.EntriesOrdered | board-watcher/watcher/ledger.go:256-286 | entries come with strictly increasing offsets inside the file |
| Ledger.EntriesExact | board-watcher/watcher/ledger.go:256-286 | an entry is on record exactly where a line starts and that line, up to and with its newline or the end, decodes to it |
| Ledger.EntriesAppend | board-watcher/watcher/ledger.go:256-286 | appending after a line end leaves every entry on record where it is |
| Ledger.SpendCounts | board-watcher/watcher/ledger.go:109-121 | the count of a key ends up as the greatest of what it was and one more than the rank of the last line spent under it |
| Ledger.SpendLive | board-watcher/watcher/ledger.go:89-121 | raising a key's count to a line's rank plus one spends exactly the touched lines and identical lines before them |
| Settle.Scan | board-watcher/watcher/ledger.go:259-286 | the reading loop yields the entries of the text with the offsets of their lines |
| Settle.EntriesFor | board-watcher/watcher/ledger.go:246-254 | the entries of one file, in file order |
| Settle.Occurrences | board-watcher/watcher/ledger.go:89-99 | the loop's occurrence number of a line is the number of identical lines before it |
| Settle.FindMatch | board-watcher/watcher/ledger.go:100-106 | the backward loop stops at the last entry of the hash that is not spent |
| Settle.SettleEntry | board-watcher/watcher/ledger.go:83-121 | verdict and new counts of a settle, tied to the specification that SettleRefines and the lemmas below are about |
| Settle.RetireAll | board-watcher/watcher/ledger.go:127-137 | new counts after the baseline's retirement, tied to the specification of RetireAllRefines |
| Settle.RetireSettled | board-watcher/watcher/ledger.go:151-172 | new counts after the upgrade seed, tied to the specification of SeedIsExact |
| SettleProperties.VerdictIsLatestLive | board-watcher/watcher/ledger.go:59-60 | the settle matches the latest live line of the file and hash, and answers 'not ours' only when there is none |
| SettleProperties.SpentBySettle | board-watcher/watcher/ledger.go:55-76 | line by line, what a settle spends: the match and its identical predecessors, every earlier line of the file before the cut, with no match every line of the file before the cut; nothing else |
| SettleProperties.SettleRefines | board-watcher/watcher/ledger.go:83-121 | the settle on counts refines a settle on a plain set of live lines, for every ledger, count map and boundary |
| SettleProperties.SettleFrame | board-watcher/watcher/ledger.go:83-121 | a settle of one file leaves the counts of every other file's lines alone |
| SettleProperties.SettleOnlySpends | board-watcher/watcher/ledger.go:116-118 | no settle brings a spent line back |
| SettleProperties.ReaskIsStable | board-watcher/watcher/ledger.go:83-121 | after 'not ours', asking the same ledger again says 'not ours' again and leaves the counts as they are under the same boundary |
| SettleProperties.RetireAllRefines | board-watcher/watcher/ledger.go:123-137 | the baseline's retirement spends exactly the lines before the cut |
| SettleProperties.SeedIsExact | board-watcher/watcher/ledger.go:139-172 | from empty counts a line ends up spent if and only if its file's settled state, a known hash or for an absent file a tombstone, is recorded at or after it, identical lines on both sides of that point included |
| SettleProperties.PrefixEntries | board-watcher/watcher/ledger.go:203-219 | entries that start before a boundary drawn at a line end are exactly those on record when it was drawn |
| SettleProperties.AppendKeepsLiveness | board-watcher/watcher/ledger.go:256-286 | appending never changes whether a line on record is live |
| SettleProperties.BoundarySafety | board-watcher/watcher/ledger.go:75-82 | a settle spends no line appended after its boundary was drawn except the match and identical lines before it, and nothing but those once the drawn bytes are gone |
| SettleProperties.RetireAllBoundarySafety | board-watcher/watcher/ledger.go:123-137 | the baseline retires a line if and only if it was on record when the boundary was drawn and the drawn bytes still stand |
| SettleProperties.BoundaryClaimExact | board-watcher/watcher/ledger.go:203-208 | the comment's claim, that all entries on record lie before the boundary and all later ones at or past it, holds for every decoder of lines if and only if the ledger ended at a line end |
| SettleProperties.BoundaryClaimFor | board-watcher/watcher/ledger.go:203-208 | for one decoder it holds if and only if the ledger ended at a line end, or nothing appended can complete the last line to an entry it does not already hold |
| SettleProperties.SettleSupersedesAll | board-watcher/watcher/ledger.go:67-76 | a settle whose boundary covers all lines of the file, and that matched the last line or nothing, leaves no line of it live |
| SettleProperties.DeadIsNotOwn | board-watcher/watcher/ledger.go:32-42 | a file without live lines is never taken for an own write |
| Engine.Watcher.Load | board-watcher/watcher/engine.go:168-197 | a restart takes the persisted snapshot, seeds the counts once if there are none, and starts with nothing pending |
| Engine.Watcher.Baseline | board-watcher/watcher/engine.go:198-231 | the first run records the listing without notifying and retires what was on record before it |
| Engine.Watcher.Track | board-watcher/watcher/engine.go:277-289 | tracking one doc: entered, refreshed with a restarted quiet time, or left alone |
| Engine.Watcher.Diff | board-watcher/watcher/engine.go:244-267 | the three loops leave a doc pending if and only if listing and snapshot differ on it, with its current stat or absence; its quiet time restarts exactly when what was pending moved |
| Engine.Watcher.SettleOwnWrite | board-watcher/watcher/engine.go:46-55 | the ledger is asked, and spends, against the snapshot's own counts under the cycle's boundary |
| Engine.Watcher.SettleRemoval | board-watcher/watcher/engine.go:297-313 | a removal: own or announced, then dropped from snapshot and pending and persisted; a failed announcement leaves both |
| Engine.Watcher.SettleFetched | board-watcher/watcher/engine.go:320-352 | an addition or update: the ledger is settled first, unchanged or own content is silent, anything else is announced, then snapshot and pending are updated and persisted |
| Engine.Watcher.SettlePending | board-watcher/watcher/engine.go:291-352 | one settle, whole new state, for every outcome of fetch, notify and persist |
| Engine.Watcher.SettleDue | board-watcher/watcher/engine.go:268-274 | exactly the changes that have sat still for the debounce time are settled, each once, in whatever order |
| Engine.Watcher.Cycle | board-watcher/watcher/engine.go:233-275 | a poll's whole effect; a change is settled only if every successful poll since its last movement saw that difference and the debounce time has passed |
| EngineProperties.ContentTold | board-watcher/watcher/engine.go:320-352 | an addition or update is settled in silence if the snapshot already has the fetched hash or a live line records it; otherwise exactly that one change is announced, or with a failed notification nothing but the counts changes |
| EngineProperties.RemovalTold | board-watcher/watcher/engine.go:297-313 | the same for a removal, which a live tombstone explains |
| EngineProperties.SeededExact | board-watcher/watcher/engine.go:172-190 | right after a start that seeds the counts a line is spent exactly if the snapshot's own hash of its file, or for a file not in the snapshot a tombstone, is recorded at or after it |
| EngineProperties.SettledIsNotOwn | board-watcher/watcher/engine.go:172-190 | after it no settled state, neither a known hash of the snapshot nor the absence of a doc, can be taken for an own write |
| EngineProperties.BaselineRetires | board-watcher/watcher/engine.go:198-217 | after a baseline a line is live exactly if it was not on record when the boundary was drawn, or the drawn bytes are gone |
| EngineProperties.BaselineAtRest | board-watcher/watcher/engine.go:218-231 | the baseline announces nothing, has the listing's docs, and a poll that sees the same listing leaves nothing pending |
| EngineProperties.BaselineKnowsHashes | board-watcher/watcher/engine.go:218-228 | a later touch of a doc whose hash the baseline fetched is settled in silence; one it could not fetch is announced unless a live line records it |
| EngineProperties.SettleLocal | board-watcher/watcher/engine.go:296-352 | what a settle does for a doc depends on that doc's snapshot entry, pending change and ledger counts alone |
| EngineProperties.SettleElsewhere | board-watcher/watcher/engine.go:296-352 | a settle of one doc leaves every other doc's entry, pending change and counts alone |
| EngineProperties.OrderIrrelevant | board-watcher/watcher/engine.go:268-274 | in whatever order the pending map is visited, snapshot, pending changes, counts and the collection of notifications come out the same |
| EngineProperties.PollAtRest | board-watcher/watcher/engine.go:233-289 | a poll of an unchanged listing brings each doc to rest once its quiet time is over |
| EngineProperties.QuietPoll | board-watcher/watcher/engine.go:233-275 | a poll that finds listing and snapshot equal and nothing pending changes and announces nothing |
| EngineProperties.Converges | board-watcher/watcher/engine.go:25-28 | if every poll over the debounce time sees the same listing and fetch and notify succeed, nothing is pending any more, names and stats equal the listing, and further polls announce nothing |
| EngineRuns.SettleRecords | board-watcher/watcher/engine.go:296-352 | a settle that fails to fetch or notify leaves snapshot entry and pending change intact; one that finishes has one recorded, justified change |
| EngineRuns.RunKeepsInv | board-watcher/watcher/engine.go:291-352 | over every run of appends, polls, settles, failures, crashes and restarts the log of changes accounts for the snapshot and each credited line is spent |
| EngineRuns.NoLostChange | board-watcher/watcher/engine.go:291-352 | over any run every change of the persisted snapshot since its base was announced and delivered, or explained by a ledger line, or has the known hash the doc had just before |
| EngineRuns.SilentIsUnchanged | board-watcher/watcher/engine.go:332-345 | over any run a change that was neither announced nor explained by a line has a non-empty hash equal to the one its doc had just before |
| EngineRuns.BaseStays | board-watcher/watcher/engine.go:168-231 | over any run there is a snapshot on disk exactly if there was one or some write of it succeeded, and from then on the base that changes are accounted from never changes |
| EngineRuns.CreditsBounded | board-watcher/watcher/ledger.go:32-33 | over any run the persisted history credits no more own-write settles of a file and hash than the ledger has lines for it |
| EngineRuns.OneChangePerLine | board-watcher/watcher/ledger.go:32-33 | over any run no two persisted changes are explained by the same ledger line |
| EngineRuns.SupersedingSettle | board-watcher/watcher/ledger.go:67-76 | a settle that supersedes every line of its file leaves none live in memory, persisted or not, and none live on disk if and only if it was persisted or there was none there before |
| EngineRuns.DeadUntilCrash | board-watcher/watcher/engine.go:291-352 | until the next crash a superseded file stays so in memory, and it is so on disk exactly if it was already or some settle's persist has succeeded since |
| EngineRuns.RestartTakesDisk | board-watcher/watcher/engine.go:168-197 | after a crash and restart a file's lines are live or not as the counts on disk say: after failed persists the superseded lines are back |
| EngineRuns.SupersededStayDead | board-watcher/watcher/ledger.go:67-70 | from then on, and with no later own write of the file, every settle of it that removes it or gives it another hash than the one it had is announced, through crashes and restarts |
| EngineRuns.CycleIsRun | board-watcher/watcher/engine.go:233-275 | what a cycle of the watcher does is a run, so the results about runs are about the watcher |
| OwnWrites.LiveExact | board-watcher/watcher/ledger.go:55-82 | over any run without a crash a line of the ledger stays live exactly until a step settles its own state, or one that supersedes it under a boundary the line lies before |
| OwnWrites.LateWriteSurvives | board-watcher/watcher/ledger.go:75-82 | an own write that lands after the cycle's boundary was drawn is live, whatever else is settled, fails to be announced or fails to be persisted in that cycle, exactly until its own state settles |
| Backend.QuotedReadsBack | board-watcher/watcher/backend.go:204-208 | for every string, in any command before its end or a delimiter, the quoted string is read by the shell's quoting rules as one word, the string itself |
| Listing.ValidateName | board-watcher/watcher/backend.go:34-58 | the loop accepts exactly the names that end in .md, are at most 255 long, start with a letter or digit and hold only the allowed characters |
| ListingLines.NameExact | board-watcher/watcher/backend.go:34-58 | a valid name is a stem and .md, at most 255 characters, the stem led by a letter or digit and made of those, dots, dashes and underscores, by their codes |
| Listing.ParseDecimal | board-watcher/watcher/backend.go:186-193 | a 64-bit number's decimal rendering parses back to it |
| ListingLines.NumberExact | board-watcher/watcher/backend.go:186-193 | what is read as a number, and as which: a sign or none, leading zeros or none, and the decimal digits of a 64-bit number |
| ListingLines.TrimExact | board-watcher/watcher/backend.go:178 | trimming takes away just the white space around a line |
| Listing.ParseLine | board-watcher/watcher/backend.go:178-199 | one line is blank, broken, a stray name or a document with its stat |
| ListingLines.LineExact | board-watcher/watcher/backend.go:178-199 | a line is blank exactly if nothing is left of it, broken exactly if what is left is not two numbers and a name parted by single spaces, and a document exactly if it is and the name is within the contract |
| Listing.ParseListing | board-watcher/watcher/backend.go:170-202 | the parse fails if and only if some line is structurally broken; otherwise it is the documents of all lines, a repeated name with its last stat |
| ListingLines.DocumentsExact | board-watcher/watcher/backend.go:177-201 | the listing is just the documents its lines name, each with the stat of its last line |
| ListingLines.SplitExact | board-watcher/watcher/backend.go:177 | cutting the output into lines loses nothing, and no line holds a newline |
| Listing.RenderedReadsBack | board-watcher/watcher/backend.go:170-175 | the line the remote stat prints for a document reads back as that document, or as a stray for a name outside the contract |
| Listing.ListingReadsBack | board-watcher/watcher/backend.go:170-202 | a rendered listing in any order, strays in between, parses back to exactly the valid names with their stats |
| Frames.MaskedTwice | discord/scripts/discord_gateway_service.py:2421-2422 | masking twice under one key gives the payload back |
| Frames.UnpackBigEndian | discord/scripts/discord_gateway_service.py:2411-2414 | a length in network byte order reads back for every width that holds it |
| Frames.ParseEncoded | discord/scripts/discord_gateway_service.py:2401-2423 | every legal frame, any opcode, final or not, masked or not, any length form that fits, reads back as its flag, opcode and payload with exactly its bytes used; a longer one than the limit is refused |
| Frames.HeaderTimeoutExact | discord/scripts/discord_gateway_service.py:2402-2405 | one level below recv_event: reading single frames again after a header timeout sees the same frames if and only if no byte had arrived |
| WireBytes.MaskedScrambles | discord/scripts/discord_gateway_service.py:2421-2422 | each bit of a masked byte is the exclusive or of that bit of the payload's byte and of the key's byte for its place modulo four, bits taken by division |
| WireBytes.ParseExact | discord/scripts/discord_gateway_service.py:2401-2423 | a frame is read exactly where one of at most 16 MiB stands whole; its flag, opcode, length and payload are those its bytes and bits spell; a header timeout is exactly fewer than two bytes |
| WireBytes.EncodedIsLaidOut | discord/scripts/discord_gateway_service.py:2425-2437 | the bytes of a client's frame: final, masked, the length in the shortest form and most significant byte first, the key, the payload scrambled bit by bit |
| WireBytes.EncodedExact | discord/scripts/discord_gateway_service.py:2401-2423 | the bytes of any legal frame: its flag, opcode and mask bit, its length in the form chosen, its key and its payload |
| Gateway.Socket.Recv | discord/scripts/discord_gateway_service.py:2395-2398 | a socket read returns between one byte and as many as asked, cut anywhere, and ends only when nothing is left |
| Gateway.GatewayWebSocket.ReadExact | discord/scripts/discord_gateway_service.py:2386-2399 | for any split between buffer and socket chunks, the next bytes of the stream in order, none skipped or kept back |
| Gateway.GatewayWebSocket.ReadFrame | discord/scripts/discord_gateway_service.py:2401-2423 | a frame is returned exactly where one stands whole in the stream, and it is what its bytes and bits spell there; otherwise the error that Parse finds |
| Gateway.GatewayWebSocket.SendFrame | discord/scripts/discord_gateway_service.py:2425-2437 | the bytes handed to the socket are those of a final frame in the shortest length form, its payload's bits scrambled under some mask; a payload of 2^64 bytes or more is refused |
| Gateway.GatewayWebSocket.HandleFrame | discord/scripts/discord_gateway_service.py:2446-2467 | what one frame does to the message under way |
| Gateway.GatewayWebSocket.RecvEvent | discord/scripts/discord_gateway_service.py:2442-2467 | the event and the pongs sent are those Receive gives for the stream, whatever the chunks; ReassemblyExact says what these are |
| Reassembly.SentFrameReadsBack | discord/scripts/discord_gateway_service.py:2425-2437 | for every opcode below 16, payload up to 16 MiB, mask and following bytes, reading inverts sending and uses exactly the sent bytes |
| Reassembly.OtherFramesClose | discord/scripts/discord_gateway_service.py:2452-2467 | on the wire a close frame, a frame of an unknown kind, or a continuation of no message ends in the closed error |
| Reassembly.TextStartsAnew | discord/scripts/discord_gateway_service.py:2446-2451 | a new text frame drops what was collected of another message |
| Reassembly.PongsReadBack | discord/scripts/discord_gateway_service.py:2462-2464 | a peer reads the answers to its pings as pong frames with the pings' payloads, in order |
| Reassembly.ReassemblyExact | discord/scripts/discord_gateway_service.py:2442-2467 | a text message in any parts with pings and pongs in between is received whole if and only if it is within 16 MiB and no pong stands before its last frame; then every ping was answered in order with its payload and nothing further was read; over the limit it is refused |
| Reassembly.MessageOverTheWire | discord/scripts/discord_gateway_service.py:2442-2467 | the same for the bytes of such a message on a fresh connection followed by anything |
| Timeouts.ResumeExact | discord/scripts/discord_gateway_service.py:2440-2467 | whatever arrives later, a fresh recv_event after a header timeout gives the event of the unbroken stream if and only if the timeout found no header byte taken and no fragment held |
| DeliveryProperties.OverallExact | discord/scripts/discord_gateway_service.py:1068-1081 | each of the five receipt statuses holds if and only if the targets are as stated; a status the protocol does not know counts as delivered |
| DeliveryProperties.ExpiredInSyncExact | discord/scripts/discord_gateway_service.py:1378-1390 | giving up on a stale receipt leaves its status in step with its targets if and only if it had none or one neither delivered nor failed |
| Delivery.DeliveryRun.PersistTargetPatch | discord/scripts/discord_gateway_service.py:1084-1095 | a saved patch changes one target and recomputes the receipt's status; a save that raised, or an index out of range, changes nothing |
| Delivery.DeliveryRun.RecordAcceptance | discord/scripts/discord_gateway_service.py:1183-1195 | an accepted request's correlation is saved before its result is waited for |
| Delivery.DeliveryRun.RecordTerminal | discord/scripts/discord_gateway_service.py:1197-1204 | a terminal answer is saved as delivered or failed, as it was answered, and nothing else of the target changes |
| Delivery.DeliveryRun.WaitForResult | discord/scripts/discord_intake_common.py:2541-2669 | what comes of waiting decides the ending and the log: success and refusal are heard as such, a lost or stopped wait is no answer, and without an address the call ends in an API error |
| Delivery.DeliveryRun.DeliverSessionMessage | discord/scripts/discord_intake_common.py:6043-6106 | the ending follows from the call: delivered exactly if the reply was final or the awaited result a success; failed exactly if there was no address, an error status, an unreadable reply or a refusal; one request leaves unless cancelled or without address; the correlation kept is the accepted one |
| Delivery.DeliveryRun.RecordOutcome | discord/scripts/discord_gateway_service.py:1216-1264 | which status each ending is saved with, an API error without an answer as failed, a lost result as awaited or unknown by its request id; nothing else of the target changes |
| Delivery.DeliveryRun.SubmitPending | discord/scripts/discord_gateway_service.py:1169-1266 | a pending target is announced, then submitted once, and saved as its call ended; only a save that raised or an aborted wait breaks off |
| Delivery.DeliveryRun.ResumeAwaiting | discord/scripts/discord_gateway_service.py:1267-1326 | an accepted target is asked for its result again, never submitted, and saved delivered exactly on success, failed exactly on refusal or without an address, otherwise still awaited; without correlation it is given up as unknown |
| Delivery.DeliveryRun.Resume | discord/scripts/discord_gateway_service.py:1148-1328 | a pass that completes has saved every target as its first status and its call demand; an interrupted one has done so before the place it ends at and left those behind it alone; it breaks off only on a save that raised or an aborted wait; without envelopes it submits nothing |
| Delivery.DeliveryRun.Recover | discord/scripts/discord_gateway_service.py:1357-1395 | recovery never submits; it resumes a receipt in flight as Resume does, gives up on a stale one, and leaves any other alone |
| DeliveryProperties.InSyncAlways | discord/scripts/discord_gateway_service.py:1084-1095 | at every point of every legal log the saved receipt's status is the one its targets give |
| DeliveryProperties.StatusesClimb | discord/scripts/discord_gateway_service.py:1148-1328 | between any two points a target's saved status never goes back from submitting to pending, nor from awaited to either, and a final one never changes |
| DeliveryProperties.SubmittedOnce | discord/scripts/discord_gateway_service.py:1148-1328 | two submissions of one target in a log are the same one |
| DeliveryProperties.FinalStepExact | discord/scripts/discord_gateway_service.py:1197-1264 | one effect makes a target delivered, or failed, if and only if it acts on such a verdict that came just before it in the same run |
| DeliveryProperties.FinalExact | discord/scripts/discord_gateway_service.py:1148-1328 | over any log a target newly is delivered, or failed, if and only if some effect acted on such a verdict: an answer or, for failed, also an API error outside an answer |
| DeliveryProperties.AcceptedExact | discord/scripts/discord_gateway_service.py:1267-1326 | an accepted request stays accepted with its correlation exactly until its verdict is acted on or the receipt is given up; then it is final |
| DeliveryProperties.FailedUnanswered | discord/scripts/discord_intake_common.py:2555 | a legal log in which a request is accepted, there is no address to ask for its result, and it is saved as failed without any answer |
| DeliveryProperties.CrashIsLegal | discord/scripts/discord_gateway_service.py:1148-1328 | a crash after any effect leaves a legal log |
| DeliveryProperties.AcrossCrashes | discord/scripts/discord_gateway_service.py:1331-1396 | over a claim's whole life of crashes and recoveries: statuses climb, final ones stay, each target is submitted at most once and only by the first run, the receipt is in step, and a target ends up delivered, or failed, exactly when a run acted on such a verdict |
| ClaimsProperties.ReclaimStep | discord/scripts/discord_gateway_service.py:592-599 | one lock object per ingress id is in use for reclaiming, held by at most one thread: kept by every step, pruning of unused locks included, as long as without a receipt no thread is about to reset it |
| ClaimsProperties.ProcessStep | discord/scripts/discord_gateway_service.py:610-616 | the same for the process lock, as long as without a receipt no thread is on its way in: from a claim, or from having listed the receipt for recovery, on to the lock |
| ClaimsProperties.ExclusiveDelivery | discord/scripts/discord_gateway_service.py:1339-1358 | over every interleaving of claims, reclaims, recoveries that look up the lock any time after listing the receipt, saves, rejections, pruning and restarts in which the receipt is pruned only while no thread is on its way in, no two threads are inside delivery of one ingress id at once |
| ClaimsProperties.ResetsAreApart | discord/scripts/discord_gateway_service.py:2035-2082 | with the receipt pruned only while no thread is about to reset it, two resets never start from the same write of it, and within the stale time of one reset another one has found a newer write |
| ClaimsProperties.DeliveriesAreClaimed | discord/scripts/discord_gateway_service.py:1985-2087 | in any run at all each claim enters delivery at most once, and there are at most one delivery more than resets and prunings together |
| ClaimsProperties.TurnedAway | discord/scripts/discord_gateway_service.py:2034-2036 | where another holds the lock a thread is done at once, changes nothing, and the claim it had never enters delivery in whatever follows; likewise at the process lock |
| ClaimsProperties.RestartForgets | discord/scripts/discord_gateway_service.py:77-80 | a restart ends all threads and drops all locks but keeps the receipt; a claim that had not entered by then never does |
| ClaimsProperties.PruneDrops | discord/scripts/discord_gateway_service.py:636-647 | pruning drops a lock from its table exactly when nobody holds it and the receipt is gone |
| ClaimsLimits.ClaimExact | discord/scripts/discord_gateway_service.py:1985-2087 | a thread alone gets its message to delivery exactly if there is no receipt, or one of a claim at least 320 seconds old, of a failure at least 60 seconds old, or of a rejection at shutdown |
| ClaimsLimits.RecoveryExact | discord/scripts/discord_gateway_service.py:1339-1358 | a recovery alone gets on exactly with a receipt in flight, or one delivered whose routing state is still to be applied |
| ClaimsLimits.PruneExact | discord/scripts/discord_gateway_service.py:643-647 | pruning the receipt now lets some run on from here, without further pruning, reach two threads inside delivery if and only if some thread is on its way in now, recoveries that have only listed the receipt included |
| ClaimsLimits.ClaimStaysNewest | discord/scripts/discord_gateway_service.py:2026-2087 | a claim is still the newest for less than the stale time after it was made, or less than the retry time if retryable failures are saved meanwhile, in any run that prunes nothing meanwhile |
| ClaimsLimits.EntersSupersededExact | discord/scripts/discord_gateway_service.py:2085-2115 | a claim can enter delivery superseded, so many seconds after it was made, if and only if these are at least the stale time, or at least the retry time when retryable failures may be saved in between; nothing is read again under the process lock, and a rejection at shutdown never replaces a receipt |
| Registry.FindBlock | scripts/registry_release.py:37-56 | the loops find the block that Search gives |
| Registry.SearchFinds | scripts/registry_release.py:37-65 | the block found is one header up to the next, and its first value of the field is the one asked for |
| Registry.SearchFindsFirst | scripts/registry_release.py:37-56 | a block is found if there is any, and none before it has the value |
| Registry.LineList.ReplaceField | scripts/registry_release.py:68-74 | the first line that sets the field is replaced in place; without one nothing changes |
| Registry.UpsertField | scripts/registry_release.py:77-88 | replaced, or inserted after the last description, or else at the end |
| Registry.Withdraw | scripts/registry_release.py:26-34 | the edited lines, tied to the specification the lemmas below are about; an error if pack or release is missing |
| RegistryCharacters.FieldKeyExact | scripts/registry_release.py:14 | a line sets a key exactly if it is white space, the key in letters and underscores, white space, an equals sign and anything |
| RegistryCharacters.QuotedExact | scripts/registry_release.py:59-65 | the value read from a line is v exactly if it is white space, the key, white space, an equals sign, white space, a quote, v without quotes, a quote and anything |
| RegistryCharacters.HeaderExact | scripts/registry_release.py:12-13 | a pack's header begins its line, a release's may be indented, and nothing but white space follows either |
| RegistryCharacters.SearchExact | scripts/registry_release.py:37-65 | the search finds just the first section whose first line carrying the key carries the value, told by the lines' characters |
| RegistryCharacters.FindExact | scripts/registry_release.py:37-56 | the release found is the first of that version in the first pack of that name, told by the lines' characters, and it is found wherever there is one |
| RegistryCharacters.MadeExact | scripts/registry_release.py:68-87 | a written line, indented by two spaces, sets its key to the value and to nothing more, and a value in quotes is read back from it |
| RegistryCharacters.UpsertExact | scripts/registry_release.py:77-88 | the line goes over the first that sets the key, or else right behind the last description, or else to the end; every other line stays |
| RegistryCharacters.FreshWithdrawal | scripts/registry_release.py:26-34 | a release that sets neither field gets both right behind its last description, the mark before the reason; without a description they come last, the reason first |
| RegistryProperties.MadeReadsBack | scripts/registry_release.py:72-87 | a written line is read back as the field it sets |
| RegistryProperties.WithdrawnRelease | scripts/registry_release.py:26-34 | within the release both fields end up set, no line changes but the first that sets each of them and the rest keep their order, at most two lines are added, header and version read as before |
| RegistryProperties.WithdrawalSplices | scripts/registry_release.py:26-34 | every line before and behind the release is unchanged, and no header appears or disappears |
| RegistryProperties.SameSearch | scripts/registry_release.py:37-56 | every search over the edited registry finds the same block as before, moved by the lines added |
| RegistryProperties.ReleasesApart | scripts/registry_release.py:37-56 | different packs or versions name releases without a common line |
| RegistryProperties.OthersKept | scripts/registry_release.py:26-34 | the release any other pack and version name is the same lines as before, or still missing |
| RegistryText.BreakExact | scripts/registry_release.py:27 | the line boundaries, by their codes |
| RegistryText.JoinedSplit | scripts/registry_release.py:27 | cutting a registry into lines loses nothing |
| RegistryText.WithdrawInText | scripts/registry_release.py:26-34 | the same on the text: cut into lines, edited, joined |
| RegistryText.EditedTextLines | scripts/registry_release.py:26-34 | for a text that ends at a line end the edited text is cut into just the edited lines |
| RegistryText.FoundAgain | scripts/registry_release.py:26-56 | the withdrawn release is found again in its place |
| RegistryText.WithdrawIsIdempotent | scripts/registry_release.py:26-34 | for a text that ends at a line end, withdrawing twice for one reason gives the same text as once |
| Bindings.ConvertibleExact | scripts/pack_release_compat.py:59-63 | a name has a binding if and only if it holds a letter, a digit or an underscore |
| Bindings.DashedExact | scripts/pack_release_compat.py:27 | letters, digits, underscores and dashes stand as they are, and each run of other characters gives way to one dash |
| Bindings.BindingExact | scripts/pack_release_compat.py:59-63 | the binding is the dashed name without the dashes around it, and refused if nothing is left |
| Bindings.FirstFree | scripts/pack_release_compat.py:66-77 | the search for a free suffix ends within as many tries as names are taken, at the first free one |
| Bindings.CandidatesDiffer | scripts/pack_release_compat.py:72-74 | no two suffixes give the same name |
| Bindings.FreshBinding | scripts/pack_release_compat.py:70-76 | the inner loop terminates with the base, or where that is taken with the base, a dash and the first suffix from 2 on that leads to a name not taken |
| Bindings.UniqueBindings | scripts/pack_release_compat.py:66-78 | the loops terminate with the table of bindings, or fail if and only if some name has none |
| Bindings.DistinctNamesDistinctBindings | scripts/pack_release_compat.py:66-78 | every name is bound, and two names share a binding only if they are the same |
| Bindings.BindingIsFirstFree | scripts/pack_release_compat.py:53-78 | each binding is a bare TOML key, not given before, and the base, or where that is taken the base, a dash and the least suffix from 2 on not given before |
| Manifest.RelativePath | validate_registry.py:84-93 | a path has a relative path if and only if it lies under its pack directory, and is then recovered from it |
| Manifest.EntryExact | validate_registry.py:84-103 | a file is accepted exactly under the three git modes and inside its pack directory; its permission is a zero and the mode's last three digits, or 0777 for a link |
| Manifest.LineInjective | validate_registry.py:155 | a manifest line tells path, permission and digest apart, spaces in the path notwithstanding |
| Manifest.OrderedUnique | validate_registry.py:158 | two sorted sequences of the same lines are equal |
| Manifest.LeqExact | validate_registry.py:158 | the order of the lines: a prefix first, otherwise the smaller character where they first differ |
| Manifest.ManifestText | validate_registry.py:142-158 | the loop's text is the sorted, joined entries; it succeeds exactly if there is a file and every file is accepted |
| Manifest.ManifestLines | validate_registry.py:155-158 | the lines of the text are, in ascending order, each file's relative path, permission and digest parted by spaces |
| Manifest.ManifestExact | validate_registry.py:142-158 | for accepted files whose paths hold no newline, under whatever pack directories, two manifests are the same text if and only if they hold the same relative paths, git modes and digests, each as often, in whatever order |

## Left out

- File, socket, ssh, mail and HTTP effects, logging, configuration, health endpoints and argument parsing: only their success or failure is an input.
- Decoding of a ledger line (trimming, JSON) is an arbitrary function from the line's text to an entry or nothing; its entries hold no U+001F.
- SHA-256 is taken as injective: a boundary keeps the prefix itself, content is its digest, and a manifest entry carries a digest of 64 characters.
- Reading the ledger twice within one settle sees the same text both times, and own writes are appended as whole lines.
- A snapshot that cannot be read or decoded, and a failed listing before the first baseline: the tick returns and nothing has changed.
- EngineProperties.OrderIrrelevant: compares the state in memory and the notifications; the snapshots persisted along the way do depend on the order of the settles.
- EngineRuns.NoLostChange: counts from the latest baseline; if no persist succeeded before a crash, the restart takes a new baseline with the changes pending then already in it.
- RegistryText.WithdrawIsIdempotent: asks for a text that ends at a line end; without one an inserted line may join the last line.
- Text is characters: bytes that are not valid UTF-8 are not modelled, and a name's length is counted in characters, which is the same for every name that is accepted.
- Frame timeouts other than the header's, the send lock, the handshake, heartbeats and reconnects; the JSON decoding of a received message; random masks are any mask.
- The text of error messages, reasons and evidence saved with a receipt, the idempotency key, the routing state applied after delivery, and target lists with members that are not objects.
- Statuses and fields are read as already trimmed; statuses outside the protocol are kept as text.
- What decides whether a message is delivered at all: routing, policy, launch sessions, envelopes.
- Delivery.DeliveryRun.Post: marks an attempt to send; whether the request arrived is not known to the model, nor to the program.
- Exceptions that are no API errors end a run of delivery like a crash.
- Time as seen by the claim protocol never goes back, and one process runs at a time; a claim may find its receipt unreadable at any time.
- A receipt's time stamp and its write are one step of the claim protocol, with times in whole seconds as they are stamped.
- OwnWrites.LateWriteSurvives: counts found on disk at the start of a run may not exceed what the ledger holds; a ledger cut short by hand is not modelled.
- `set_source`, the regular expression engine and TOML parsing: headers and fields are matched character by character as their patterns say.
- The release lookups and commands around `unique_bindings`; git's own listing, and the hash of the manifest text.
- The other Discord scripts, the intake gates and the adapters described only in documentation.
