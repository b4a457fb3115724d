# Brama: a verified model of its stateful cores

Brama is a model gateway. Most of it is I/O; a few small cores decide what every run may and may not do:
the replay guard for signed agent requests, the measured-concurrency tracker, the append-only journal and
its readers, the version gate, the stream pump, the review loop, and the capability wire and key formats.
This project models those cores in Dafny and proves what they promise, over every input, every
interleaving and every reachable state.

`dafny verify dfyconfig.toml` checks everything.

## How it is organised

| file | what it holds |
|---|---|
| `Replay.dfy` | the compact replay record, the full-history guard it stands for, sequential runs |
| `ReplayProtocol.dfy` | any number of callers of `accept_once` as a step relation with failing system calls and crashes; linearizability |
| `Staging.dfy` | the state directory, the whole-file replace and `accept_once` as imperative code |
| `Decimal.dfy`, `Hex.dfy` | decimal and base16 text |
| `Signing.dfy` | the signed message, verification, and verification composed with the guard |
| `Concurrency.dfy`, `Measurement.dfy`, `Tracker.dfy` | the tracker as a step relation; its measurement told from the settlements of a run; the shared object that runs it |
| `Json.dfy`, `Pieces.dfy`, `Unambiguous.dfy` | JSON printing, the grammar of RFC 8259 as a pushdown scanner, cut-off texts, unique readability |
| `Meaning.dfy`, `Grammar.dfy` | what JSON text means, and the grammar section by section, both apart from the printer and the scanner |
| `Storable.dfy`, `Reader.dfy` | the records that read back as written; that a reader of them exists |
| `Journal.dfy`, `Membership.dfy` | torn appends, the two membership scans |
| `Subscriptions.dfy`, `Cooldown.dfy` | the sign-in record and the guard of the cooldown; the schedules of guards and records that keep it |
| `SignInGate.dfy`, `Repeats.dfy` | the gate that decides whether a sign-in runs; the schedules of attempts that keep repetitions apart |
| `Answers.dfy`, `Lifetimes.dfy` | the change-only record of last answers, in one process and over many |
| `VersionGate.dfy`, `Kebab.dfy` | the version comparison and the branch; the variant printer |
| `Utf8.dfy`, `Framer.dfy` | lossy decoding, event framing |
| `Pump.dfy`, `Owing.dfy` | the pump; what a receiver is owed, told from the body alone |
| `Review.dfy` | the review loop |
| `Redeem.dfy`, `WorkloadKey.dfy` | the redemption wire; the key file |

## Reading the model

- SHA-256, HMAC, the JSON serializer and reader, and the fleet's version parser are parameters. What is
  relied on is a named predicate: `Signing.DigestsShaped` (output length), `ReplayProtocol.Lawful` (a
  record reads back as written), `VersionGate.ReadsVersions` (a printed version parses back).
- The journal's reader keeps objects as ordered maps with distinct names, prints 64-bit integers exactly
  and follows at most 127 nested containers; `Storable.StorableRecord` is the records it then gives back as
  written, and `Journal.KeepsRecords` says that it does and accepts only JSON. The theorems about one log ask
  less: `Journal.Reads` is that the reader accepts only JSON and gives back the records of that log, so a
  record with a floating-point number is covered whenever its number prints as it was read.
  `Reader.ReadBackKeepsRecords` shows that a reader whose objects are ordered maps and which keeps
  records exists.
- Texts are sequences of Unicode characters; UTF-8 itself is modelled where the code decodes bytes
  (`Utf8`), and elsewhere only its injectivity is used. A journal append cut inside a character's encoding
  is a flag of the append, because the reader refuses a file that is not text.
- A call of `accept_once` is one caller whatever process it runs in; a process that dies takes its callers
  with it one crash step at a time, which allows more interleavings than the host does.
- Failures of system calls, the clock, the network and the receiver's patience are inputs.
- The record keeps the first answer of a run of one class, its message and time included, while the module
  comment of `answers.rs` speaks of the newest answer; the model follows the code.

## Findings

- `frame.rs` says chunk boundaries may fall anywhere, but each chunk is decoded on its own, so a boundary
  inside a multi-byte character turns it into replacement characters. `Utf8.ChunkedDecodingExactly` gives
  the exact condition on the text, `Framer.CutChangesEventExactly` the one on the event of a data field.
- The sign-in cooldown is a guard that is asked and a record that is stamped and written later. When every
  sign-in of a subscription was guarded, its guard said yes, and it is stamped no earlier than its guard was
  asked, the schedules that keep any two of them a cooldown apart are exactly those that record none between
  the guard of another and its record (`Cooldown.CooldownExactly`). Both clauses are needed:
  `Cooldown.OverlapBreaksCooldown` breaks every overlapping schedule with a clock that never goes back, and
  with a clock that steps back between guard and record only schedules without two sign-ins keep it
  (`Cooldown.StampOrderNeeded`). Automatic sign-ins hold one lock over guard and record
  (`src/subscription_dispatch/refresh_sweep/reauthorization.rs:52`); those asked for over the gateway
  (`src/core/server/subscriptions/sign_in.rs:232`) or on the command line
  (`src/cli/subscriptions/credentials/weles.rs:31`) do not take it.
- The guard does not decide alone. `src/subscription_dispatch/sign_in/verdict.rs:123-134` and 205-208 heed it
  only when the newest sign-in failed, with a known effect, for the same account and the same executor; after
  a success the next attempt runs at once (`SignInGate.SuccessIsNotCooled`). `SignInGate.GateExactly` says
  exactly when an attempt runs, the journal growing between the gate's two reads included. Of what the gate is
  for, that no final refusal is repeated and that repetitions of a failure are the cooldown apart, neither
  holds unconditionally: both hold exactly in the schedules that record no sign-in of the subscription
  between an attempt's first read and its own record, the second also only while attempts are stamped no
  earlier than they were asked about (`Repeats.RepeatsExactly`, `Repeats.StampOrderNeededForRepeats`).
  `Repeats.TwoAttemptsAtOnce` is the journal in which two attempts ask after one refusal and both run.
- Some sign-ins are recorded on paths that ask no guard of their own: those finished by hand
  (`src/subscription_dispatch/sign_in/manual/grant.rs:239`), refusals that Weles answered with
  (`src/subscription_dispatch/sign_in/mod.rs:32-64`), and authenticator enrolments that failed or were not
  confirmed (`src/subscription_dispatch/sign_in/recovery/mod.rs:63` and 79).

## Model

| member | source | states |
|---|---|---|
| `Replay.DecideRefinesHistory` | src/crypto/replay.rs:57-65 | the decision from newest timestamp and its signatures is the decision from everything ever accepted, and a refusal names the newest timestamp |
| `Replay.FreshKeepsRepresents` | src/crypto/replay.rs:66-71 | after an acceptance the record summarises the history with that request added, for every agent: dropping older signatures loses nothing |
| `Replay.RepresentsDeterminesEntries` | src/crypto/replay.rs:3-7 | the history alone determines every agent's entry |
| `Replay.NoRequestAdmittedTwice` | src/crypto/replay.rs:1-7 | in every sequential run of the full-history guard no request is admitted twice or again after an earlier run, and one agent's admitted times never go back |
| `ReplayProtocol.NextKeepsInv` | src/crypto/replay.rs:39-78 | every system call of every caller, failing or not, and every crash keeps lock exclusion, a whole record on disk, one effect per call and real-time order |
| `ReplayProtocol.EveryRunLinearizable` | src/crypto/replay.rs:11-15 | for any number of interleaved, failing and crashing callers, what they are answered is a sequential run of the full-history guard that keeps the order of calls that did not overlap |
| `ReplayProtocol.AnsweredOkOnce` | src/crypto/replay.rs:1-15 | no (agent, timestamp, signature) is answered Ok to two calls of a run, nor one accepted before it |
| `ReplayProtocol.MutualExclusion` | src/core/staging.rs:23-53 | in every reachable state at most one caller is between taking and freeing the lock |
| `ReplayProtocol.RecordAlwaysWhole` | src/core/staging.rs:55-75 | in every reachable state the record file is one whole record summarising exactly what was accepted, whatever a crash left in the staging file |
| `ReplayProtocol.OnlyAdmissionWrites` | src/crypto/replay.rs:57-77 | the record file changes only when a call is admitted, and then no other agent's entry changes |
| `ReplayProtocol.RecordNeverGoesBack` | src/crypto/replay.rs:66-69 | no agent's newest timestamp on disk ever decreases along a run |
| `ReplayProtocol.UndisturbedCallIsAnswered` | src/core/staging.rs:17-22 | whenever the lock is free, after any crashes, an undisturbed call can be answered, Ok exactly when its request is unseen |
| `ReplayProtocol.FirstRequestEver` | src/crypto/replay.rs:42-57 | from a directory without a record file, an undisturbed first call is answered Ok exactly when it is not signed before the epoch |
| `ReplayProtocol.CanDieAnywhere` | src/core/staging.rs:17-53 | a caller can die at every point between call and return; its lock is freed and the files stay as they are |
| `Staging.StateDirectory.Remove` | src/core/staging.rs:77-85 | a file reported left behind is still there unchanged; otherwise it is gone |
| `Staging.StateDirectory.ReplacePrivate` | src/core/staging.rs:55-93 | the whole record is replaced or nothing is, and a staging file left behind is named |
| `Staging.StateDirectory.AcceptOnce` | src/crypto/replay.rs:38-78 | admits exactly a fresh request and writes the decided record; any other answer leaves the record as it was; the lock is always freed; without a record file and without faults a request signed at or after the epoch is admitted and the record then holds it alone, and an earlier one is refused at 0; every fault answers a failure |
| `Staging.CallIsRun` | src/core/staging.rs:23-93 | under every combination of faults, a call that meets a free lock and is not disturbed is a run of the step relation from taking or being refused the lock to freeing it, with the method's answer and files at its end |
| `Decimal.ParseShow` | src/crypto/hmac_auth.rs:95-98 | every 64-bit integer parses back from its text |
| `Decimal.SpellingsOfOneTime` | src/crypto/hmac_auth.rs:95-98 | a plus sign and any number of leading zeros spell the same time |
| `Decimal.ParsesExactly` | src/crypto/hmac_auth.rs:95-98 | exactly the texts that parse, and to what: an optional sign, at least one digit, and a place value in 64 bits |
| `Signing.MessageDeterminesParts` | src/crypto/hmac_auth.rs:64-75 | the signed text determines agent, time and body hash, whatever colons the agent id holds |
| `Signing.SameBodyPart` | src/crypto/hmac_auth.rs:54-61 | two bodies have one part in the signed text exactly when both are empty or neither is and their digests are equal |
| `Signing.VerifiesExactly` | src/crypto/hmac_auth.rs:54-106 | exactly which headers verify: a named agent, a parsable time, and the hex of the MAC of agent, time and the hex digest of the whole body, with colons between |
| `Signing.RefusalsExactly` | src/crypto/hmac_auth.rs:86-105 | which refusal every other request meets, the first that applies |
| `Signing.VerifiesAnotherBody` | src/crypto/hmac_auth.rs:54-106 | headers that verify for one body verify for another exactly when the bodies have one digest, or on a collision of the MAC |
| `Signing.SignedHeadersVerify` | src/crypto/hmac_auth.rs:108-133 | the signer succeeds exactly for clocks a timestamp holds, stamps the agent and the clock's seconds, and what it builds verifies |
| `Signing.SignatureBindsMessage` | src/crypto/hmac_auth.rs:54-106 | two verified requests share a signature exactly when agent, time and the digests of their bodies agree or their two signed texts collide under the MAC |
| `Signing.AuthenticatesExactly` | src/subscription_dispatch/dispatch/caller_identity.rs:35-45 | what reaches the guard is the agent, time and signature of headers that verify |
| `Signing.PassesOncePerBodyAndTime` | src/subscription_dispatch/dispatch/caller_identity.rs:33-45 | over every concurrent run, one agent, time and body pass verification and the guard at most once under one secret, however the time is spelled, and under two secrets only when their MACs of the signed text differ |
| `Concurrency.ClosedForm` | src/journal/concurrency.rs:97-114 | for every sequence of endings, `carried` is the largest of what the newest refusal left and the answers since, and `refused_beside` is that refusal's count |
| `Concurrency.ScanCounts` | src/journal/concurrency.rs:48-51 | a count keeps each call alive at its end and none dead at its start, once, while handles die during it |
| `Concurrency.CountIsInFlight` | src/journal/concurrency.rs:46-52 | the count answered lies between the calls in flight after and before it, and equals them when none dies meanwhile |
| `Concurrency.SettleCounts` | src/journal/concurrency.rs:90-96 | inside one settlement the first count is at least one, the second strictly smaller, both bounded by the calls in flight, whatever else dies |
| `Concurrency.StepKeepsTracked` | src/journal/concurrency.rs:72-132 | admitting, dropping, counting and settling keep the weak references distinct, of the right alias and missing no live call, and keep the measurement that of the alias's endings |
| `Concurrency.MeasurementNeverExceedsPeak` | src/journal/concurrency.rs:3-14 | in every run `carried` is at most, and `refused_beside` strictly below, a number of calls that were in flight at once |
| `Measurement.PublishedMeasurement` | src/journal/concurrency.rs:90-132 | at every reachable state `carried` is the largest of what the alias's newest capacity refusal left and the first counts of its answered calls settled since, and `refused_beside` is that refusal's second count |
| `Measurement.OthersChangeNothing` | src/journal/concurrency.rs:97-114 | an ending that is neither, a drop, a count and everything other aliases do leave the measurement as it is |
| `Concurrency.PublishedInFlight` | src/journal/concurrency.rs:118-132 | every published in-flight count is the number of calls neither settled nor dropped, up to those that die while it counts |
| `Tracker.Routes.CountInFlight` | src/journal/concurrency.rs:48-51 | the retained references and the count are those of the scan over the dying set |
| `Tracker.Routes.Admit` | src/journal/concurrency.rs:74-85 | one more call of the alias is in flight, and the bookkeeping stays right |
| `Tracker.Routes.Settle` | src/journal/concurrency.rs:90-115 | is the settlement step, keeps the bookkeeping, counts strictly fewer beside, and measures by how the call ended: an answer can only raise, a refusal lowers to the calls beside, any other ending says nothing |
| `Tracker.Routes.Current` | src/journal/concurrency.rs:119-132 | publishes every alias, its measurement unchanged and its count between the calls in flight after and before |
| `Json.PrintRuns` | src/journal/mod.rs:83 | a printed value, met wherever a value may start, is scanned as exactly one value and leaves the open containers as they were |
| `Meaning.PrintDenotes` | src/journal/mod.rs:83 | what is printed denotes the value: its words, its strings by the escapes of section 7 of RFC 8259, and its parts between commas |
| `Grammar.GrammarIsScanned` | src/journal/mod.rs:125 | every text of the grammar of RFC 8259, blanks and all escapes and number forms included, is one for the scanner |
| `Pieces.ProperPrefixIsStuck` | src/journal/mod.rs:106-109 | no proper prefix of a record's text is JSON |
| `Pieces.PieceStaysStuck` | src/journal/mod.rs:83-90 | no prefix of a further record completes a cut-off text |
| `Unambiguous.PrintUnambiguous` | src/journal/mod.rs:83 | a text is the print of at most one value, even with more text behind it |
| `Reader.ReadBackKeepsRecords` | src/journal/mod.rs:125 | a reader that accepts only JSON, answers only ordered maps and gives every storable record back exists |
| `Storable.SetKeepsRecord` | src/journal/subscriptions.rs:41-44 | setting a field of a record keeps its names distinct and in order and every value one that reads back |
| `Storable.NamesNeverRepeat` | src/journal/mod.rs:141-143 | names in order never repeat, so a field looked up is the only one of its name |
| `Journal.TornAppendsNeverMisread` | src/journal/mod.rs:71-133 | for every log of whole and cut-off appends, a read answers exactly the records wholly on file when every record is wholly there or absent and no line end was lost before more was written, and is refused otherwise |
| `Journal.CleanAppended` | src/journal/mod.rs:71-90 | how one more append, whole or cut off, changes whether and what the journal reads back |
| `Journal.JournalFile.AppendRecord` | src/journal/mod.rs:73-104 | what reaches the file, and that an append is answered as written exactly when it opened, wrote the whole line and restricted its mode |
| `Journal.LineEndsEitherWay` | src/journal/mod.rs:119-121 | a line is read back without its line end, be it a line feed or a carriage return and one |
| `Journal.BlankLinesPass` | src/journal/mod.rs:121 | a line of white space is no record and refuses nothing |
| `Membership.OppositeScansAgree` | src/journal/mod.rs:163-213 | the forward and the backward reader are views of one state machine; a removed member is also retired |
| `Membership.IrrelevantRecords` | src/journal/mod.rs:165-182 | a record of another id or kind anywhere changes neither answer |
| `Membership.WholeRecordDecides` | src/journal/mod.rs:145-198 | after a whole membership record both readers answer by it, whatever came before |
| `Membership.CutRecordIsAllOrNothing` | src/journal/mod.rs:106-109 | a cut-off record is refused, or read as never written, or as wholly written |
| `Membership.MarkersAreRecords` | src/journal/mod.rs:145-198 | each writer's record reads back as written and carries the id, the kind its readers look for, the time and, for a forgotten member, the reason |
| `Membership.WrittenMarkerDecides` | src/journal/mod.rs:145-213 | after each of the four writers both readers answer as that writer promises, whatever came before |
| `Subscriptions.SignInRecordReadsBack` | src/journal/subscriptions.rs:40-46 | whatever the outcome held, the record is found as a sign-in of its subscription at the time given, with its kind and both times set and every other field kept |
| `Subscriptions.RecordReadsExactly` | src/journal/subscriptions.rs:49-76 | exactly which records are sign-ins of a subscription, and what time they state |
| `Subscriptions.SignInRecordIsStorable` | src/journal/subscriptions.rs:40-46 | the record reads back as written whenever its outcome would |
| `Subscriptions.DueExactly` | src/journal/subscriptions.rs:81-95 | for every log of whole and cut-off appends, another sign-in may start exactly when the journal reads back and its newest sign-in of the subscription is at least the exact cooldown old, saturation included |
| `Cooldown.CooldownHolds` | src/journal/subscriptions.rs:77-95 | when every sign-in was guarded, its guard said yes, it is stamped no earlier than its guard was asked and none is recorded between another's guard and record, any two are at least the cooldown apart, over all runs, restarts and torn appends |
| `Cooldown.OverlapBreaksCooldown` | src/journal/subscriptions.rs:40-95 | for every schedule that records a sign-in between another's guard and record, a clock that never goes back lets every guard say yes and leaves two sign-ins closer than the cooldown |
| `Cooldown.CooldownExactly` | src/journal/subscriptions.rs:77-95 | a schedule keeps every two guarded sign-ins a cooldown apart, under every clock that stamps each no earlier than its guard was asked, if and only if none is recorded between another's guard and record |
| `Cooldown.StampOrderNeeded` | src/journal/subscriptions.rs:40-95 | when sign-ins may be stamped before their guards were asked, a schedule keeps them apart if and only if it has no two |
| `SignInGate.GateExactly` | src/subscription_dispatch/sign_in/verdict.rs:109-209 | an attempt runs exactly when the journal reads back and the newest sign-in of its first read is no known failure of this account that is final or, for this executor, still cooling down by the newest sign-in of its second read, whatever was recorded between the two |
| `SignInGate.GateAnswersExactly` | src/subscription_dispatch/sign_in/verdict.rs:109-135 | exactly when the gate refuses to answer, and that what it hands back in place of an attempt is the newest sign-in of its first read |
| `SignInGate.GateUnraced` | src/subscription_dispatch/sign_in/verdict.rs:109-135 | when no sign-in is recorded between the two reads, one record decides |
| `Repeats.RepeatsHold` | src/subscription_dispatch/sign_in/verdict.rs:107-135 | when no sign-in of the subscription is recorded between an attempt's first read and its record, no attempt follows a final refusal of the account, and attempts stamped no earlier than asked that repeat a known failure are at least the cooldown apart |
| `Repeats.OverlapBreaksRepeats` | src/subscription_dispatch/sign_in/verdict.rs:107-135 | for every schedule that does record one there, a clock that stands still lets every attempt run, one of them at once after a final refusal |
| `Repeats.RepeatsExactly` | src/subscription_dispatch/sign_in/verdict.rs:107-209 | a schedule never repeats a final refusal, and keeps repetitions stamped no earlier than asked a cooldown apart, if and only if it records no sign-in between an attempt's first read and its record |
| `Repeats.StampOrderNeededForRepeats` | src/subscription_dispatch/sign_in/verdict.rs:107-135 | when attempts may be stamped before they were asked about, a schedule keeps repetitions apart if and only if no attempt comes after another sign-in |
| `Repeats.TwoAttemptsAtOnce` | src/subscription_dispatch/sign_in/verdict.rs:114-134 | two attempts that ask after one refusal a cooldown later both run, and are recorded no time apart |
| `SignInGate.SuccessIsNotCooled` | src/subscription_dispatch/sign_in/verdict.rs:175-209 | after a successful sign-in the next attempt runs at once, while the guard of the cooldown says no |
| `Answers.Gateway.Record` | src/journal/answers.rs:70-95 | a write is attempted exactly when the alias's entry is not of an answer like this one; then the entry tells whether it was a generation, its code, message and time, and the file follows |
| `Answers.WritesAtChanges` | src/journal/answers.rs:67-82 | over every run, a write is attempted exactly when the alias's newest earlier answer was a generation and this one is a refusal, the reverse, or both are refusals with different codes |
| `Answers.EntryIsRunStart` | src/journal/answers.rs:83-91 | each entry tells of the first answer of the alias's current run: generation or not, its code, its message and its time |
| `Answers.RunIsUnbroken` | src/journal/answers.rs:7-11 | every answer of the alias since that one has its class |
| `Answers.FileIsEarlierRecord` | src/journal/answers.rs:97-106 | the file is always the whole record as of the last attempted write that succeeded |
| `Answers.FileIsCurrent` | src/journal/answers.rs:97-106 | after a write that succeeded and no attempt since, the file is the record in memory |
| `Lifetimes.LivesFollowEvents` | src/journal/answers.rs:55-106 | over every run of answers, failed writes and restarts, the file is the whole record as of the last due write that succeeded in any process, and each alias is known by its newest answer a restart did not forget |
| `Lifetimes.RestartLoadsLastStored` | src/journal/answers.rs:55-82 | what a restarted process loads, and exactly which answers are then written again |
| `Lifetimes.RestartIsInvisible` | src/journal/answers.rs:55-65 | a restart changes nothing when no due write failed since the last one that succeeded |
| `VersionGate.AcceptsExactly` | src/cli/version_gate/contract.rs:133-172 | exactly which declared versions the comparison accepts |
| `VersionGate.RefusesExactly` | src/cli/version_gate/contract.rs:133-164 | which refusal every other declared version meets |
| `VersionGate.CoordinateParts` | src/cli/version_gate/contract.rs:40-42 | a coordinate is the decimal text of major, minor and patch without leading zeros, dots between |
| `VersionGate.RefusalNamesFirstGap` | src/cli/version_gate/contract.rs:157-164 | a refused jump names the first coordinate nothing declared |
| `VersionGate.LazyWalkBound` | src/cli/version_gate/contract.rs:157-162 | for a gap of any size at most one coordinate more than the history holds is looked at |
| `VersionGate.SkippedIsBounded` | src/cli/version_gate/contract.rs:165-171 | the skipped list of an acceptance is every coordinate from the required patch up to the declared one, in order, all declared before and so no longer than the history |
| `VersionGate.EmptyHistoryRefusesJumps` | src/cli/version_gate/contract.rs:144-164 | with nothing declared before, only the released version of an internal change and the required version are accepted |
| `VersionGate.FurthestPatchRefused` | src/cli/version_gate/contract.rs:200-210 | the self-check's furthest patch is accepted only if it is the released or required version itself |
| `VersionGate.HistoryIsEarlier` | src/cli/version_gate/contract.rs:117-130 | the history of a commit is the versions of all earlier manifest commits, refused when there is none |
| `VersionGate.HistoryExactly` | src/cli/version_gate/contract.rs:114-130 | a history is refused exactly when it is one commit deep or an earlier manifest names no version, and else holds the earlier versions and nothing else |
| `VersionGate.BranchIsContiguous` | src/cli/version_gate/contract.rs:4-11 | if every commit of a branch passes against one released and required version, the patches it declares in the required series form a gap-free interval from the required one |
| `Kebab.Render` | src/cli/version_gate/surface.rs:91-115 | the loop renders what the recursive definition does |
| `Kebab.PrintsExactly` | src/cli/version_gate/surface.rs:87-115 | what every variant prints as, character by character: where it splits, capital runs included, small letters for capitals and dashes for underscores |
| `Kebab.KebabJoinsWords` | src/cli/version_gate/surface.rs:88-115 | a variant of capitalised words prints as its words lowercased and joined by dashes |
| `Kebab.WordsReadBack` | src/cli/version_gate/surface.rs:88-115 | splitting and capitalising undoes the printing |
| `Kebab.KebabInjectiveOnWords` | src/cli/version_gate/surface.rs:88-115 | such variants never collide |
| `Kebab.CapitalRunCollides` | src/cli/version_gate/surface.rs:95-103 | variants of another shape can collide |
| `Utf8.ChunkedDecodingExactly` | src/providers/stream/frame.rs:32 | decoding chunk by chunk gives the text of the whole exactly when no boundary splits a character, and more characters otherwise |
| `Utf8.DecodesExactly` | src/providers/stream/frame.rs:32 | exactly the bytes that decode to a text without replacement characters: its UTF-8 encoding, characters of every length |
| `Framer.SseFramer.Feed` | src/providers/stream/frame.rs:30-67 | the buffered line loop yields the events of the character machine that knows no chunks |
| `Framer.BlockFramed` | src/providers/stream/frame.rs:33-66 | whatever lines come before a blank line, the event has the newest name given and every data line, joined; comments and other fields are passed over, and nothing is carried over |
| `Framer.EventsIgnoreChunking` | src/providers/stream/frame.rs:3-8 | wherever the bytes are cut between characters, the events are those of the whole text |
| `Framer.CutChangesEventExactly` | src/providers/stream/frame.rs:31-57 | in any state of the framer, a data field's value cut in two completes the event of the uncut value if and only if the cut falls inside no character |
| `Framer.CutInsideCharacterChangesEvent` | src/providers/stream/frame.rs:31-32 | after any chunk ending in a data field, the two bytes of one letter give that letter in one chunk and two replacement characters in two |
| `Pump.Run` | src/providers/stream.rs:62-121 | for all arrivals, translators and patience, the receiver gets a prefix of what the flattened body owes |
| `Owing.OwedExactly` | src/providers/stream.rs:62-121 | exactly what every body owes, for every translator: its items in order up to the first failed one, or all of them and its ending, with the cause when it broke |
| `Owing.OwedEndsOnce` | src/providers/stream/event.rs:64-69 | exactly one terminal item, last; it is Done exactly when the body ended cleanly, some event was terminal and no item failed |
| `Owing.BodyOfArrivals` | src/providers/stream.rs:62-83 | a body is every event before the first read that failed or was refused, and why that one ended it |
| `Owing.DeliveryIgnoresChunking` | src/providers/stream.rs:62-83 | two chunkings of one body that cut no character owe the same items |
| `Review.Run` | src/cli/review/mod.rs:119-164 | the requests sent, each the previous transcript and one turn's block, and how the review ends |
| `Review.AnswerEach` | src/cli/review/mod.rs:147-159 | the calls of a turn answered in order up to a verdict or a broken call |
| `Review.TranscriptsAreWellAnswered` | src/cli/review/mod.rs:138-159 | every request sent has each earlier tool call answered once, in order, with its id, and no other tool answer |
| `Review.DecidesExactly` | src/cli/review/mod.rs:147-153 | a turn gives a verdict exactly when a well-formed submission precedes every malformed or id-less call |
| `Review.VerdictIsFirstSubmission` | src/cli/review/mod.rs:123-150 | a verdict is the first submission in call order of the last turn, no earlier turn submitted, and no more turns were asked than allowed |
| `Review.TurnAddsExactly` | src/cli/review/mod.rs:119-160 | exactly when a turn goes on, and what it adds: the assistant's message with its calls and each tool's answer, or the reminder |
| `Review.TurnFailsExactly` | src/cli/review/mod.rs:120-154 | exactly how a turn fails |
| `Review.SubmissionExactly` | src/cli/review/tools.rs:64-105 | exactly which calls submit a verdict, in the schema's word and with which trimmed text, which ask another tool, and that every other call is malformed |
| `Review.VerdictWasSubmitted` | src/cli/review/mod.rs:119-164 | with that reading, the verdict and text of a review are those the first submitting call of its last turn names; every call before it asks another tool |
| `Redeem.ProofInputDeterminesParts` | src/capability/mod.rs:159-172 | the signed proof text determines capability, nonce and workload, whatever the workload id holds |
| `Redeem.Socket.ReadControlLine` | src/capability/mod.rs:283-299 | the bytes before the first newline, and that nothing after it is consumed |
| `Redeem.Socket.ReadResponse` | src/capability/mod.rs:205-252 | the reader answers by the response function, errors told apart |
| `Redeem.SecretExactly` | src/capability/mod.rs:205-252 | exactly the streams that yield a secret: one control line stating ok, this version and the length, a newline, the secret, and a clean end |
| `Redeem.ResponseExactly` | src/capability/mod.rs:196-252 | which answer every stream gets: the secret, unreachable, not the wire format, or denied |
| `Redeem.OnlyTheExactStream` | src/capability/mod.rs:239-251 | every truncation and every extension of an accepted response is refused |
| `WorkloadKey.ParsesExactly` | src/capability/workload_key.rs:80-108 | exactly the files that hold a seed: its raw bytes, or its lowercase hex and blanks |
| `WorkloadKey.BothFormsReadBack` | src/capability/workload_key.rs:26-28 | every seed is read back from both forms, no file reads both ways, and at most two bytes may follow the hex |

## Left out

- Cryptographic strength, constant-time comparison, key file ownership and mode checks, zeroizing: not properties of these algorithms' results.
- Power-loss durability: the staged file is synced and the directory is not; crashes here are of processes, and renames survive them.
- Waiting for the lock: the step relation says who may take it, not that a waiter eventually does.
- HTTP clients, provider adapters, OAuth refresh, the vault and broker calls, git and other child processes.
- The per-wire translators of the stream: any translator that never emits Done is covered; that the three wires never do is not proved.
- Which floating-point numbers the JSON reader gives back exactly: a log's records are asked to read back as written.
- The AutoVersion classification and the surface list: the required version and the change class are inputs.
- `src/cli/version_gate/surface.rs` beyond `kebab`, task-quality checks, acquisitions and refreshes in the journal, `src/journal/resets.rs`.
- The file tools of the review (`read_file`, `search`): a function from a call to its answer.
- Two processes writing inside one journal line at once: an append is one step that only a crash or a failed write cuts short.
- Cooldown.CooldownHolds: covers sign-ins whose record reached the journal, because a sign-in whose record could not be written is reported and not remembered by the code.
- Cooldown.CooldownExactly: asks that a 64-bit clock can run one cooldown per place of the journal, because in less room no clock may let every guard say yes.
- Repeats.RepeatsExactly: is about the attempts of one account revision and one executor, because the gate promises nothing when either changes.
